/** src/stats.py: `get_monthly_summary`, which groups categorised
    transactions by calendar month and totals each month. */
module Stats {
  import opened Utils

  /** A transaction as the aggregator reads it: a date, a signed amount
      (positive is income) and the category label attached to it. */
  datatype Entry = Entry(date: Date, description: string, amount: real, category: string)

  /** The `"%Y-%m"` key of a date: its year and month. */
  datatype MonthKey = MonthKey(year: int, month: int)

  function MonthOf(d: Date): MonthKey
  {
    MonthKey(d.year, d.month)
  }

  /** One month's aggregate: the `income`, `expenses`, `savings`,
      `savings_rate` and `categories` entries of the summary. */
  datatype MonthSummary = MonthSummary(
    income: real, expenses: real, savings: real, savingsRate: real,
    categories: map<string, real>)

  // ------------------------------------------------ specification functions

  /** Python's `abs` on a number. */
  function Abs(x: real): (r: real)
    ensures r >= 0.0 && (r == x || r == -x)
  {
    if x < 0.0 then -x else x
  }

  /** The sum of all amounts. */
  function Total(entries: seq<Entry>): real
  {
    if entries == [] then 0.0 else Total(entries[..|entries| - 1]) + entries[|entries| - 1].amount
  }

  /** The sum of the amounts that are greater than zero. */
  function Income(entries: seq<Entry>): (r: real)
    ensures r >= 0.0
  {
    if entries == [] then 0.0
    else
      var a := entries[|entries| - 1].amount;
      Income(entries[..|entries| - 1]) + (if a > 0.0 then a else 0.0)
  }

  /** The sum of the amounts that are zero or less. */
  function Expenses(entries: seq<Entry>): (r: real)
    ensures r <= 0.0
  {
    if entries == [] then 0.0
    else
      var a := entries[|entries| - 1].amount;
      Expenses(entries[..|entries| - 1]) + (if a > 0.0 then 0.0 else a)
  }

  /** The magnitude spent on category `c`: the sum of `-amount` over the
      non-positive entries labelled `c`. */
  function CategorySpend(entries: seq<Entry>, c: string): (r: real)
    ensures r >= 0.0
  {
    if entries == [] then 0.0
    else
      var e := entries[|entries| - 1];
      CategorySpend(entries[..|entries| - 1], c) + (if e.amount <= 0.0 && e.category == c then -e.amount else 0.0)
  }

  /** The labels of the non-positive entries. */
  function ExpenseCategories(entries: seq<Entry>): set<string>
  {
    if entries == [] then {}
    else
      var e := entries[|entries| - 1];
      ExpenseCategories(entries[..|entries| - 1]) + (if e.amount <= 0.0 then {e.category} else {})
  }

  /** The `categories` dict: each label of a non-positive entry, mapped to
      the magnitude spent on it. */
  function CategoryMap(entries: seq<Entry>): map<string, real>
  {
    map c | c in ExpenseCategories(entries) :: CategorySpend(entries, c)
  }

  /** `savings / income * 100`, or 0 when there is no income. */
  function SavingsRate(income: real, savings: real): real
  {
    if income > 0.0 then savings / income * 100.0 else 0.0
  }

  /** The aggregate of one month's entries. */
  function Summarize(entries: seq<Entry>): MonthSummary
  {
    var income := Income(entries);
    var expenses := Expenses(entries);
    MonthSummary(income, expenses, income + expenses, SavingsRate(income, income + expenses), CategoryMap(entries))
  }

  /** The months the entries fall in. */
  function Months(entries: seq<Entry>): set<MonthKey>
  {
    if entries == [] then {}
    else Months(entries[..|entries| - 1]) + {MonthOf(entries[|entries| - 1].date)}
  }

  /** The entries of month `k`, in input order. */
  function InMonth(entries: seq<Entry>, k: MonthKey): seq<Entry>
  {
    if entries == [] then []
    else
      var e := entries[|entries| - 1];
      InMonth(entries[..|entries| - 1], k) + (if MonthOf(e.date) == k then [e] else [])
  }

  /** What `get_monthly_summary` returns, with the order of its keys left out. */
  function MonthlySummary(entries: seq<Entry>): map<MonthKey, MonthSummary>
  {
    map k | k in Months(entries) :: Summarize(InMonth(entries, k))
  }

  // ------------------------------------------------------- one more entry

  /** Nothing is spent on a label that no expense carries. */
  lemma {:induction false} NoSpendOutsideCategories(entries: seq<Entry>, c: string)
    requires c !in ExpenseCategories(entries)
    ensures CategorySpend(entries, c) == 0.0
  {
    if entries != [] {
      NoSpendOutsideCategories(entries[..|entries| - 1], c);
    }
  }

  lemma CategoryMapSnoc(entries: seq<Entry>, e: Entry)
    ensures var m := CategoryMap(entries);
      CategoryMap(entries + [e])
      == if e.amount <= 0.0 then m[e.category := (if e.category in m then m[e.category] else 0.0) + Abs(e.amount)] else m
  {
    var s := entries + [e];
    assert s[..|s| - 1] == entries;
    var m := CategoryMap(entries);
    var m' := CategoryMap(s);
    if e.amount <= 0.0 {
      var u := m[e.category := (if e.category in m then m[e.category] else 0.0) + Abs(e.amount)];
      assert m'.Keys == u.Keys;
      forall c | c in u ensures m'[c] == u[c] {
        if c !in m {
          NoSpendOutsideCategories(entries, c);
        }
        assert CategorySpend(s, c) == CategorySpend(entries, c) + (if c == e.category then -e.amount else 0.0);
      }
    } else {
      assert m'.Keys == m.Keys;
      forall c | c in m ensures m'[c] == m[c] {
        assert CategorySpend(s, c) == CategorySpend(entries, c);
      }
    }
  }

  /** A month is among the entries' months exactly when it has entries. */
  lemma {:induction false} MonthsHaveEntries(entries: seq<Entry>, k: MonthKey)
    ensures k in Months(entries) <==> InMonth(entries, k) != []
  {
    if entries != [] {
      MonthsHaveEntries(entries[..|entries| - 1], k);
    }
  }

  lemma MonthsSnoc(entries: seq<Entry>, e: Entry)
    ensures Months(entries + [e]) == Months(entries) + {MonthOf(e.date)}
    ensures forall k :: InMonth(entries + [e], k) == InMonth(entries, k) + (if MonthOf(e.date) == k then [e] else [])
  {
    var s := entries + [e];
    assert s[..|s| - 1] == entries;
  }

  lemma SumsSnoc(entries: seq<Entry>, e: Entry)
    ensures Income(entries + [e]) == Income(entries) + (if e.amount > 0.0 then e.amount else 0.0)
    ensures Expenses(entries + [e]) == Expenses(entries) + (if e.amount > 0.0 then 0.0 else e.amount)
    ensures Total(entries + [e]) == Total(entries) + e.amount
  {
    var s := entries + [e];
    assert s[..|s| - 1] == entries;
  }

  // --------------------------------------------------------------- methods

  /** The inner loop of `get_monthly_summary` for one month: running
      income and expenses, a per-category total of expense magnitudes, then
      savings and the savings rate. */
  method SummarizeMonth(entries: seq<Entry>) returns (s: MonthSummary)
    ensures s == Summarize(entries)
  {
    var income := 0.0;
    var expenses := 0.0;
    var categoryTotals: map<string, real> := map[];
    var j := 0;
    while j < |entries|
      invariant 0 <= j <= |entries|
      invariant income == Income(entries[..j])
      invariant expenses == Expenses(entries[..j])
      invariant categoryTotals == CategoryMap(entries[..j])
    {
      var e := entries[j];
      assert entries[..j + 1] == entries[..j] + [e];
      SumsSnoc(entries[..j], e);
      CategoryMapSnoc(entries[..j], e);
      var amt := e.amount;
      var cat := e.category;
      if amt > 0.0 {
        income := income + amt;
      } else {
        expenses := expenses + amt;
        var sofar := if cat in categoryTotals then categoryTotals[cat] else 0.0;
        categoryTotals := categoryTotals[cat := sofar + Abs(amt)];
      }
      j := j + 1;
    }
    assert entries[..j] == entries;
    var savings := income + expenses;
    var savingsRate := 0.0;
    if income > 0.0 {
      savingsRate := savings / income * 100.0;
    }
    return MonthSummary(income, expenses, savings, savingsRate, categoryTotals);
  }

  /** The months of the entries, once each, in the order their first
      entries come. */
  function MonthOrder(entries: seq<Entry>): seq<MonthKey>
  {
    if entries == [] then []
    else
      var o := MonthOrder(entries[..|entries| - 1]);
      var k := MonthOf(entries[|entries| - 1].date);
      if k in o then o else o + [k]
  }

  /** `MonthOrder` lists every month of the entries, and each only once. */
  lemma {:induction false} MonthOrderLists(entries: seq<Entry>)
    ensures forall k :: k in MonthOrder(entries) <==> k in Months(entries)
    ensures forall a, b :: 0 <= a < b < |MonthOrder(entries)| ==> MonthOrder(entries)[a] != MonthOrder(entries)[b]
  {
    if entries != [] {
      MonthOrderLists(entries[..|entries| - 1]);
    }
  }

  /** Month `k` first appears before month `j`: some entry is dated in `k`,
      and neither it nor any earlier entry is dated in `j`. */
  ghost predicate AppearsBefore(entries: seq<Entry>, k: MonthKey, j: MonthKey)
  {
    exists i :: 0 <= i < |entries| && MonthOf(entries[i].date) == k
      && forall l :: 0 <= l <= i ==> MonthOf(entries[l].date) != j
  }

  /** What comes first in a prefix comes first in the whole sequence. */
  lemma AppearsBeforeSnoc(entries: seq<Entry>, k: MonthKey, j: MonthKey)
    requires entries != [] && AppearsBefore(entries[..|entries| - 1], k, j)
    ensures AppearsBefore(entries, k, j)
  {
    var p := entries[..|entries| - 1];
    var i :| 0 <= i < |p| && MonthOf(p[i].date) == k && forall l :: 0 <= l <= i ==> MonthOf(p[l].date) != j;
    assert MonthOf(entries[i].date) == k;
    forall l | 0 <= l <= i ensures MonthOf(entries[l].date) != j {
      assert entries[l] == p[l];
    }
  }

  /** A month of a prefix comes before a month that only the last entry has. */
  lemma AppearsBeforeNewMonth(entries: seq<Entry>, k: MonthKey)
    requires entries != [] && k in Months(entries[..|entries| - 1])
    requires MonthOf(entries[|entries| - 1].date) !in Months(entries[..|entries| - 1])
    ensures AppearsBefore(entries, k, MonthOf(entries[|entries| - 1].date))
  {
    var p := entries[..|entries| - 1];
    var j := MonthOf(entries[|entries| - 1].date);
    MonthsIff(p);
    var i :| 0 <= i < |p| && MonthOf(p[i].date) == k;
    assert MonthOf(entries[i].date) == k;
    forall l | 0 <= l <= i ensures MonthOf(entries[l].date) != j {
      assert entries[l] == p[l];
      assert MonthOf(p[l].date) in Months(p);
    }
  }

  /** `MonthOrder` lists the months in order of first appearance: each
      listed month has an entry before the first entry of every later one. */
  lemma {:induction false} MonthOrderIsFirstAppearance(entries: seq<Entry>)
    ensures forall a, b :: 0 <= a < b < |MonthOrder(entries)| ==>
      AppearsBefore(entries, MonthOrder(entries)[a], MonthOrder(entries)[b])
  {
    if entries != [] {
      var n := |entries| - 1;
      var p := entries[..n];
      var o := MonthOrder(p);
      var k := MonthOf(entries[n].date);
      var order := MonthOrder(entries);
      MonthOrderIsFirstAppearance(p);
      MonthOrderLists(p);
      forall a, b | 0 <= a < b < |order| ensures AppearsBefore(entries, order[a], order[b]) {
        if b < |o| {
          assert order[a] == o[a] && order[b] == o[b];
          AppearsBeforeSnoc(entries, o[a], o[b]);
        } else {
          assert k !in o && order == o + [k];
          assert order[a] == o[a] && order[b] == k;
          AppearsBeforeNewMonth(entries, o[a]);
        }
      }
    }
  }

  /** `grouped` holds the entries of each month of `entries` and nothing
      else, and `order` lists its keys in order of first appearance. */
  ghost predicate Grouped(entries: seq<Entry>, order: seq<MonthKey>, grouped: map<MonthKey, seq<Entry>>)
  {
    && grouped.Keys == Months(entries)
    && (forall k :: k in grouped ==> grouped[k] == InMonth(entries, k))
    && order == MonthOrder(entries)
  }

  /** Appending an entry to its month's group (opening the group, and
      recording its key, on the month's first entry) keeps `Grouped`. */
  lemma GroupedSnoc(entries: seq<Entry>, e: Entry, order: seq<MonthKey>, grouped: map<MonthKey, seq<Entry>>)
    requires Grouped(entries, order, grouped)
    ensures var k := MonthOf(e.date);
      Grouped(entries + [e],
        if k in grouped then order else order + [k],
        grouped[k := (if k in grouped then grouped[k] else []) + [e]])
  {
    MonthsSnoc(entries, e);
    MonthsHaveEntries(entries, MonthOf(e.date));
    assert (entries + [e])[..|entries|] == entries;
    MonthOrderLists(entries);
  }

  /** The grouping loop of `get_monthly_summary`: a list of entries per month
      key, the keys in order of first appearance (the order a `defaultdict`
      iterates in). */
  method GroupByMonth(entries: seq<Entry>) returns (order: seq<MonthKey>, grouped: map<MonthKey, seq<Entry>>)
    ensures grouped.Keys == Months(entries)
    ensures forall k :: k in grouped ==> grouped[k] == InMonth(entries, k)
    ensures order == MonthOrder(entries)
    ensures forall a, b :: 0 <= a < b < |order| ==> order[a] != order[b]
    ensures forall k :: k in order <==> k in grouped
    ensures forall a, b :: 0 <= a < b < |order| ==> AppearsBefore(entries, order[a], order[b])
  {
    order, grouped := [], map[];
    var i := 0;
    while i < |entries|
      invariant 0 <= i <= |entries|
      invariant Grouped(entries[..i], order, grouped)
    {
      var e := entries[i];
      var monthKey := MonthOf(e.date);
      ghost var order0, grouped0 := order, grouped;
      var group := if monthKey in grouped then grouped[monthKey] else [];
      if monthKey !in grouped {
        order := order + [monthKey];
      }
      grouped := grouped[monthKey := group + [e]];
      assert Grouped(entries[..i + 1], order, grouped) by {
        assert entries[..i + 1] == entries[..i] + [e];
        GroupedSnoc(entries[..i], e, order0, grouped0);
      }
      i := i + 1;
    }
    assert entries[..i] == entries;
    MonthOrderLists(entries);
    MonthOrderIsFirstAppearance(entries);
  }

  /** The second loop of `get_monthly_summary`: summarise each group, in
      the order its month first appeared. */
  method SummarizeGroups(order: seq<MonthKey>, grouped: map<MonthKey, seq<Entry>>) returns (summary: map<MonthKey, MonthSummary>)
    requires forall k :: k in order <==> k in grouped
    ensures summary.Keys == grouped.Keys
    ensures forall k :: k in summary ==> summary[k] == Summarize(grouped[k])
  {
    summary := map[];
    var j := 0;
    while j < |order|
      invariant 0 <= j <= |order|
      invariant forall k :: k in summary <==> k in order[..j]
      invariant forall k :: k in summary ==> k in grouped && summary[k] == Summarize(grouped[k])
    {
      var month := order[j];
      var s := SummarizeMonth(grouped[month]);
      assert order[..j + 1] == order[..j] + [month];
      summary := summary[month := s];
      j := j + 1;
    }
    assert order[..j] == order;
  }

  /** `get_monthly_summary`: group by month, then summarise each month. */
  method GetMonthlySummary(entries: seq<Entry>) returns (summary: map<MonthKey, MonthSummary>)
    ensures summary == MonthlySummary(entries)
  {
    var order, grouped := GroupByMonth(entries);
    summary := SummarizeGroups(order, grouped);
    SummaryOfGroups(entries, grouped, summary);
  }

  /** A summary with one entry per group, each the group's aggregate, is the
      monthly summary when the groups are the entries' months. */
  lemma SummaryOfGroups(entries: seq<Entry>, grouped: map<MonthKey, seq<Entry>>, summary: map<MonthKey, MonthSummary>)
    requires grouped.Keys == Months(entries)
    requires forall k :: k in grouped ==> grouped[k] == InMonth(entries, k)
    requires summary.Keys == grouped.Keys
    requires forall k :: k in summary ==> summary[k] == Summarize(grouped[k])
    ensures summary == MonthlySummary(entries)
  {
  }

  // ------------------------------------------------------------ properties

  /** The sum of the values of a map, in no particular key order. */
  ghost function MapSum<K>(m: map<K, real>): real
    decreases m.Keys
  {
    if m.Keys == {} then 0.0
    else
      var k :| k in m;
      m[k] + MapSum(m - {k})
  }

  /** A map sums to any one of its values plus the sum of the others. */
  lemma MapSumRemove<K>(m: map<K, real>, k: K)
    requires k in m
    ensures MapSum(m) == m[k] + MapSum(m - {k})
    decreases m.Keys
  {
    var j :| j in m && MapSum(m) == m[j] + MapSum(m - {j});
    if j != k {
      MapSumRemove(m - {j}, k);
      MapSumRemove(m - {k}, j);
      assert m - {j} - {k} == m - {k} - {j};
    }
  }

  /** Setting one key changes the sum by the change in its value. */
  lemma MapSumUpdate<K>(m: map<K, real>, k: K, v: real)
    ensures MapSum(m[k := v]) == MapSum(m) - (if k in m then m[k] else 0.0) + v
  {
    MapSumRemove(m[k := v], k);
    assert m[k := v] - {k} == m - {k};
    if k in m {
      MapSumRemove(m, k);
    } else {
      assert m - {k} == m;
    }
  }

  /** Adding to one key's value (0 when absent) adds to the sum. */
  lemma MapSumAdd<K>(m: map<K, real>, k: K, d: real)
    ensures MapSum(m[k := (if k in m then m[k] else 0.0) + d]) == MapSum(m) + d
  {
    MapSumUpdate(m, k, (if k in m then m[k] else 0.0) + d);
  }

  /** A month is among the entries' months exactly when some entry is dated in it. */
  lemma {:induction false} MonthsIff(entries: seq<Entry>)
    ensures forall k :: k in Months(entries) <==>
      exists i :: 0 <= i < |entries| && MonthOf(entries[i].date) == k
  {
    if entries != [] {
      var n := |entries| - 1;
      var p := entries[..n];
      MonthsIff(p);
      forall k ensures k in Months(entries) <==> exists i :: 0 <= i < |entries| && MonthOf(entries[i].date) == k {
        if k in Months(p) {
          var i :| 0 <= i < |p| && MonthOf(p[i].date) == k;
          assert MonthOf(entries[i].date) == k;
        } else if k == MonthOf(entries[n].date) {
          assert MonthOf(entries[n].date) == k;
        }
        if exists i :: 0 <= i < |entries| && MonthOf(entries[i].date) == k {
          var i :| 0 <= i < |entries| && MonthOf(entries[i].date) == k;
          if i < n {
            assert MonthOf(p[i].date) == k;
          }
        }
      }
    }
  }

  /** The summary has a key for a month exactly when some entry is dated in it. */
  lemma SummaryKeysAreEntryMonths(entries: seq<Entry>)
    ensures forall k :: k in MonthlySummary(entries) <==>
      exists i :: 0 <= i < |entries| && MonthOf(entries[i].date) == k
  {
    MonthsIff(entries);
  }

  /** Every entry falls into exactly one month: month `k` holds each
      occurrence of an entry dated in `k`, and nothing else. */
  lemma {:induction false} EachEntryInOneMonth(entries: seq<Entry>, k: MonthKey)
    ensures forall e :: multiset(InMonth(entries, k))[e] == if MonthOf(e.date) == k then multiset(entries)[e] else 0
  {
    if entries != [] {
      var n := |entries| - 1;
      EachEntryInOneMonth(entries[..n], k);
      assert entries == entries[..n] + [entries[n]];
    }
  }

  /** Month `k` holds exactly the entries dated in `k`. */
  lemma InMonthMembers(entries: seq<Entry>, k: MonthKey)
    ensures forall e :: e in InMonth(entries, k) <==> e in entries && MonthOf(e.date) == k
  {
    EachEntryInOneMonth(entries, k);
    forall e ensures e in InMonth(entries, k) <==> e in entries && MonthOf(e.date) == k {
      assert e in InMonth(entries, k) <==> multiset(InMonth(entries, k))[e] > 0;
      assert e in entries <==> multiset(entries)[e] > 0;
    }
  }

  /** Every amount counts as income or as expense, never both. */
  lemma {:induction false} IncomePlusExpensesIsTotal(entries: seq<Entry>)
    ensures Income(entries) + Expenses(entries) == Total(entries)
  {
    if entries != [] {
      IncomePlusExpensesIsTotal(entries[..|entries| - 1]);
    }
  }

  /** A month has no income exactly when none of its amounts is positive. */
  lemma {:induction false} NoIncomeIff(entries: seq<Entry>)
    ensures Income(entries) == 0.0 <==> forall i :: 0 <= i < |entries| ==> entries[i].amount <= 0.0
  {
    if entries != [] {
      var n := |entries| - 1;
      NoIncomeIff(entries[..n]);
      assert forall i :: 0 <= i < n ==> entries[..n][i] == entries[i];
    }
  }

  /** With a positive income, `savings / income * 100` is at most 100 when
      savings do not exceed the income, and exactly 100 when they equal it. */
  lemma RateAtMostHundred(income: real, savings: real)
    requires income > 0.0 && savings <= income
    ensures SavingsRate(income, savings) <= 100.0
    ensures SavingsRate(income, savings) == 100.0 <==> savings == income
    ensures SavingsRate(income, savings) * income == savings * 100.0
  {
    var q := savings / income;
    assert q * income == savings;
    assert q <= 1.0;
  }

  /** One month's aggregate: income at least 0, expenses at most 0,
      savings their sum and so the sum of all amounts; a savings rate of 0
      without income, and otherwise `savings / income * 100`, at most 100,
      and 100 exactly when there are no expenses. */
  lemma SummaryFacts(entries: seq<Entry>)
    ensures var s := Summarize(entries);
      && s.income == Income(entries) >= 0.0
      && s.expenses == Expenses(entries) <= 0.0
      && s.savings == s.income + s.expenses == Total(entries)
      && (s.income == 0.0 ==> s.savingsRate == 0.0)
      && (s.income > 0.0 ==> s.savingsRate * s.income == s.savings * 100.0 && s.savingsRate <= 100.0)
      && (s.income > 0.0 ==> (s.savingsRate == 100.0 <==> s.expenses == 0.0))
  {
    var s := Summarize(entries);
    IncomePlusExpensesIsTotal(entries);
    if s.income > 0.0 {
      RateAtMostHundred(s.income, s.savings);
    }
  }

  /** With a positive income the rate is negative exactly when the expenses
      exceed the income, so the documented range of 0 to 100 fails for
      every such month. */
  lemma RateNegativeIffOverspent(entries: seq<Entry>)
    ensures var s := Summarize(entries);
      s.income > 0.0 ==> (s.savingsRate < 0.0 <==> -s.expenses > s.income)
  {
    var s := Summarize(entries);
    if s.income > 0.0 {
      var q := s.savings / s.income;
      assert q * s.income == s.savings;
      assert s.savingsRate == q * 100.0;
    }
  }

  /** Income 100 and an expense of -300 in one month: a savings rate of -200. */
  lemma OverspentExample()
    ensures var d := Date(2024, 5, 1);
      Summarize([Entry(d, "Pay", 100.0, "Income"), Entry(d, "Rent", -300.0, "Rent")]).savingsRate == -200.0
  {
    var d := Date(2024, 5, 1);
    var a, b := Entry(d, "Pay", 100.0, "Income"), Entry(d, "Rent", -300.0, "Rent");
    PairTotals(a, b);
    assert SavingsRate(100.0, -200.0) == -200.0;
  }

  /** The `categories` dict has a key for a label exactly when some
      non-positive entry carries it; positive entries add no key. */
  lemma {:induction false} CategoryKeysAreExpenseLabels(entries: seq<Entry>)
    ensures forall c :: c in CategoryMap(entries) <==>
      exists i :: 0 <= i < |entries| && entries[i].amount <= 0.0 && entries[i].category == c
  {
    if entries != [] {
      var n := |entries| - 1;
      var p := entries[..n];
      CategoryKeysAreExpenseLabels(p);
      forall c ensures c in ExpenseCategories(entries) <==>
        exists i :: 0 <= i < |entries| && entries[i].amount <= 0.0 && entries[i].category == c
      {
        if c in ExpenseCategories(p) {
          assert c in CategoryMap(p);
          var i :| 0 <= i < |p| && p[i].amount <= 0.0 && p[i].category == c;
          assert entries[i] == p[i];
        }
        if exists i :: 0 <= i < |entries| && entries[i].amount <= 0.0 && entries[i].category == c {
          var i :| 0 <= i < |entries| && entries[i].amount <= 0.0 && entries[i].category == c;
          if i < n {
            assert p[i] == entries[i];
            assert c in CategoryMap(p);
          }
        }
      }
    }
  }

  /** The category totals are magnitudes, and together they are the
      month's expenses with the sign flipped. */
  lemma {:induction false} CategoryTotalsSumToExpenses(entries: seq<Entry>)
    ensures forall c :: c in CategoryMap(entries) ==> CategoryMap(entries)[c] >= 0.0
    ensures MapSum(CategoryMap(entries)) == -Expenses(entries)
  {
    if entries != [] {
      var n := |entries| - 1;
      var e := entries[n];
      assert entries == entries[..n] + [e];
      CategoryTotalsSumToExpenses(entries[..n]);
      CategoryMapSnoc(entries[..n], e);
      SumsSnoc(entries[..n], e);
      var m := CategoryMap(entries[..n]);
      if e.amount <= 0.0 {
        MapSumUpdate(m, e.category, (if e.category in m then m[e.category] else 0.0) + Abs(e.amount));
      }
    } else {
      assert CategoryMap(entries).Keys == {};
    }
  }

  /** Each month's savings, by month. */
  function SavingsByMonth(summary: map<MonthKey, MonthSummary>): map<MonthKey, real>
  {
    map k | k in summary :: summary[k].savings
  }

  /** The running per-month totals of the amounts: each entry adds its
      amount to its own month. */
  function TotalsByMonth(entries: seq<Entry>): map<MonthKey, real>
  {
    if entries == [] then map[]
    else
      var m := TotalsByMonth(entries[..|entries| - 1]);
      var e := entries[|entries| - 1];
      var k := MonthOf(e.date);
      m[k := (if k in m then m[k] else 0.0) + e.amount]
  }

  /** The running totals hold, for each month of the entries, the sum of
      that month's amounts. */
  lemma {:induction false} TotalsByMonthAreMonthTotals(entries: seq<Entry>)
    ensures TotalsByMonth(entries).Keys == Months(entries)
    ensures forall j :: j in TotalsByMonth(entries) ==> TotalsByMonth(entries)[j] == Total(InMonth(entries, j))
  {
    if entries != [] {
      var n := |entries| - 1;
      var p := entries[..n];
      var e := entries[n];
      assert entries == p + [e];
      TotalsByMonthAreMonthTotals(p);
      MonthsSnoc(p, e);
      var k := MonthOf(e.date);
      var m := TotalsByMonth(p);
      forall j | j in TotalsByMonth(entries) ensures TotalsByMonth(entries)[j] == Total(InMonth(entries, j)) {
        if j == k {
          SumsSnoc(InMonth(p, j), e);
          if k !in m {
            MonthsHaveEntries(p, k);
          }
        } else {
          assert InMonth(entries, j) == InMonth(p, j) + [];
          assert InMonth(p, j) + [] == InMonth(p, j);
        }
      }
    }
  }

  /** The month totals add up to the sum of every amount. */
  lemma {:induction false} TotalsByMonthSum(entries: seq<Entry>)
    ensures MapSum(TotalsByMonth(entries)) == Total(entries)
  {
    if entries == [] {
      assert TotalsByMonth(entries).Keys == {};
    } else {
      var n := |entries| - 1;
      TotalsByMonthSum(entries[..n]);
      MapSumAdd(TotalsByMonth(entries[..n]), MonthOf(entries[n].date), entries[n].amount);
    }
  }

  /** Over all months, the savings add up to the sum of every amount. */
  lemma TotalSavingsIsTotalAmount(entries: seq<Entry>)
    ensures MapSum(SavingsByMonth(MonthlySummary(entries))) == Total(entries)
  {
    forall k | k in Months(entries) ensures Summarize(InMonth(entries, k)).savings == Total(InMonth(entries, k)) {
      SummaryFacts(InMonth(entries, k));
    }
    TotalsByMonthAreMonthTotals(entries);
    assert SavingsByMonth(MonthlySummary(entries)) == TotalsByMonth(entries);
    TotalsByMonthSum(entries);
  }

  /** The sums of two entries. */
  lemma PairTotals(a: Entry, b: Entry)
    ensures Income([a, b]) == (if a.amount > 0.0 then a.amount else 0.0) + (if b.amount > 0.0 then b.amount else 0.0)
    ensures Expenses([a, b]) == (if a.amount > 0.0 then 0.0 else a.amount) + (if b.amount > 0.0 then 0.0 else b.amount)
  {
    assert [a] == [] + [a] && [a, b] == [a] + [b];
    SumsSnoc([], a);
    SumsSnoc([a], b);
  }

  /** An income then an expense: only the expense's category. */
  lemma IncomeThenExpenseCategories(a: Entry, b: Entry)
    requires a.amount > 0.0 && b.amount <= 0.0
    ensures CategoryMap([a, b]) == map[b.category := -b.amount]
  {
    var m := CategoryMap([a]);
    assert m == map[] by {
      assert [a] == [] + [a];
      CategoryMapSnoc([], a);
      assert CategoryMap([]) == map[];
    }
    assert CategoryMap([a, b]) == m[b.category := -b.amount] by {
      assert [a, b] == [a] + [b];
      CategoryMapSnoc([a], b);
    }
  }

  /** Two expenses in different categories: one key each. */
  lemma TwoExpensesCategories(a: Entry, b: Entry)
    requires a.amount <= 0.0 && b.amount <= 0.0 && a.category != b.category
    ensures CategoryMap([a, b]) == map[a.category := -a.amount, b.category := -b.amount]
  {
    var m := CategoryMap([a]);
    assert m == map[a.category := -a.amount] by {
      assert [a] == [] + [a];
      CategoryMapSnoc([], a);
      assert CategoryMap([]) == map[];
    }
    assert CategoryMap([a, b]) == m[b.category := -b.amount] by {
      assert [a, b] == [a] + [b];
      CategoryMapSnoc([a], b);
    }
  }

  /** Income 1000 and an expense of -300 in one month: savings 700, a
      savings rate of 70, and 300 spent on the expense's category. */
  lemma WorkedExample()
    ensures var d := Date(2024, 3, 1);
      Summarize([Entry(d, "Salary", 1000.0, "Income"), Entry(d, "Groceries", -300.0, "Food")])
      == MonthSummary(1000.0, -300.0, 700.0, 70.0, map["Food" := 300.0])
  {
    var d := Date(2024, 3, 1);
    var a, b := Entry(d, "Salary", 1000.0, "Income"), Entry(d, "Groceries", -300.0, "Food");
    PairTotals(a, b);
    IncomeThenExpenseCategories(a, b);
    assert SavingsRate(1000.0, 700.0) == 70.0;
  }

  /** A month without income has savings rate 0, and a zero amount still
      adds its category with total 0. */
  lemma NoIncomeExample()
    ensures var d := Date(2023, 7, 9);
      Summarize([Entry(d, "Bus", -2.5, "Transport"), Entry(d, "Refund", 0.0, "Other")])
      == MonthSummary(0.0, -2.5, -2.5, 0.0, map["Transport" := 2.5, "Other" := 0.0])
  {
    var d := Date(2023, 7, 9);
    var a, b := Entry(d, "Bus", -2.5, "Transport"), Entry(d, "Refund", 0.0, "Other");
    PairTotals(a, b);
    TwoExpensesCategories(a, b);
    assert SavingsRate(0.0, -2.5) == 0.0;
  }

  /** A single entry: an income entry is all savings at rate 100 with no
      categories; an expense entry is all spending on its one category. */
  lemma SummarizeSingle(e: Entry)
    ensures Summarize([e]) == if e.amount > 0.0
      then MonthSummary(e.amount, 0.0, e.amount, 100.0, map[])
      else MonthSummary(0.0, e.amount, e.amount, 0.0, map[e.category := -e.amount])
  {
    assert [e] == [] + [e];
    SumsSnoc([], e);
    CategoryMapSnoc([], e);
    assert CategoryMap([]) == map[];
    if e.amount > 0.0 {
      RateAtMostHundred(e.amount, e.amount);
    }
  }

  /** Two entries from different months fall into one month each. */
  lemma TwoMonthsGrouping(a: Entry, b: Entry)
    requires MonthOf(a.date) != MonthOf(b.date)
    ensures Months([a, b]) == {MonthOf(a.date), MonthOf(b.date)}
    ensures InMonth([a, b], MonthOf(a.date)) == [a] && InMonth([a, b], MonthOf(b.date)) == [b]
  {
    var ka, kb := MonthOf(a.date), MonthOf(b.date);
    assert [a, b][..1] == [a] && [a][..0] == [];
    assert Months([a]) == {ka};
    assert InMonth([a], ka) == [a] && InMonth([a], kb) == [];
  }

  /** Entries from two months give two keys, each summarising its own month. */
  lemma TwoMonthsExample()
    ensures var a := Entry(Date(2024, 1, 31), "Pay", 500.0, "Income");
      var b := Entry(Date(2024, 2, 1), "Cafe", -5.0, "Food");
      MonthlySummary([a, b]) == map[
        MonthKey(2024, 1) := MonthSummary(500.0, 0.0, 500.0, 100.0, map[]),
        MonthKey(2024, 2) := MonthSummary(0.0, -5.0, -5.0, 0.0, map["Food" := 5.0])]
  {
    var a := Entry(Date(2024, 1, 31), "Pay", 500.0, "Income");
    var b := Entry(Date(2024, 2, 1), "Cafe", -5.0, "Food");
    var ka, kb := MonthKey(2024, 1), MonthKey(2024, 2);
    var sa, sb := MonthSummary(500.0, 0.0, 500.0, 100.0, map[]), MonthSummary(0.0, -5.0, -5.0, 0.0, map["Food" := 5.0]);
    var m := MonthlySummary([a, b]);
    TwoMonthsGrouping(a, b);
    assert m.Keys == {ka, kb};
    assert m[ka] == sa by {
      SummarizeSingle(a);
    }
    assert m[kb] == sb by {
      SummarizeSingle(b);
    }
  }
}
