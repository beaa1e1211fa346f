/** The stages composed: the loader's records, each labelled by the
    categoriser, then summarised by month. The loader itself attaches no
    label (src/analyzer.py) while the aggregator reads one (src/stats.py),
    so the labelling step sits between them. */
module Pipeline {
  import opened Wrappers
  import opened Analyzer
  import opened Categories
  import opened Stats

  /** A loaded record with the label `categorize_transaction` gives it. */
  function Labelled(normalize: string -> string, t: Transaction): (e: Entry)
    ensures e.date == t.date && e.description == t.description && e.amount == t.amount
    ensures e.category == Categorize(normalize, t.description, t.amount)
  {
    Entry(t.date, t.description, t.amount, Categorize(normalize, t.description, t.amount))
  }

  function LabelAll(normalize: string -> string, ts: seq<Transaction>): (es: seq<Entry>)
    ensures |es| == |ts| && forall i :: 0 <= i < |ts| ==> es[i] == Labelled(normalize, ts[i])
  {
    seq(|ts|, i requires 0 <= i < |ts| => Labelled(normalize, ts[i]))
  }

  /** Load, label, summarise; the loader's error passes through. */
  function Analyze(normalize: string -> string, header: Option<seq<string>>, rows: seq<map<string, string>>)
    : Result<map<MonthKey, MonthSummary>, LoadError>
  {
    match Load(header, rows)
    case Failure(err) => Failure(err)
    case Success(loaded) => Success(MonthlySummary(LabelAll(normalize, loaded.transactions)))
  }

  /** The stages run one after the other. */
  method RunAnalysis(normalize: string -> string, header: Option<seq<string>>, rows: seq<map<string, string>>)
    returns (result: Result<map<MonthKey, MonthSummary>, LoadError>)
    ensures result == Analyze(normalize, header, rows)
  {
    var loaded := LoadTransactions(header, rows);
    if loaded.Failure? {
      return Failure(loaded.error);
    }
    var entries := LabelAll(normalize, loaded.value.transactions);
    var summary := GetMonthlySummary(entries);
    return Success(summary);
  }

  /** The sum of the records' amounts. */
  function AmountSum(ts: seq<Transaction>): real
  {
    if ts == [] then 0.0 else AmountSum(ts[..|ts| - 1]) + ts[|ts| - 1].amount
  }

  /** Labelling keeps every record's date, description and amount, in
      order, and therefore their total. */
  lemma {:induction false} LabellingKeepsAmounts(normalize: string -> string, ts: seq<Transaction>)
    ensures |LabelAll(normalize, ts)| == |ts|
    ensures forall i :: 0 <= i < |ts| ==> var e := LabelAll(normalize, ts)[i];
      e.date == ts[i].date && e.description == ts[i].description && e.amount == ts[i].amount
    ensures Total(LabelAll(normalize, ts)) == AmountSum(ts)
  {
    if ts != [] {
      var n := |ts| - 1;
      LabellingKeepsAmounts(normalize, ts[..n]);
      assert LabelAll(normalize, ts)[..n] == LabelAll(normalize, ts[..n]);
    }
  }

  /** Every labelled entry with a positive amount is Income and every other
      one carries a label of the table or Other. */
  lemma LabelsOfEntries(normalize: string -> string, ts: seq<Transaction>)
    ensures forall e :: e in LabelAll(normalize, ts) ==>
      e.category in LABELS && (e.category == "Income" <==> e.amount > 0.0)
  {
  }

  /** When every entry is labelled with a label of the categoriser, Income
      exactly when its amount is positive, every month's categories are
      such labels other than Income. */
  lemma SummaryCategoriesAreExpenseLabels(es: seq<Entry>)
    requires forall e :: e in es ==> e.category in LABELS && (e.category == "Income" <==> e.amount > 0.0)
    ensures forall k, c :: k in MonthlySummary(es) && c in MonthlySummary(es)[k].categories ==> c in LABELS && c != "Income"
  {
    forall k, c | k in MonthlySummary(es) && c in MonthlySummary(es)[k].categories ensures c in LABELS && c != "Income" {
      var month := InMonth(es, k);
      CategoryKeysAreExpenseLabels(month);
      var i :| 0 <= i < |month| && month[i].amount <= 0.0 && month[i].category == c;
      InMonthMembers(es, k);
      assert month[i] in es;
    }
  }

  /** Every month's categories are labels the categoriser can return, never
      Income: only non-positive amounts reach the category totals. */
  lemma CategoryKeysAreExpenseLabelsOnly(normalize: string -> string, header: Option<seq<string>>, rows: seq<map<string, string>>)
    requires Analyze(normalize, header, rows).Success?
    ensures var summary := Analyze(normalize, header, rows).value;
      forall k, c :: k in summary && c in summary[k].categories ==> c in LABELS && c != "Income"
  {
    var ts := Load(header, rows).value.transactions;
    LabelsOfEntries(normalize, ts);
    SummaryCategoriesAreExpenseLabels(LabelAll(normalize, ts));
  }

  /** Over all months, the savings add up to the sum of every loaded amount. */
  lemma SavingsAddUpToLoadedAmounts(normalize: string -> string, header: Option<seq<string>>, rows: seq<map<string, string>>)
    requires Analyze(normalize, header, rows).Success?
    ensures MapSum(SavingsByMonth(Analyze(normalize, header, rows).value)) == AmountSum(Load(header, rows).value.transactions)
  {
    var ts := Load(header, rows).value.transactions;
    TotalSavingsIsTotalAmount(LabelAll(normalize, ts));
    LabellingKeepsAmounts(normalize, ts);
  }
}
