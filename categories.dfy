/** src/categories.py: the ordered keyword table and the first-match
    categoriser. */
module Categories {
  import opened Wrappers
  import opened Text
  import opened Utils

  /** The keyword table in its declared order (Python dicts keep insertion
      order, and the categoriser tries the categories in that order). */
  const CATEGORIES: seq<(string, seq<string>)> := [
    ("Food", ["starbucks", "restaurant", "cafe", "whole foods", "mcdonalds", "chipotle", "grocery", "bakery"]),
    ("Transport", ["uber", "lyft", "bus", "train", "gas", "petrol", "parking", "bridge toll"]),
    ("Rent", ["rent", "mortgage", "housing"]),
    ("Subscriptions", ["netflix", "spotify", "hulu", "disney", "prime", "apple music", "gym"]),
    ("Utilities", ["electric", "water", "gas bill", "internet", "phone", "verizon", "att"]),
    ("Shopping", ["amazon", "target", "walmart", "best buy", "clothing", "electronics"])
  ]

  /** Every label the categoriser can return. */
  const LABELS: set<string> := {"Food", "Transport", "Rent", "Subscriptions", "Utilities", "Shopping", "Income", "Other"}

  /** Some keyword of the list occurs in the text. */
  ghost predicate MatchesCategory(keywords: seq<string>, text: string)
  {
    exists k :: 0 <= k < |keywords| && IsSubstring(keywords[k], text)
  }

  /** `any(kw in text for kw in keywords)`, scanning the keywords in order. */
  function AnyKeywordIn(keywords: seq<string>, text: string): (b: bool)
    ensures b <==> MatchesCategory(keywords, text)
  {
    if keywords == [] then false
    else
      OccursIff(keywords[0], text);
      assert forall k :: 1 <= k < |keywords| ==> keywords[k] == keywords[1..][k - 1];
      Occurs(keywords[0], text) || AnyKeywordIn(keywords[1..], text)
  }

  /** The position of the first category in `table` with a keyword in `text`:
      that category matches and no earlier one does; `None` when none matches. */
  function FirstMatch(table: seq<(string, seq<string>)>, text: string): (r: Option<nat>)
    ensures r.Some? ==> r.value < |table| && MatchesCategory(table[r.value].1, text)
    ensures r.Some? ==> forall j :: 0 <= j < r.value ==> !MatchesCategory(table[j].1, text)
    ensures r.None? <==> forall j :: 0 <= j < |table| ==> !MatchesCategory(table[j].1, text)
  {
    if table == [] then None
    else if AnyKeywordIn(table[0].1, text) then Some(0)
    else
      assert forall j :: 1 <= j < |table| ==> table[j] == table[1..][j - 1];
      match FirstMatch(table[1..], text)
      case Some(i) => Some(i + 1)
      case None => None
  }

  /** `categorize_transaction(description, amount)`. The module that should
      hold `normalize_text` does not define it, so the normaliser is a
      parameter here. */
  function Categorize(normalize: string -> string, description: string, amount: real): (c: string)
    ensures c in LABELS
    ensures amount > 0.0 ==> c == "Income"
    ensures amount <= 0.0 ==> c != "Income"
    ensures amount <= 0.0 ==>
      (c == "Other" <==> forall j :: 0 <= j < |CATEGORIES| ==> !MatchesCategory(CATEGORIES[j].1, normalize(description)))
    ensures amount <= 0.0 && c != "Other" ==>
      exists i :: 0 <= i < |CATEGORIES| && CATEGORIES[i].0 == c
        && MatchesCategory(CATEGORIES[i].1, normalize(description))
        && forall j :: 0 <= j < i ==> !MatchesCategory(CATEGORIES[j].1, normalize(description))
  {
    if amount > 0.0 then "Income"
    else
      match FirstMatch(CATEGORIES, normalize(description))
      case Some(i) => CATEGORIES[i].0
      case None => "Other"
  }

  /** The description matters only through its normalised form. */
  lemma CategorizeSeesOnlyNormalized(normalize: string -> string, d1: string, d2: string, amount: real)
    requires normalize(d1) == normalize(d2)
    ensures Categorize(normalize, d1, amount) == Categorize(normalize, d2, amount)
  {
  }

  /** A description containing "gas" is never Utilities: Transport (position 1)
      matches first, unless a Food keyword (position 0) does. */
  lemma GasIsNeverUtilities(normalize: string -> string, description: string, amount: real)
    requires IsSubstring("gas", normalize(description))
    ensures Categorize(normalize, description, amount) != "Utilities"
    ensures amount <= 0.0 ==> Categorize(normalize, description, amount) in {"Food", "Transport"}
    ensures amount <= 0.0 && !MatchesCategory(CATEGORIES[0].1, normalize(description))
      ==> Categorize(normalize, description, amount) == "Transport"
  {
    var n := normalize(description);
    assert CATEGORIES[1].1[4] == "gas";
    assert MatchesCategory(CATEGORIES[1].1, n);
    var r := FirstMatch(CATEGORIES, n);
    assert r.Some? && r.value <= 1;
  }

  /** The Utilities keyword "gas bill" can never decide a category: every text
      containing it contains "gas", which Transport tries earlier. */
  lemma GasBillIsShadowed(normalize: string -> string, description: string, amount: real)
    requires IsSubstring("gas bill", normalize(description))
    ensures Categorize(normalize, description, amount) != "Utilities"
  {
    PrefixOccursToo("gas", "gas bill", normalize(description));
    GasIsNeverUtilities(normalize, description, amount);
  }

  /** No keyword of a category occurs when each keyword has a character
      (at the given position) outside the set of characters of the text. */
  lemma NoKeywordOccurs(keywords: seq<string>, text: string, chars: set<char>, witnesses: seq<nat>)
    requires forall k :: 0 <= k < |text| ==> text[k] in chars
    requires |witnesses| == |keywords|
    requires forall k :: 0 <= k < |keywords| ==> witnesses[k] < |keywords[k]| && keywords[k][witnesses[k]] !in chars
    ensures !MatchesCategory(keywords, text)
  {
    forall k | 0 <= k < |keywords| ensures !IsSubstring(keywords[k], text) {
      MissingCharNotSubstring(keywords[k], text, witnesses[k]);
    }
  }

  /** "Monthly gas bill payment" for -60.00 is Transport, not Utilities. */
  lemma GasBillExample(normalize: string -> string)
    requires normalize("Monthly gas bill payment") == "monthly gas bill payment"
    ensures Categorize(normalize, "Monthly gas bill payment", -60.0) == "Transport"
  {
    var n := "monthly gas bill payment";
    var chars := {'m', 'o', 'n', 't', 'h', 'l', 'y', ' ', 'g', 'a', 's', 'b', 'i', 'p', 'e'};
    NoKeywordOccurs(CATEGORIES[0].1, n, chars, [3, 0, 0, 0, 1, 0, 1, 2]);
    assert OccursAt("gas", n, 8);
    GasIsNeverUtilities(normalize, "Monthly gas bill payment", -60.0);
  }

  /** The characters of "xyz mystery corp". */
  lemma MysteryChars()
    ensures forall k :: 0 <= k < |"xyz mystery corp"| ==>
      "xyz mystery corp"[k] in {'x', 'y', 'z', ' ', 'm', 's', 't', 'e', 'r', 'c', 'o', 'p'}
  {
  }

  lemma MysteryIsNotFoodOrTransport()
    ensures !MatchesCategory(CATEGORIES[0].1, "xyz mystery corp") && !MatchesCategory(CATEGORIES[1].1, "xyz mystery corp")
  {
    var chars := {'x', 'y', 'z', ' ', 'm', 's', 't', 'e', 'r', 'c', 'o', 'p'};
    MysteryChars();
    NoKeywordOccurs(CATEGORIES[0].1, "xyz mystery corp", chars, [2, 4, 1, 0, 2, 1, 0, 0]);
    NoKeywordOccurs(CATEGORIES[1].1, "xyz mystery corp", chars, [0, 0, 0, 2, 0, 5, 1, 0]);
  }

  lemma MysteryIsNotRentOrSubscriptions()
    ensures !MatchesCategory(CATEGORIES[2].1, "xyz mystery corp") && !MatchesCategory(CATEGORIES[3].1, "xyz mystery corp")
  {
    var chars := {'x', 'y', 'z', ' ', 'm', 's', 't', 'e', 'r', 'c', 'o', 'p'};
    MysteryChars();
    NoKeywordOccurs(CATEGORIES[2].1, "xyz mystery corp", chars, [2, 4, 0]);
    NoKeywordOccurs(CATEGORIES[3].1, "xyz mystery corp", chars, [0, 4, 0, 0, 2, 0, 0]);
  }

  lemma MysteryIsNotUtilitiesOrShopping()
    ensures !MatchesCategory(CATEGORIES[4].1, "xyz mystery corp") && !MatchesCategory(CATEGORIES[5].1, "xyz mystery corp")
  {
    var chars := {'x', 'y', 'z', ' ', 'm', 's', 't', 'e', 'r', 'c', 'o', 'p'};
    MysteryChars();
    NoKeywordOccurs(CATEGORIES[4].1, "xyz mystery corp", chars, [1, 0, 0, 0, 1, 0, 0]);
    NoKeywordOccurs(CATEGORIES[5].1, "xyz mystery corp", chars, [0, 1, 0, 0, 1, 1]);
  }

  /** "XYZ Mystery Corp" for -10.00 matches no keyword and is Other. */
  lemma UnmatchedExample(normalize: string -> string)
    requires normalize("XYZ Mystery Corp") == "xyz mystery corp"
    ensures Categorize(normalize, "XYZ Mystery Corp", -10.0) == "Other"
  {
    MysteryIsNotFoodOrTransport();
    MysteryIsNotRentOrSubscriptions();
    MysteryIsNotUtilitiesOrShopping();
  }

  lemma GasBillLowered()
    ensures Lower("Monthly gas bill payment") == "monthly gas bill payment"
  {
  }

  lemma MysteryLowered()
    ensures Lower("XYZ Mystery Corp") == "xyz mystery corp"
  {
  }

  /** "Monthly gas bill payment" for -60.00 under `NormalizeText` is Transport. */
  lemma NormalizedGasBillExample()
    ensures Categorize(NormalizeText, "Monthly gas bill payment", -60.0) == "Transport"
  {
    var n := "monthly gas bill payment";
    GasBillLowered();
    assert forall k :: 0 <= k < |n| ==> Kept(n[k]);
    NormalizeIsLowerWhenAllKept("Monthly gas bill payment");
    GasBillExample(NormalizeText);
  }

  /** "XYZ Mystery Corp" for -10.00 under `NormalizeText` is Other. */
  lemma NormalizedUnmatchedExample()
    ensures Categorize(NormalizeText, "XYZ Mystery Corp", -10.0) == "Other"
  {
    var n := "xyz mystery corp";
    MysteryLowered();
    assert forall k :: 0 <= k < |n| ==> Kept(n[k]);
    NormalizeIsLowerWhenAllKept("XYZ Mystery Corp");
    UnmatchedExample(NormalizeText);
  }
}
