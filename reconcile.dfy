/** The loop of `main` that turns the downloaded catalog into the output list: every catalog
    record whose model code and category pass the eligibility rules is kept, in catalog order,
    with an `owned` flag added; every other record is dropped. */
module Reconcile {
  import opened Text
  import opened Umlauts
  import opened Similarity
  import opened Ownership

  /** A JSON value of a catalog record as the script reads it. Strings and booleans are
      rendered by `str()` as Python does; any other JSON value (number, list, null) is carried
      with its `str()` rendering. */
  datatype Value = Str(s: string) | Bool(b: bool) | Other(rendered: string)

  /** A catalog record: a JSON object from field name to value. */
  type Item = map<string, Value>

  /** `str(v)`. */
  function Render(v: Value): string {
    match v
    case Str(s) => s
    case Bool(b) => if b then "True" else "False"
    case Other(r) => r
  }

  /** `str(item.get(key, ''))`: a missing field reads as the empty string. */
  function Field(item: Item, key: string): string {
    if key in item then Render(item[key]) else ""
  }

  /** The character class `[0-9-]`. */
  predicate IsModelChar(c: char) {
    '0' <= c <= '9' || c == '-'
  }

  /** The rules on the stripped model code: `re.fullmatch(r'[0-9-]+', model)`; without a dash
      it starts with "1"; with a dash it starts with none of "09", "10", "99". */
  predicate ModelEligible(model: string) {
    && model != []
    && (forall i :: 0 <= i < |model| ==> IsModelChar(model[i]))
    && ('-' !in model ==> StartsWith(model, "1"))
    && ('-' in model ==> !(StartsWith(model, "09") || StartsWith(model, "10") || StartsWith(model, "99")))
  }

  /** A record survives the filter: its stripped model code passes the model rules and its
      stripped category is not exactly "creative-tonie". */
  predicate Eligible(model: string, category: string) {
    ModelEligible(Strip(model)) && Strip(category) != "creative-tonie"
  }

  predicate ItemEligible(item: Item) {
    Eligible(Field(item, "model"), Field(item, "category"))
  }

  /** The flag `main` stores: `is_item_owned` on the stripped, umlaut-replaced series and
      episodes and the stripped language. */
  predicate ItemOwned(item: Item, nfcPaths: seq<string>, threshold: int, ratio: Scorer) {
    Owned(ReplaceUmlauts(Strip(Field(item, "series"))), ReplaceUmlauts(Strip(Field(item, "episodes"))),
          Strip(Field(item, "language")), nfcPaths, threshold, ratio)
  }

  /** `item['owned'] = owned`: the flag is set, every other field keeps its value. */
  function WithOwned(item: Item, owned: bool): (r: Item)
    ensures "owned" in r && r["owned"] == Bool(owned)
    ensures forall k :: k != "owned" ==> (k in r <==> k in item)
    ensures forall k :: k != "owned" && k in item ==> r[k] == item[k]
  {
    item["owned" := Bool(owned)]
  }

  /** The entries of s that `keep` accepts, in their order, each passed through `mark`. */
  function FilterMap<T, U>(s: seq<T>, keep: T -> bool, mark: T -> U): (r: seq<U>)
    ensures |r| <= |s|
    decreases |s|
  {
    if s == [] then []
    else
      var before := FilterMap(s[..|s| - 1], keep, mark);
      if keep(s[|s| - 1]) then before + [mark(s[|s| - 1])] else before
  }

  /** The positions of s whose entries `keep` accepts: increasing, and all of them. */
  function Positions<T>(s: seq<T>, keep: T -> bool): (idx: seq<nat>)
    ensures forall j :: 0 <= j < |idx| ==> idx[j] < |s| && keep(s[idx[j]])
    ensures forall j, k :: 0 <= j < k < |idx| ==> idx[j] < idx[k]
    ensures forall i :: 0 <= i < |s| && keep(s[i]) ==> i in idx
    decreases |s|
  {
    if s == [] then []
    else
      var n := |s| - 1;
      var init := s[..n];
      var before := Positions(init, keep);
      assert forall i :: 0 <= i < n ==> init[i] == s[i];
      if keep(s[n]) then before + [n] else before
  }

  /** FilterMap keeps exactly the accepted entries, in order: its j-th result comes from the
      j-th accepted position. */
  lemma {:induction false} FilterMapAt<T, U>(s: seq<T>, keep: T -> bool, mark: T -> U)
    ensures |FilterMap(s, keep, mark)| == |Positions(s, keep)|
    ensures forall j :: 0 <= j < |Positions(s, keep)| ==> FilterMap(s, keep, mark)[j] == mark(s[Positions(s, keep)[j]])
    decreases |s|
  {
    if s != [] {
      var n := |s| - 1;
      var init := s[..n];
      FilterMapAt(init, keep, mark);
      var r, idx := FilterMap(s, keep, mark), Positions(s, keep);
      var r', idx' := FilterMap(init, keep, mark), Positions(init, keep);
      if keep(s[n]) {
        assert r == r' + [mark(s[n])] && idx == idx' + [n];
      } else {
        assert r == r' && idx == idx';
      }
      forall j | 0 <= j < |idx'|
        ensures r[j] == mark(s[idx[j]])
      {
        assert r[j] == r'[j] && idx[j] == idx'[j] && s[idx'[j]] == init[idx'[j]];
      }
    }
  }

  /** FilterMap works piecewise, so the order of the input is the order of the output. */
  lemma {:induction false} FilterMapAppend<T, U>(a: seq<T>, b: seq<T>, keep: T -> bool, mark: T -> U)
    ensures FilterMap(a + b, keep, mark) == FilterMap(a, keep, mark) + FilterMap(b, keep, mark)
    decreases |b|
  {
    if b == [] {
      assert a + b == a;
    } else {
      var n := |b| - 1;
      assert (a + b)[..|a + b| - 1] == a + b[..n];
      FilterMapAppend(a, b[..n], keep, mark);
    }
  }

  /** The output list for a catalog: the eligible records, in order, each with its flag. */
  function Reconciled(catalog: seq<Item>, nfcPaths: seq<string>, threshold: int, ratio: Scorer): seq<Item> {
    FilterMap(catalog, ItemEligible, (item: Item) => WithOwned(item, ItemOwned(item, nfcPaths, threshold, ratio)))
  }

  /** `main`'s loop: each eligible record gets its flag from `is_item_owned` and is appended. */
  method FilterAndAnnotate(tonies: seq<Item>, nfcPaths: seq<string>, threshold: int, ratio: Scorer)
    returns (filteredItems: seq<Item>)
    ensures filteredItems == Reconciled(tonies, nfcPaths, threshold, ratio)
  {
    filteredItems := [];
    var i := 0;
    while i < |tonies|
      invariant 0 <= i <= |tonies|
      invariant filteredItems == Reconciled(tonies[..i], nfcPaths, threshold, ratio)
    {
      var item := tonies[i];
      ReconciledStep(tonies, i, nfcPaths, threshold, ratio);
      i := i + 1;
      if !Eligible(Field(item, "model"), Field(item, "category")) {
        assert !ItemEligible(item);
        assert filteredItems == Reconciled(tonies[..i], nfcPaths, threshold, ratio);
        continue;
      }
      var series := ReplaceUmlauts(Strip(Field(item, "series")));
      var episodes := ReplaceUmlauts(Strip(Field(item, "episodes")));
      var language := Strip(Field(item, "language"));
      var owned := IsItemOwned(series, episodes, language, nfcPaths, threshold, ratio);
      assert owned == ItemOwned(item, nfcPaths, threshold, ratio);
      assert ItemEligible(item);
      filteredItems := filteredItems + [WithOwned(item, owned)];
      assert filteredItems == Reconciled(tonies[..i], nfcPaths, threshold, ratio);
    }
    assert tonies[..i] == tonies;
  }

  /** One more catalog record adds its flagged copy to the output when it is eligible, and
      nothing otherwise. */
  lemma ReconciledStep(catalog: seq<Item>, i: nat, nfcPaths: seq<string>, threshold: int, ratio: Scorer)
    requires i < |catalog|
    ensures Reconciled(catalog[..i + 1], nfcPaths, threshold, ratio)
         == Reconciled(catalog[..i], nfcPaths, threshold, ratio)
            + (if ItemEligible(catalog[i]) then [WithOwned(catalog[i], ItemOwned(catalog[i], nfcPaths, threshold, ratio))] else [])
  {
    assert catalog[..i + 1][..i] == catalog[..i];
  }

  /** The output holds exactly the eligible records, in catalog order: its j-th entry is the
      record at the j-th eligible position, with the flag `is_item_owned` gives it and every
      other field as it was; so it is never longer than the catalog. */
  lemma ReconciledIsEligibleInOrder(catalog: seq<Item>, nfcPaths: seq<string>, threshold: int, ratio: Scorer)
    ensures |Reconciled(catalog, nfcPaths, threshold, ratio)| == |Positions(catalog, ItemEligible)| <= |catalog|
    ensures forall j :: 0 <= j < |Positions(catalog, ItemEligible)| ==>
              var item := catalog[Positions(catalog, ItemEligible)[j]];
              Reconciled(catalog, nfcPaths, threshold, ratio)[j] == WithOwned(item, ItemOwned(item, nfcPaths, threshold, ratio))
  {
    FilterMapAt(catalog, ItemEligible, (item: Item) => WithOwned(item, ItemOwned(item, nfcPaths, threshold, ratio)));
  }

  /** Catalog order is kept piecewise: the output for two catalogs one after the other is the
      two outputs one after the other. */
  lemma ReconciledAppend(a: seq<Item>, b: seq<Item>, nfcPaths: seq<string>, threshold: int, ratio: Scorer)
    ensures Reconciled(a + b, nfcPaths, threshold, ratio)
         == Reconciled(a, nfcPaths, threshold, ratio) + Reconciled(b, nfcPaths, threshold, ratio)
  {
    FilterMapAppend(a, b, ItemEligible, (item: Item) => WithOwned(item, ItemOwned(item, nfcPaths, threshold, ratio)));
  }

  /** Whitespace around the model code or the category does not change eligibility. */
  lemma EligibleIgnoresPadding(ws: string, model: string, ws': string, category: string)
    requires AllSpace(ws) && AllSpace(ws')
    ensures Eligible(ws + model + ws', category) == Eligible(model, category)
    ensures Eligible(model, ws + category + ws') == Eligible(model, category)
  {
    StripPadded(ws, model, ws');
    StripPadded(ws, category, ws');
  }

  /** A "creative-tonie" record is dropped whatever its model code, with or without padding. */
  lemma CreativeTonieExcluded(model: string, ws: string, ws': string)
    requires AllSpace(ws) && AllSpace(ws')
    ensures !Eligible(model, ws + "creative-tonie" + ws')
  {
    StripPadded(ws, "creative-tonie", ws');
    StripUnpadded("creative-tonie");
  }

  /** An empty (or missing) category is kept: only "creative-tonie" is excluded. */
  lemma EmptyCategoryKept(model: string, item: Item)
    requires "category" !in item && Field(item, "model") == model
    ensures Eligible(model, "") == ModelEligible(Strip(model))
    ensures ItemEligible(item) == ModelEligible(Strip(model))
  {
    assert Strip("") == "";
  }

  /** The model rules on sample codes: "123" and "20-5" are kept; "234", "09-1", "abc" and ""
      are dropped; and "-" alone, a code of dashes only, is kept. */
  lemma ModelRuleExamples()
    ensures ModelEligible("123") && ModelEligible("20-5") && ModelEligible("-")
    ensures !ModelEligible("234") && !ModelEligible("09-1") && !ModelEligible("abc") && !ModelEligible("")
  {
    assert "20-5"[2] == '-' && "20-5"[..2][0] == '2';
    assert "09-1"[2] == '-';
    assert "abc"[0] == 'a';
    assert "234"[..1][0] == '2';
  }
}
