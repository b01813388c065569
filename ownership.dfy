/** `is_item_owned`: whether some local NFC file path matches a catalog item. The item's locale
    code is resolved to a language folder, a search key "{folder}\{series}\{episodes}.nfc" is
    built, and every path that starts with the folder name and has at least three
    backslash-separated segments is scored against it; the item is owned as soon as one score
    reaches the threshold. */
module Ownership {
  import opened Text
  import opened Similarity

  const Backslash: char := '\\'

  /** `lang_mapping`: locale code to language folder name. */
  const LangMapping: map<string, string> :=
    map["de-de" := "german", "fr-fr" := "french", "en-gb" := "english", "en-us" := "english"]

  /** The folder name for a locale code: the code is lowered and stripped, then looked up;
      a code not in the table gives "". */
  function LanguageName(code: string): (name: string)
    ensures name == "" || name == "german" || name == "french" || name == "english"
    ensures name != "" <==> Strip(Lower(code)) in LangMapping
  {
    var key := Strip(Lower(code));
    if key in LangMapping then LangMapping[key] else ""
  }

  /** Folder names are already lower case and hold no backslash. */
  lemma LanguageNameLowered(code: string)
    ensures Lower(LanguageName(code)) == LanguageName(code)
    ensures Backslash !in LanguageName(code)
  {
    var name := LanguageName(code);
    assert forall i :: 0 <= i < |name| ==> LowerChar(name[i]) == name[i];
  }

  /** The search term, lowered and stripped as the source does. */
  function SearchKey(languageName: string, series: string, episodes: string): string {
    Strip(Lower(RawSearchKey(languageName, series, episodes)))
  }

  function RawSearchKey(languageName: string, series: string, episodes: string): string {
    languageName + [Backslash] + series + [Backslash] + episodes + ".nfc"
  }

  /** The lowered path cut at its backslashes. */
  function Segments(path: string): seq<string> {
    Split(Lower(path), Backslash)
  }

  /** The path term: the first three lowered segments, joined by backslashes again. It is
      the lowered path cut before its third backslash, and it splits back into exactly those
      three segments. */
  function CandidateKey(path: string): (key: string)
    requires |Segments(path)| >= 3
    ensures Split(key, Backslash) == Segments(path)[..3]
    ensures StartsWith(Lower(path), key)
  {
    var parts := Segments(path);
    var first3 := parts[..3];
    var key := parts[0] + [Backslash] + parts[1] + [Backslash] + parts[2];
    assert Join(first3, Backslash) == key by {
      assert Join(first3[1..][1..], Backslash) == parts[2];
      assert Join(first3[1..], Backslash) == parts[1] + [Backslash] + parts[2];
    }
    SplitJoin(first3, Backslash);
    JoinSplit(Lower(path), Backslash);
    JoinFirstThree(parts, Backslash);
    key
  }

  /** The `filter` at the head of the loop: the lowered path starts with the folder name. */
  predicate PassesLanguageFilter(path: string, languageName: string) {
    StartsWith(Lower(path), languageName)
  }

  /** One path decides ownership: it passes the filter, has at least three segments, and its
      path term scores at least the threshold (inclusive) against the search key. */
  predicate IsMatch(searchKey: string, languageName: string, path: string, threshold: int, ratio: Scorer) {
    PassesLanguageFilter(path, languageName)
    && |Segments(path)| >= 3
    && ratio(searchKey, CandidateKey(path)) >= threshold
  }

  /** Some path of the list is a match. */
  predicate AnyMatch(searchKey: string, languageName: string, nfcPaths: seq<string>, threshold: int, ratio: Scorer) {
    exists i :: 0 <= i < |nfcPaths| && IsMatch(searchKey, languageName, nfcPaths[i], threshold, ratio)
  }

  /** What `is_item_owned` answers for an item. */
  predicate Owned(series: string, episodes: string, language: string, nfcPaths: seq<string>, threshold: int, ratio: Scorer) {
    AnyMatch(SearchKey(LanguageName(language), series, episodes), LanguageName(language), nfcPaths, threshold, ratio)
  }

  /** `is_item_owned`: scans the paths in order and returns true at the first match. */
  method IsItemOwned(series: string, episodes: string, language: string, nfcPaths: seq<string>, threshold: int, ratio: Scorer)
    returns (owned: bool)
    ensures owned == Owned(series, episodes, language, nfcPaths, threshold, ratio)
  {
    var languageName := LanguageName(language);
    var searchTerm := SearchKey(languageName, series, episodes);
    var i := 0;
    while i < |nfcPaths|
      invariant 0 <= i <= |nfcPaths|
      invariant forall k :: 0 <= k < i ==> !IsMatch(searchTerm, languageName, nfcPaths[k], threshold, ratio)
    {
      var path := nfcPaths[i];
      i := i + 1;
      if !StartsWith(Lower(path), languageName) {
        assert !IsMatch(searchTerm, languageName, path, threshold, ratio);
        continue;
      }
      var pathParts := Split(Lower(path), Backslash);
      if |pathParts| < 3 {
        assert !IsMatch(searchTerm, languageName, path, threshold, ratio);
        continue;
      }
      var pathTerm := pathParts[0] + [Backslash] + pathParts[1] + [Backslash] + pathParts[2];
      assert pathTerm == CandidateKey(path);
      var score := ratio(searchTerm, pathTerm);
      if score >= threshold {
        assert IsMatch(searchTerm, languageName, nfcPaths[i - 1], threshold, ratio);
        return true;
      }
      assert !IsMatch(searchTerm, languageName, path, threshold, ratio);
    }
    assert !AnyMatch(searchTerm, languageName, nfcPaths, threshold, ratio);
    return false;
  }

  /** The locale code is read regardless of case and of surrounding whitespace. */
  lemma LanguageNameNormalizes(ws: string, code: string, ws': string)
    requires AllSpace(ws) && AllSpace(ws')
    ensures LanguageName(ws + code + ws') == LanguageName(code)
    ensures LanguageName(Lower(code)) == LanguageName(code)
  {
    LowerAppend(ws + code, ws');
    LowerAppend(ws, code);
    assert AllSpace(Lower(ws)) && AllSpace(Lower(ws'));
    StripPadded(Lower(ws), Lower(code), Lower(ws'));
    LowerIdempotent(code);
  }

  /** A code already in the table's form resolves to its own entry. */
  lemma LanguageNameOfKey(code: string)
    requires code in LangMapping
    ensures LanguageName(code) == LangMapping[code]
  {
    assert forall i :: 0 <= i < |code| ==> !IsUpper(code[i]);
    assert Lower(code) == code;
    assert code[0] != ' ' && code[|code| - 1] != ' ';
    StripUnpadded(code);
  }

  /** The table itself: "de-de" gives "german", "fr-fr" gives "french", and both "en-gb" and
      "en-us" give "english". */
  lemma LanguageNameTable()
    ensures LanguageName("de-de") == "german" && LanguageName("fr-fr") == "french"
    ensures LanguageName("en-gb") == "english" && LanguageName("en-us") == "english"
  {
    LanguageNameOfKey("de-de");
    LanguageNameOfKey("fr-fr");
    LanguageNameOfKey("en-gb");
    LanguageNameOfKey("en-us");
  }

  /** " DE-DE ", the code in capitals with a blank on each side, resolves to "german". The
      pieces are parameters fixed by the precondition: stating the whole code as one literal
      makes the solver compare literal strings character by character, which is far costlier
      than the proof itself. */
  lemma LanguageNameExampleGerman(ws: string, code: string, ws': string)
    requires ws == " " && ws' == " " && code == "DE-DE"
    ensures LanguageName(ws + code + ws') == "german"
  {
    LanguageNameNormalizes(ws, code, ws');
    var low := Lower(code);
    assert low == "de-de" by {
      assert low[0] == 'd' && low[1] == 'e' && low[2] == '-' && low[3] == 'd' && low[4] == 'e';
    }
    LanguageNameOfKey(low);
  }

  /** A code outside the table, such as "xx-xx", resolves to "". */
  lemma LanguageNameExampleUnknown(unknown: string)
    requires unknown == "xx-xx"
    ensures LanguageName(unknown) == ""
  {
    assert forall i :: 0 <= i < |unknown| ==> LowerChar(unknown[i]) == unknown[i];
    assert Lower(unknown) == unknown;
    StripUnpadded(unknown);
    assert unknown[0] == 'x';
  }

  /** The search key needs no stripping: it starts with a folder letter or a backslash and
      ends in ".nfc". */
  lemma SearchKeyIsLowered(code: string, series: string, episodes: string)
    ensures SearchKey(LanguageName(code), series, episodes) == Lower(RawSearchKey(LanguageName(code), series, episodes))
  {
    var name := LanguageName(code);
    var raw := RawSearchKey(name, series, episodes);
    var low := Lower(raw);
    assert raw[|raw| - 1] == 'c';
    assert raw[0] == if name == "" then Backslash else name[0];
    assert low[0] == LowerChar(raw[0]) && low[|low| - 1] == LowerChar(raw[|raw| - 1]);
    StripUnpadded(low);
  }

  /** A path without a backslash, as a POSIX directory walk produces, never matches. */
  lemma PathWithoutBackslashNeverMatches(searchKey: string, languageName: string, path: string, threshold: int, ratio: Scorer)
    requires Backslash !in path
    ensures !IsMatch(searchKey, languageName, path, threshold, ratio)
  {
    assert forall i :: 0 <= i < |path| ==> Lower(path)[i] != Backslash;
    SplitWithoutSeparator(Lower(path), Backslash);
  }

  /** A path of exactly three segments is compared as a whole, lowered. */
  lemma ThreeSegmentKeyIsPath(path: string)
    requires |Segments(path)| == 3
    ensures CandidateKey(path) == Lower(path)
  {
    var key := CandidateKey(path);
    assert Segments(path)[..3] == Segments(path);
    JoinSplit(Lower(path), Backslash);
    JoinSplit(key, Backslash);
  }

  /** Segments after the third do not enter the comparison: appending more of them to a
      path never changes whether it matches. */
  lemma ExtraSegmentsIgnored(searchKey: string, languageName: string, path: string, tail: string, threshold: int, ratio: Scorer)
    requires |Segments(path)| >= 3 && Backslash !in languageName
    ensures |Segments(path + [Backslash] + tail)| >= 3
    ensures CandidateKey(path + [Backslash] + tail) == CandidateKey(path)
    ensures IsMatch(searchKey, languageName, path + [Backslash] + tail, threshold, ratio)
        == IsMatch(searchKey, languageName, path, threshold, ratio)
  {
    var longer := path + [Backslash] + tail;
    LowerAppend(path + [Backslash], tail);
    LowerAppend(path, [Backslash]);
    assert Lower([Backslash]) == [Backslash];
    assert Lower(longer) == Lower(path) + [Backslash] + Lower(tail);
    SplitAppend(Lower(path), Backslash, Lower(tail));
    assert Segments(longer)[..3] == Segments(path)[..3];
    StartsWithBeforeSeparator(Lower(path), Backslash, Lower(tail), languageName);
  }

  /** With an unresolved locale code the folder filter lets every path through, so any path
      of three segments anywhere in the library can make the item owned. */
  lemma UnknownLanguageMatchesEveryFolder(series: string, episodes: string, language: string, nfcPaths: seq<string>, threshold: int, ratio: Scorer)
    requires Strip(Lower(language)) !in LangMapping
    ensures Owned(series, episodes, language, nfcPaths, threshold, ratio)
        <==> exists i :: 0 <= i < |nfcPaths| && |Segments(nfcPaths[i])| >= 3
                         && ratio(SearchKey("", series, episodes), CandidateKey(nfcPaths[i])) >= threshold
  {
    assert LanguageName(language) == "";
    assert forall p :: PassesLanguageFilter(p, "");
  }

  /** Only which paths are present matters, not their order or repetition. */
  lemma AnyMatchIgnoresOrder(searchKey: string, languageName: string, ps: seq<string>, qs: seq<string>, threshold: int, ratio: Scorer)
    requires forall p :: p in ps ==> p in qs
    ensures AnyMatch(searchKey, languageName, ps, threshold, ratio) ==> AnyMatch(searchKey, languageName, qs, threshold, ratio)
  {
    if AnyMatch(searchKey, languageName, ps, threshold, ratio) {
      var i :| 0 <= i < |ps| && IsMatch(searchKey, languageName, ps[i], threshold, ratio);
      assert ps[i] in qs;
      var j :| 0 <= j < |qs| && qs[j] == ps[i];
    }
  }

  /** The answer depends on the set of paths only, not on their order or repetition. */
  lemma OwnedIgnoresOrder(series: string, episodes: string, language: string, ps: seq<string>, qs: seq<string>, threshold: int, ratio: Scorer)
    requires forall p :: p in ps <==> p in qs
    ensures Owned(series, episodes, language, ps, threshold, ratio) == Owned(series, episodes, language, qs, threshold, ratio)
  {
    var name := LanguageName(language);
    var key := SearchKey(name, series, episodes);
    AnyMatchIgnoresOrder(key, name, ps, qs, threshold, ratio);
    AnyMatchIgnoresOrder(key, name, qs, ps, threshold, ratio);
  }

  /** A permutation of the paths gives the same answer. */
  lemma OwnedIgnoresPermutation(series: string, episodes: string, language: string, ps: seq<string>, qs: seq<string>, threshold: int, ratio: Scorer)
    requires multiset(ps) == multiset(qs)
    ensures Owned(series, episodes, language, ps, threshold, ratio) == Owned(series, episodes, language, qs, threshold, ratio)
  {
    assert forall p :: p in ps <==> p in multiset(ps);
    assert forall p :: p in qs <==> p in multiset(qs);
    OwnedIgnoresOrder(series, episodes, language, ps, qs, threshold, ratio);
  }

  /** A path that is not a match can be taken out of the list without changing the answer. */
  lemma AnyMatchSkips(searchKey: string, languageName: string, ps: seq<string>, p: string, qs: seq<string>, threshold: int, ratio: Scorer)
    requires !IsMatch(searchKey, languageName, p, threshold, ratio)
    ensures AnyMatch(searchKey, languageName, ps + [p] + qs, threshold, ratio) == AnyMatch(searchKey, languageName, ps + qs, threshold, ratio)
  {
    var all, rest := ps + [p] + qs, ps + qs;
    if AnyMatch(searchKey, languageName, all, threshold, ratio) {
      var i :| 0 <= i < |all| && IsMatch(searchKey, languageName, all[i], threshold, ratio);
      if i < |ps| {
        assert rest[i] == all[i];
      } else {
        assert all[i] != p;
        assert rest[i - 1] == all[i];
      }
    }
    if AnyMatch(searchKey, languageName, rest, threshold, ratio) {
      var i :| 0 <= i < |rest| && IsMatch(searchKey, languageName, rest[i], threshold, ratio);
      if i < |ps| {
        assert all[i] == rest[i];
      } else {
        assert all[i + 1] == rest[i];
      }
    }
  }

  /** A path the filter drops, or one with fewer than three segments, can be removed from the
      list without changing the answer. */
  lemma FilteredPathIrrelevant(series: string, episodes: string, language: string, ps: seq<string>, p: string, qs: seq<string>, threshold: int, ratio: Scorer)
    requires !PassesLanguageFilter(p, LanguageName(language)) || |Segments(p)| < 3
    ensures Owned(series, episodes, language, ps + [p] + qs, threshold, ratio) == Owned(series, episodes, language, ps + qs, threshold, ratio)
  {
    var name := LanguageName(language);
    AnyMatchSkips(SearchKey(name, series, episodes), name, ps, p, qs, threshold, ratio);
  }

  /** Lowering the threshold never turns an owned item into one not owned. */
  lemma OwnedThresholdMonotone(series: string, episodes: string, language: string, nfcPaths: seq<string>, lower: int, higher: int, ratio: Scorer)
    requires lower <= higher
    ensures Owned(series, episodes, language, nfcPaths, higher, ratio) ==> Owned(series, episodes, language, nfcPaths, lower, ratio)
  {
  }

  /** The comparison is inclusive: a path scoring exactly the threshold makes the item owned. */
  lemma ScoreAtThresholdOwns(series: string, episodes: string, language: string, nfcPaths: seq<string>, i: nat, ratio: Scorer)
    requires i < |nfcPaths|
    requires PassesLanguageFilter(nfcPaths[i], LanguageName(language)) && |Segments(nfcPaths[i])| >= 3
    ensures Owned(series, episodes, language, nfcPaths, ratio(SearchKey(LanguageName(language), series, episodes), CandidateKey(nfcPaths[i])), ratio)
  {
  }

  /** An empty library owns nothing. */
  lemma NoPathsNotOwned(series: string, episodes: string, language: string, threshold: int, ratio: Scorer)
    ensures !Owned(series, episodes, language, [], threshold, ratio)
  {
  }

  /** Lowering the raw search key lowers its series and file name and keeps the rest. */
  lemma LowerRawSearchKey(language: string, series: string, episodes: string)
    ensures Lower(RawSearchKey(LanguageName(language), series, episodes))
         == LanguageName(language) + [Backslash] + Lower(series) + [Backslash] + Lower(episodes + ".nfc")
  {
    var name := LanguageName(language);
    var file := episodes + ".nfc";
    LanguageNameLowered(language);
    assert RawSearchKey(name, series, episodes) == name + [Backslash] + series + [Backslash] + file;
    LowerAppend(name + [Backslash] + series + [Backslash], file);
    LowerAppend(name + [Backslash] + series, [Backslash]);
    LowerAppend(name + [Backslash], series);
    LowerAppend(name, [Backslash]);
    assert Lower([Backslash]) == [Backslash];
  }

  /** The search key for a resolved folder name splits into its three lowered parts. */
  lemma SearchKeySegments(language: string, series: string, episodes: string)
    requires Backslash !in series && Backslash !in episodes
    ensures Split(Lower(RawSearchKey(LanguageName(language), series, episodes)), Backslash)
         == [LanguageName(language), Lower(series), Lower(episodes + ".nfc")]
  {
    var name := LanguageName(language);
    var file := episodes + ".nfc";
    var parts := [name, Lower(series), Lower(file)];
    LanguageNameLowered(language);
    LowerRawSearchKey(language, series, episodes);
    assert Join(parts, Backslash) == name + [Backslash] + Lower(series) + [Backslash] + Lower(file) by {
      assert parts[1..][1..] == [Lower(file)];
      assert Join(parts[1..], Backslash) == Lower(series) + [Backslash] + Lower(file);
    }
    assert forall c :: c in Lower(series) ==> c != Backslash;
    assert forall c :: c in Lower(file) ==> c != Backslash;
    SplitJoin(parts, Backslash);
  }

  /** With the indel ratio, for a series and episodes without backslashes, a file stored at
      exactly "{folder}\{series}\{episodes}.nfc", in any case, makes the item owned at every
      threshold up to 100, whether the locale code is in the table or not. */
  lemma ExactPathOwned(series: string, episodes: string, language: string, path: string, threshold: int)
    requires threshold <= 100
    requires Backslash !in series && Backslash !in episodes
    requires Lower(path) == Lower(RawSearchKey(LanguageName(language), series, episodes))
    ensures Owned(series, episodes, language, [path], threshold, IndelRatio)
  {
    var name := LanguageName(language);
    SearchKeySegments(language, series, episodes);
    assert |Segments(path)| == 3;
    ThreeSegmentKeyIsPath(path);
    SearchKeyIsLowered(language, series, episodes);
    assert StartsWith(Lower(path), name) by {
      assert Lower(path) == Join(Segments(path), Backslash) by {
        JoinSplit(Lower(path), Backslash);
      }
      assert Segments(path)[0] == name;
    }
    IndelRatioSelf(Lower(path));
    assert IsMatch(SearchKey(name, series, episodes), name, [path][0], threshold, IndelRatio);
  }
}
