/** `replace_umlauts`: the German umlauts and the sharp s are spelled out in ASCII by one
    global `str.replace` per entry of a four-entry table, applied in the table's order. */
module Umlauts {

  /** The replacement table, in the order its entries are applied. */
  const UmlautMap: seq<(char, string)> := [('ä', "ae"), ('ö', "oe"), ('ü', "ue"), ('ß', "ss")]

  /** The characters the table replaces (the lower-case umlauts and the sharp s only). */
  predicate IsUmlaut(c: char) {
    c == 'ä' || c == 'ö' || c == 'ü' || c == 'ß'
  }

  /** `str.replace(target, replacement)` for a one-character target: every occurrence is
      replaced, left to right, and the replacement text is not scanned again. */
  function Replace(s: string, target: char, replacement: string): (r: string)
    ensures target !in replacement ==> target !in r
    ensures target !in s ==> r == s
    decreases |s|
  {
    if s == [] then []
    else (if s[0] == target then replacement else [s[0]]) + Replace(s[1..], target, replacement)
  }

  /** The loop over the table: `text` is reassigned once per entry. */
  function ReplaceEach(text: string, table: seq<(char, string)>): string
    decreases |table|
  {
    if table == [] then text else ReplaceEach(Replace(text, table[0].0, table[0].1), table[1..])
  }

  /** `replace_umlauts`: the same as replacing every character in one pass (Transliterate),
      so no umlaut is left and the text grows by one character per umlaut replaced. */
  function ReplaceUmlauts(text: string): (r: string)
    ensures r == Transliterate(text)
    ensures forall c :: c in r ==> !IsUmlaut(c)
    ensures |r| == |text| + CountUmlauts(text)
  {
    ReplaceEachIsTransliterate(text);
    ReplaceEach(text, UmlautMap)
  }

  /** What one character becomes: its replacement when it is an umlaut, itself otherwise. */
  function TransliterateChar(c: char): string {
    if c == 'ä' then "ae"
    else if c == 'ö' then "oe"
    else if c == 'ü' then "ue"
    else if c == 'ß' then "ss"
    else [c]
  }

  /** Single-pass reference definition: each character is replaced independently, in order. */
  function Transliterate(s: string): (r: string)
    ensures forall c :: c in r ==> !IsUmlaut(c)
    ensures |r| == |s| + CountUmlauts(s)
    decreases |s|
  {
    if s == [] then [] else TransliterateChar(s[0]) + Transliterate(s[1..])
  }

  function CountUmlauts(s: string): nat
    decreases |s|
  {
    if s == [] then 0 else (if IsUmlaut(s[0]) then 1 else 0) + CountUmlauts(s[1..])
  }

  lemma {:induction false} ReplaceAppend(a: string, b: string, target: char, replacement: string)
    ensures Replace(a + b, target, replacement) == Replace(a, target, replacement) + Replace(b, target, replacement)
    decreases |a|
  {
    if a == [] {
      assert a + b == b;
    } else {
      assert (a + b)[0] == a[0];
      assert (a + b)[1..] == a[1..] + b;
      ReplaceAppend(a[1..], b, target, replacement);
    }
  }

  lemma {:induction false} ReplaceEachAppend(a: string, b: string, table: seq<(char, string)>)
    ensures ReplaceEach(a + b, table) == ReplaceEach(a, table) + ReplaceEach(b, table)
    decreases |table|
  {
    if table != [] {
      ReplaceAppend(a, b, table[0].0, table[0].1);
      ReplaceEachAppend(Replace(a, table[0].0, table[0].1), Replace(b, table[0].0, table[0].1), table[1..]);
    }
  }

  /** Applying the four replacements one after the other equals the single-pass definition:
      no replacement text holds a character that a later entry replaces. */
  lemma {:induction false} ReplaceEachIsTransliterate(s: string)
    ensures ReplaceEach(s, UmlautMap) == Transliterate(s)
    decreases |s|
  {
    if s != [] {
      var c := s[0];
      assert s == [c] + s[1..];
      ReplaceEachAppend([c], s[1..], UmlautMap);
      ReplaceEachIsTransliterate(s[1..]);
      ReplaceEachOneChar(c);
    }
  }

  lemma ReplaceOneChar(c: char, target: char, replacement: string)
    ensures Replace([c], target, replacement) == if c == target then replacement else [c]
  {
    assert [c][1..] == [];
  }

  /** One character goes through the four replacements to its single-pass image. */
  lemma ReplaceEachOneChar(c: char)
    ensures ReplaceEach([c], UmlautMap) == TransliterateChar(c)
  {
    var s1 := Replace([c], 'ä', "ae");
    var s2 := Replace(s1, 'ö', "oe");
    var s3 := Replace(s2, 'ü', "ue");
    var s4 := Replace(s3, 'ß', "ss");
    assert ReplaceEach([c], UmlautMap) == s4 by {
      assert UmlautMap[0] == ('ä', "ae");
      assert UmlautMap[1..][0] == ('ö', "oe");
      assert UmlautMap[1..][1..][0] == ('ü', "ue");
      assert UmlautMap[1..][1..][1..][0] == ('ß', "ss");
      assert UmlautMap[1..][1..][1..][1..] == [];
    }
    ReplaceOneChar(c, 'ä', "ae");
    if c != 'ä' {
      ReplaceOneChar(c, 'ö', "oe");
      if c != 'ö' {
        ReplaceOneChar(c, 'ü', "ue");
        if c != 'ü' {
          ReplaceOneChar(c, 'ß', "ss");
        }
      }
    }
  }

  /** Characters that are not replaced are kept, in order: uppercase umlauts included. */
  lemma {:induction false} TransliterateKeepsOthers(s: string)
    requires forall i :: 0 <= i < |s| ==> !IsUmlaut(s[i])
    ensures Transliterate(s) == s
    decreases |s|
  {
    if s != [] {
      TransliterateKeepsOthers(s[1..]);
      assert [s[0]] + s[1..] == s;
    }
  }

  /** The replacement works piecewise: the text around each replaced character is untouched. */
  lemma {:induction false} TransliterateAppend(a: string, b: string)
    ensures Transliterate(a + b) == Transliterate(a) + Transliterate(b)
    decreases |a|
  {
    if a == [] {
      assert a + b == b;
    } else {
      assert (a + b)[0] == a[0];
      assert (a + b)[1..] == a[1..] + b;
      TransliterateAppend(a[1..], b);
    }
  }

  /** `replace_umlauts` is idempotent. */
  lemma ReplaceUmlautsIdempotent(s: string)
    ensures ReplaceUmlauts(ReplaceUmlauts(s)) == ReplaceUmlauts(s)
  {
    var r := ReplaceUmlauts(s);
    assert forall i :: 0 <= i < |r| ==> r[i] in r;
    TransliterateKeepsOthers(r);
  }

  /** A text without lower-case umlauts, such as "ÄÖÜ", comes back unchanged. */
  lemma ReplaceUmlautsKeepsOthers(s: string)
    requires forall i :: 0 <= i < |s| ==> !IsUmlaut(s[i])
    ensures ReplaceUmlauts(s) == s
  {
    TransliterateKeepsOthers(s);
  }

  /** "Blümchen", written as its three pieces, becomes "Bl" + "ue" + "mchen". The pieces are
      parameters fixed by the precondition because comparing whole literal strings costs the
      solver far more than the proof does. */
  lemma ReplaceUmlautsExample(bl: string, u: string, mchen: string)
    requires bl == "Bl" && u == "ü" && mchen == "mchen"
    ensures ReplaceUmlauts(bl + u + mchen) == bl + "ue" + mchen
  {
    TransliterateAppend(bl + u, mchen);
    TransliterateAppend(bl, u);
    TransliterateKeepsOthers(bl);
    TransliterateKeepsOthers(mchen);
    assert Transliterate(u) == "ue" by {
      assert u[1..] == [];
    }
  }
}
