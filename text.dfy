/** The pieces of Python's `str` type that the reconciliation script relies on:
    `strip()`, `lower()`, `startswith()` and `split()` with a one-character separator.
    Case folding and whitespace are restricted to the Latin-1 range. */
module Text {

  /** Whitespace as `str.strip()` and `str.isspace()` see it, within Latin-1. */
  predicate IsSpace(c: char) {
    ('\t' <= c <= '\r') || ('\U{1C}' <= c <= ' ') || c == '\U{85}' || c == '\U{A0}'
  }

  predicate AllSpace(s: string) {
    forall i :: 0 <= i < |s| ==> IsSpace(s[i])
  }

  /** Removes the leading whitespace (what it means: TrimLeftSpec). */
  function TrimLeft(s: string): string
    decreases |s|
  {
    if s != [] && IsSpace(s[0]) then TrimLeft(s[1..]) else s
  }

  /** Removes the trailing whitespace (what it means: TrimRightSpec). */
  function TrimRight(s: string): string
    decreases |s|
  {
    if s != [] && IsSpace(s[|s| - 1]) then TrimRight(s[..|s| - 1]) else s
  }

  /** `str.strip()` (what it means: StripSpec). */
  function Strip(s: string): string {
    TrimRight(TrimLeft(s))
  }

  /** TrimLeft keeps a suffix, drops only whitespace, and what it keeps does not start with
      whitespace. */
  lemma {:induction false} TrimLeftSpec(s: string)
    ensures |TrimLeft(s)| <= |s| && TrimLeft(s) == s[|s| - |TrimLeft(s)|..]
    ensures AllSpace(s[..|s| - |TrimLeft(s)|])
    ensures TrimLeft(s) == [] || !IsSpace(TrimLeft(s)[0])
    decreases |s|
  {
    if s != [] && IsSpace(s[0]) {
      TrimLeftSpec(s[1..]);
      var k := |s| - |TrimLeft(s)|;
      assert forall i :: 1 <= i < k ==> s[..k][i] == s[1..][..k - 1][i - 1];
    }
  }

  /** TrimRight keeps a prefix, drops only whitespace, and what it keeps does not end with
      whitespace. */
  lemma {:induction false} TrimRightSpec(s: string)
    ensures |TrimRight(s)| <= |s| && TrimRight(s) == s[..|TrimRight(s)|]
    ensures AllSpace(s[|TrimRight(s)|..])
    ensures TrimRight(s) == [] || !IsSpace(TrimRight(s)[|TrimRight(s)| - 1])
    decreases |s|
  {
    if s != [] && IsSpace(s[|s| - 1]) {
      TrimRightSpec(s[..|s| - 1]);
      var k := |TrimRight(s)|;
      assert forall j :: 0 <= j < |s| - 1 - k ==> s[k..][j] == s[..|s| - 1][k..][j];
    }
  }

  /** `strip()` returns a piece of its input with neither end whitespace, and cuts away only
      whitespace. */
  lemma StripSpec(s: string)
    ensures |Strip(s)| <= |s|
    ensures Strip(s) == [] || (!IsSpace(Strip(s)[0]) && !IsSpace(Strip(s)[|Strip(s)| - 1]))
    ensures exists i :: (0 <= i <= |s| - |Strip(s)| && Strip(s) == s[i..i + |Strip(s)|]
                         && AllSpace(s[..i]) && AllSpace(s[i + |Strip(s)|..]))
  {
    var t := TrimLeft(s);
    var r := TrimRight(t);
    TrimLeftSpec(s);
    TrimRightSpec(t);
    var i := |s| - |t|;
    assert t == s[i..];
    assert r == t[..|r|];
    assert r == s[i..i + |r|];
    assert s[i + |r|..] == t[|r|..];
    assert r != [] ==> r[0] == t[0];
    assert AllSpace(s[..i]) && AllSpace(s[i + |r|..]);
  }

  lemma {:induction false} TrimLeftPadded(ws: string, t: string)
    requires AllSpace(ws)
    ensures TrimLeft(ws + t) == TrimLeft(t)
    decreases |ws|
  {
    if ws == [] {
      assert ws + t == t;
    } else {
      assert (ws + t)[0] == ws[0] && IsSpace(ws[0]);
      assert (ws + t)[1..] == ws[1..] + t;
      TrimLeftPadded(ws[1..], t);
    }
  }

  lemma {:induction false} TrimRightPadded(t: string, ws: string)
    requires AllSpace(ws)
    ensures TrimRight(t + ws) == TrimRight(t)
    decreases |ws|
  {
    if ws == [] {
      assert t + ws == t;
    } else {
      var n := |ws| - 1;
      assert (t + ws)[|t + ws| - 1] == ws[n] && IsSpace(ws[n]);
      assert (t + ws)[..|t + ws| - 1] == t + ws[..n];
      TrimRightPadded(t, ws[..n]);
    }
  }

  lemma {:induction false} TrimLeftKeepsTail(s: string, ws: string)
    requires AllSpace(ws) && !AllSpace(s)
    ensures TrimLeft(s + ws) == TrimLeft(s) + ws
    decreases |s|
  {
    assert s != [];
    if IsSpace(s[0]) {
      assert (s + ws)[1..] == s[1..] + ws;
      TrimLeftKeepsTail(s[1..], ws);
    }
  }

  /** Surrounding whitespace never changes what `strip()` returns. */
  lemma StripPadded(ws: string, s: string, ws': string)
    requires AllSpace(ws) && AllSpace(ws')
    ensures Strip(ws + s + ws') == Strip(s)
  {
    assert ws + s + ws' == ws + (s + ws');
    TrimLeftPadded(ws, s + ws');
    if AllSpace(s) {
      TrimLeftPadded(s + ws', []);
      assert s + ws' + [] == s + ws';
      TrimLeftPadded(s, []);
      assert s + [] == s;
    } else {
      TrimLeftKeepsTail(s, ws');
      TrimRightPadded(TrimLeft(s), ws');
    }
  }

  /** A string that neither starts nor ends with whitespace is its own strip. */
  lemma StripUnpadded(s: string)
    requires s != [] && !IsSpace(s[0]) && !IsSpace(s[|s| - 1])
    ensures Strip(s) == s
  {
  }

  /** The capitals `str.lower()` changes within Latin-1: A-Z and U+00C0-U+00DE except the
      multiplication sign U+00D7. */
  predicate IsUpper(c: char) {
    'A' <= c <= 'Z' || ('\U{C0}' <= c <= '\U{DE}' && c != '\U{D7}')
  }

  /** `str.lower()` on one character: a capital moves 0x20 down to its small letter. */
  function LowerChar(c: char): char {
    if IsUpper(c) then (c as int + 32) as char else c
  }

  /** `str.lower()`: no capital is left, every other character stays in its place, and each
      capital becomes the small letter 0x20 above it. */
  function Lower(s: string): (r: string)
    ensures |r| == |s|
    ensures forall i :: 0 <= i < |r| ==> !IsUpper(r[i])
    ensures forall i :: 0 <= i < |s| && !IsUpper(s[i]) ==> r[i] == s[i]
    ensures forall i :: 0 <= i < |s| && IsUpper(s[i]) ==> r[i] as int == s[i] as int + 32
  {
    seq(|s|, i requires 0 <= i < |s| => LowerChar(s[i]))
  }

  lemma LowerAppend(a: string, b: string)
    ensures Lower(a + b) == Lower(a) + Lower(b)
  {
    assert forall i :: 0 <= i < |a + b| ==> Lower(a + b)[i] == (Lower(a) + Lower(b))[i];
  }

  /** Lowering twice is lowering once. */
  lemma LowerIdempotent(s: string)
    ensures Lower(Lower(s)) == Lower(s)
  {
    assert forall i :: 0 <= i < |s| ==> Lower(Lower(s))[i] == Lower(s)[i];
  }

  /** `str.startswith(prefix)`. */
  predicate StartsWith(s: string, prefix: string) {
    |prefix| <= |s| && s[..|prefix|] == prefix
  }

  /** A prefix without the separator c cannot reach past a c: it is a prefix of the whole
      exactly when it is a prefix of what stands before the c. */
  lemma StartsWithBeforeSeparator(a: string, c: char, b: string, prefix: string)
    requires c !in prefix
    ensures StartsWith(a + [c] + b, prefix) <==> StartsWith(a, prefix)
  {
    var s := a + [c] + b;
    if |a| < |prefix| <= |s| {
      assert prefix[|a|] != c;
      assert s[..|prefix|][|a|] == c;
    }
    if |prefix| <= |a| {
      assert s[..|prefix|] == a[..|prefix|];
    }
  }

  /** `str.split(sep)` with a one-character separator: always at least one part, no part holds
      the separator, and joining the parts back gives the input (lemma JoinSplit). */
  function Split(s: string, sep: char): (parts: seq<string>)
    ensures |parts| >= 1
    ensures forall i :: 0 <= i < |parts| ==> sep !in parts[i]
    decreases |s|
  {
    if s == [] then [[]]
    else
      var rest := Split(s[1..], sep);
      if s[0] == sep then [[]] + rest
      else [[s[0]] + rest[0]] + rest[1..]
  }

  /** `sep.join(parts)`. */
  function Join(parts: seq<string>, sep: char): string
    requires |parts| >= 1
    decreases |parts|
  {
    if |parts| == 1 then parts[0] else parts[0] + [sep] + Join(parts[1..], sep)
  }

  /** A join of three or more parts starts with its first three parts joined. */
  lemma JoinFirstThree(parts: seq<string>, sep: char)
    requires |parts| >= 3
    ensures StartsWith(Join(parts, sep), parts[0] + [sep] + parts[1] + [sep] + parts[2])
  {
    var head := parts[0] + [sep] + parts[1] + [sep] + parts[2];
    var j := Join(parts, sep);
    var rest := Join(parts[1..][1..], sep);
    assert parts[1..][0] == parts[1] && parts[1..][1..][0] == parts[2];
    assert Join(parts[1..], sep) == parts[1] + [sep] + rest;
    assert j == parts[0] + [sep] + (parts[1] + [sep] + rest);
    if |parts| == 3 {
      assert rest == parts[2];
    } else {
      assert parts[1..][1..][1..] == parts[3..];
      assert rest == parts[2] + [sep] + Join(parts[3..], sep);
    }
    assert j == head + j[|head|..];
    assert j[..|head|] == head;
  }

  lemma {:induction false} JoinSplit(s: string, sep: char)
    ensures Join(Split(s, sep), sep) == s
    decreases |s|
  {
    if s != [] {
      var rest := Split(s[1..], sep);
      JoinSplit(s[1..], sep);
      if s[0] == sep {
        assert ([[]] + rest)[1..] == rest;
      } else if |rest| > 1 {
        assert ([[s[0]] + rest[0]] + rest[1..])[1..] == rest[1..];
      }
    }
  }

  /** Splitting at a separator splits the two sides independently. */
  lemma {:induction false} SplitAppend(a: string, sep: char, b: string)
    ensures Split(a + [sep] + b, sep) == Split(a, sep) + Split(b, sep)
    decreases |a|
  {
    var s := a + [sep] + b;
    if a == [] {
      assert s[1..] == b;
    } else {
      assert s[1..] == a[1..] + [sep] + b;
      SplitAppend(a[1..], sep, b);
    }
  }

  lemma {:induction false} SplitWithoutSeparator(s: string, sep: char)
    requires sep !in s
    ensures Split(s, sep) == [s]
    decreases |s|
  {
    if s != [] {
      SplitWithoutSeparator(s[1..], sep);
      assert [s[0]] + s[1..] == s;
    }
  }

  /** Splitting undoes joining parts that do not hold the separator. */
  lemma {:induction false} SplitJoin(parts: seq<string>, sep: char)
    requires |parts| >= 1
    requires forall i :: 0 <= i < |parts| ==> sep !in parts[i]
    ensures Split(Join(parts, sep), sep) == parts
    decreases |parts|
  {
    if |parts| == 1 {
      SplitWithoutSeparator(parts[0], sep);
    } else {
      SplitJoin(parts[1..], sep);
      SplitAppend(parts[0], sep, Join(parts[1..], sep));
      SplitWithoutSeparator(parts[0], sep);
    }
  }
}
