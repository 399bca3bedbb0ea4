/**
 * The handful of Python string operations the scripts rely on:
 * `str.strip()`, `str.split(sep)`, `str.split()` and `int(str)`.
 * Strings are sequences of Unicode code points.
 */
module Text {
  import opened Wrappers
  import opened Seqs

  /** `str.isspace()` for one code point: the characters Python's `strip()` and `split()` treat as whitespace. */
  predicate IsSpace(c: char) {
    || ('\t' <= c <= '\r')
    || ('\U{1C}' <= c <= ' ')
    || c == '\U{85}' || c == '\U{A0}' || c == '\U{1680}'
    || ('\U{2000}' <= c <= '\U{200A}')
    || c == '\U{2028}' || c == '\U{2029}' || c == '\U{202F}' || c == '\U{205F}' || c == '\U{3000}'
  }

  predicate AllSpace(s: string) {
    forall i :: 0 <= i < |s| ==> IsSpace(s[i])
  }

  predicate NoSpace(s: string) {
    forall i :: 0 <= i < |s| ==> !IsSpace(s[i])
  }

  // ---------------------------------------------------------------------------
  // str.strip()
  // ---------------------------------------------------------------------------

  /** Drops leading whitespace; what is dropped is all whitespace and what is kept starts with a non-space. */
  function TrimStart(s: string): (r: string)
    ensures |r| <= |s| && r == s[|s| - |r|..]
    ensures AllSpace(s[..|s| - |r|])
    ensures |r| > 0 ==> !IsSpace(r[0])
  {
    if |s| > 0 && IsSpace(s[0]) then TrimStart(s[1..]) else s
  }

  /** Drops trailing whitespace; what is dropped is all whitespace and what is kept ends with a non-space. */
  function TrimEnd(s: string): (r: string)
    ensures |r| <= |s| && r == s[..|r|]
    ensures AllSpace(s[|r|..])
    ensures |r| > 0 ==> !IsSpace(r[|r| - 1])
  {
    if |s| > 0 && IsSpace(s[|s| - 1]) then TrimEnd(s[..|s| - 1]) else s
  }

  /** Python's `s.strip()`. */
  function Strip(s: string): (r: string)
    ensures |r| > 0 ==> !IsSpace(r[0]) && !IsSpace(r[|r| - 1])
    ensures |r| <= |s|
  {
    TrimEnd(TrimStart(s))
  }

  lemma {:induction false} TrimStartPadded(a: string, x: string)
    requires AllSpace(a)
    ensures TrimStart(a + x) == TrimStart(x)
    decreases |a|
  {
    if |a| > 0 {
      assert (a + x)[1..] == a[1..] + x;
      TrimStartPadded(a[1..], x);
    } else {
      assert a + x == x;
    }
  }

  lemma {:induction false} TrimEndPadded(x: string, b: string)
    requires AllSpace(b)
    ensures TrimEnd(x + b) == TrimEnd(x)
    decreases |b|
  {
    if |b| > 0 {
      var b' := b[..|b| - 1];
      assert (x + b)[..|x + b| - 1] == x + b';
      TrimEndPadded(x, b');
    } else {
      assert x + b == x;
    }
  }

  /** Once `s` holds a non-space, trailing material survives `TrimStart` untouched. */
  lemma {:induction false} TrimStartKeepsTail(s: string, b: string)
    requires !AllSpace(s)
    ensures TrimStart(s + b) == TrimStart(s) + b
    decreases |s|
  {
    if IsSpace(s[0]) {
      assert (s + b)[1..] == s[1..] + b;
      TrimStartKeepsTail(s[1..], b);
    }
  }

  /** Whitespace added at either end of a string never changes what `strip()` returns. */
  lemma StripPadded(a: string, s: string, b: string)
    requires AllSpace(a) && AllSpace(b)
    ensures Strip(a + s + b) == Strip(s)
  {
    assert a + s + b == a + (s + b);
    TrimStartPadded(a, s + b);
    if AllSpace(s) {
      assert AllSpace(s + b);
      TrimStartPadded(s + b, []);
      TrimStartPadded(s, []);
      assert s + b + [] == s + b;
      assert s + [] == s;
    } else {
      TrimStartKeepsTail(s, b);
      TrimEndPadded(TrimStart(s), b);
    }
  }

  /** A string that starts and ends with a non-space is its own `strip()`. */
  lemma StripUnpadded(s: string)
    requires |s| > 0 && !IsSpace(s[0]) && !IsSpace(s[|s| - 1])
    ensures Strip(s) == s
  {
  }

  // ---------------------------------------------------------------------------
  // str.split(sep) with an explicit, non-empty separator
  // ---------------------------------------------------------------------------

  /** `sep` occurs in `s` starting at index `k`. */
  predicate OccursAt(s: string, sep: string, k: int) {
    0 <= k && k + |sep| <= |s| && s[k..k + |sep|] == sep
  }

  /** Python's `sep in s`. */
  predicate Contains(s: string, sep: string) {
    exists k :: 0 <= k <= |s| && OccursAt(s, sep, k)
  }

  /** Index of the first occurrence of `sep` at or after `i`, if any. */
  function FindFrom(s: string, sep: string, i: nat): (r: Option<nat>)
    requires i <= |s|
    ensures r.Some? ==> i <= r.value && OccursAt(s, sep, r.value)
    ensures r.Some? ==> forall k :: i <= k < r.value ==> !OccursAt(s, sep, k)
    ensures r.None? ==> forall k :: i <= k ==> !OccursAt(s, sep, k)
    decreases |s| - i
  {
    if i + |sep| > |s| then None
    else if s[i..i + |sep|] == sep then Some(i)
    else FindFrom(s, sep, i + 1)
  }

  /** Inverse of `Split`: the parts glued back together with the separator between them. */
  function Join(parts: seq<string>, sep: string): string
    requires |parts| >= 1
  {
    if |parts| == 1 then parts[0] else parts[0] + sep + Join(parts[1..], sep)
  }

  lemma PrefixFreeOfSep(s: string, sep: string, k: nat)
    requires |sep| > 0 && k <= |s|
    requires forall j :: 0 <= j < k ==> !OccursAt(s, sep, j)
    ensures !Contains(s[..k], sep)
  {
    forall j | 0 <= j <= |s[..k]| && OccursAt(s[..k], sep, j)
      ensures false
    {
      assert s[..k][j..j + |sep|] == s[j..j + |sep|];
      assert OccursAt(s, sep, j);
    }
  }

  /** Python's `s.split(sep)`: the pieces between occurrences of `sep`, scanning left to right. */
  function Split(s: string, sep: string): (parts: seq<string>)
    requires |sep| > 0
    ensures |parts| >= 1
    ensures Join(parts, sep) == s
    ensures |parts| >= 2 ==> FindFrom(s, sep, 0) == Some(|parts[0]|)
    ensures forall j :: 0 <= j < |parts| ==> !Contains(parts[j], sep)
    decreases |s|
  {
    match FindFrom(s, sep, 0)
    case None =>
      assert !Contains(s, sep) by {
        forall k | OccursAt(s, sep, k) ensures false { }
      }
      [s]
    case Some(k) =>
      PrefixFreeOfSep(s, sep, k);
      var rest := Split(s[k + |sep|..], sep);
      assert s == s[..k] + sep + s[k + |sep|..] by {
        assert s[k..k + |sep|] == sep;
        assert s == s[..k] + s[k..k + |sep|] + s[k + |sep|..];
      }
      [s[..k]] + rest
  }

  /** The first piece of a split is a prefix of the input, free of the separator, and followed by it (or by the end). */
  lemma SplitHead(s: string, sep: string)
    requires |sep| > 0
    ensures var p := Split(s, sep)[0];
      && |p| <= |s| && s[..|p|] == p
      && !Contains(p, sep)
      && (|p| == |s| || OccursAt(s, sep, |p|))
      && (|Split(s, sep)| >= 2 ==> s[|p| + |sep|..] == Join(Split(s, sep)[1..], sep))
  {
    var parts := Split(s, sep);
    var p := parts[0];
    if |parts| >= 2 {
      assert s == p + sep + Join(parts[1..], sep);
      assert s[..|p|] == p;
      assert s[|p|..|p| + |sep|] == sep;
      assert s[|p| + |sep|..] == Join(parts[1..], sep);
    } else {
      assert s == p;
    }
  }

  /** `s.split(sep)` has a second piece exactly when `sep in s`. */
  lemma SplitHasSecond(s: string, sep: string)
    requires |sep| > 0
    ensures |Split(s, sep)| >= 2 <==> Contains(s, sep)
  {
    var parts := Split(s, sep);
    SplitHead(s, sep);
    if |parts| == 1 {
      assert s == parts[0];
    } else {
      assert OccursAt(s, sep, |parts[0]|);
    }
  }

  /** Once `sep` occurs somewhere inside `p`, it occurs in every extension of `p`. */
  lemma ContainsExtends(p: string, s: string, sep: string)
    requires |p| <= |s| && s[..|p|] == p
    requires Contains(p, sep)
    ensures Contains(s, sep)
  {
    var k :| 0 <= k <= |p| && OccursAt(p, sep, k);
    assert s[k..k + |sep|] == p[k..k + |sep|];
    assert OccursAt(s, sep, k);
  }

  /** `FindFrom` stops at the first occurrence at or after its start. */
  lemma {:induction false} FindFromFirst(s: string, sep: string, i: nat, k: nat)
    requires i <= k <= |s| && OccursAt(s, sep, k)
    requires forall j :: i <= j < k ==> !OccursAt(s, sep, j)
    ensures FindFrom(s, sep, i) == Some(k)
    decreases k - i
  {
    if i < k {
      assert !OccursAt(s, sep, i);
      FindFromFirst(s, sep, i + 1, k);
    }
  }

  /**
   * A split with a cut is its first piece followed by the split of what follows the
   * first `sep`; with the leftmost first cut that `Split` promises, every cut is leftmost.
   */
  lemma SplitCons(s: string, sep: string)
    requires |sep| > 0 && |Split(s, sep)| >= 2
    ensures var p := Split(s, sep)[0];
      |p| + |sep| <= |s| && Split(s, sep) == [p] + Split(s[|p| + |sep|..], sep)
  {
  }

  // ---------------------------------------------------------------------------
  // str.split() with no argument
  // ---------------------------------------------------------------------------

  /** The longest prefix of `s` holding no whitespace. */
  function Word(s: string): (w: string)
    ensures |w| <= |s| && w == s[..|w|] && NoSpace(w)
    ensures |w| < |s| ==> IsSpace(s[|w|])
  {
    if |s| == 0 || IsSpace(s[0]) then [] else [s[0]] + Word(s[1..])
  }

  /** `s` with every whitespace character deleted. */
  function RemoveSpaces(s: string): string {
    if |s| == 0 then [] else (if IsSpace(s[0]) then [] else [s[0]]) + RemoveSpaces(s[1..])
  }

  lemma {:induction false} RemoveSpacesAppend(a: string, b: string)
    ensures RemoveSpaces(a + b) == RemoveSpaces(a) + RemoveSpaces(b)
    decreases |a|
  {
    if |a| == 0 {
      assert a + b == b;
    } else {
      assert (a + b)[1..] == a[1..] + b;
      RemoveSpacesAppend(a[1..], b);
    }
  }

  lemma {:induction false} RemoveSpacesOfSpaces(a: string)
    requires AllSpace(a)
    ensures RemoveSpaces(a) == []
    decreases |a|
  {
    if |a| > 0 {
      RemoveSpacesOfSpaces(a[1..]);
    }
  }

  lemma {:induction false} RemoveSpacesOfWord(a: string)
    requires NoSpace(a)
    ensures RemoveSpaces(a) == a
    decreases |a|
  {
    if |a| > 0 {
      RemoveSpacesOfWord(a[1..]);
      assert a == [a[0]] + a[1..];
    }
  }

  /** Python's `s.split()`: the maximal runs of non-whitespace, in order. */
  function Fields(s: string): (fs: seq<string>)
    ensures forall j :: 0 <= j < |fs| ==> |fs[j]| > 0 && NoSpace(fs[j])
    ensures Flatten(fs) == RemoveSpaces(s)
    decreases |s|
  {
    var t := TrimStart(s);
    RemoveSpacesTrimmed(s);
    if |t| == 0 then
      []
    else
      var w := Word(t);
      RemoveSpacesWord(t);
      var rest := Fields(t[|w|..]);
      FlattenCons(w, rest);
      [w] + rest
  }

  lemma RemoveSpacesTrimmed(s: string)
    ensures RemoveSpaces(s) == RemoveSpaces(TrimStart(s))
  {
    var t := TrimStart(s);
    var lead := s[..|s| - |t|];
    assert s == lead + t;
    RemoveSpacesAppend(lead, t);
    RemoveSpacesOfSpaces(lead);
  }

  lemma RemoveSpacesWord(t: string)
    ensures RemoveSpaces(t) == Word(t) + RemoveSpaces(t[|Word(t)|..])
  {
    var w := Word(t);
    var rest := t[|w|..];
    assert t == w + rest;
    RemoveSpacesAppend(w, rest);
    RemoveSpacesOfWord(w);
  }

  /** Fields that `split()` can return: non-empty and free of whitespace. */
  predicate Words(fs: seq<string>) {
    forall j :: 0 <= j < |fs| ==> |fs[j]| > 0 && NoSpace(fs[j])
  }

  /** Runs of whitespace that can separate two fields: non-empty and all whitespace. */
  predicate Gaps(gaps: seq<string>) {
    forall j :: 0 <= j < |gaps| ==> |gaps[j]| > 0 && AllSpace(gaps[j])
  }

  /** The fields written out with the run `gaps[j]` between field `j` and field `j + 1`. */
  function Spaced(fs: seq<string>, gaps: seq<string>): string
    requires |fs| == |gaps| + 1
  {
    if |fs| == 1 then fs[0] else fs[0] + gaps[0] + Spaced(fs[1..], gaps[1..])
  }

  lemma {:induction false} WordOfJoined(w: string, x: string)
    requires NoSpace(w)
    requires |x| == 0 || IsSpace(x[0])
    ensures Word(w + x) == w
    decreases |w|
  {
    if |w| > 0 {
      assert (w + x)[1..] == w[1..] + x;
      WordOfJoined(w[1..], x);
      assert w == [w[0]] + w[1..];
    } else {
      assert w + x == x;
    }
  }

  /** Splitting fields written with any runs of whitespace between them gives the fields back. */
  lemma {:induction false} FieldsOfSpaced(fs: seq<string>, gaps: seq<string>)
    requires |fs| == |gaps| + 1 && Words(fs) && Gaps(gaps)
    ensures Fields(Spaced(fs, gaps)) == fs
    decreases |fs|
  {
    var w := fs[0];
    var x := if |fs| == 1 then [] else gaps[0] + Spaced(fs[1..], gaps[1..]);
    assert Spaced(fs, gaps) == w + x;
    assert TrimStart(w + x) == w + x;
    assert |x| == 0 || IsSpace(x[0]);
    WordOfJoined(w, x);
    assert (w + x)[|w|..] == x;
    if |fs| == 1 {
      assert Fields(x) == [];
    } else {
      var y := Spaced(fs[1..], gaps[1..]);
      FieldsOfSpaced(fs[1..], gaps[1..]);
      TrimStartPadded(gaps[0], y);
      assert Fields(x) == Fields(y);
      HeadTail(fs);
    }
  }

  /** Written fields start and end with a non-space. */
  lemma {:induction false} SpacedEnds(fs: seq<string>, gaps: seq<string>)
    requires |fs| == |gaps| + 1 && Words(fs)
    ensures var u := Spaced(fs, gaps);
      |u| > 0 && !IsSpace(u[0]) && !IsSpace(u[|u| - 1])
    decreases |fs|
  {
    if |fs| > 1 {
      SpacedEnds(fs[1..], gaps[1..]);
      var y := Spaced(fs[1..], gaps[1..]);
      assert Spaced(fs, gaps) == fs[0] + gaps[0] + y;
    }
  }

  /** `strip()` removes exactly the whitespace written around the fields. */
  lemma StripSpaced(pad: string, fs: seq<string>, gaps: seq<string>, end: string)
    requires |fs| == |gaps| + 1 && Words(fs) && AllSpace(pad) && AllSpace(end)
    ensures Strip(pad + Spaced(fs, gaps) + end) == Spaced(fs, gaps)
  {
    SpacedEnds(fs, gaps);
    StripPadded(pad, Spaced(fs, gaps), end);
    StripUnpadded(Spaced(fs, gaps));
  }

  // ---------------------------------------------------------------------------
  // int(str)
  // ---------------------------------------------------------------------------

  predicate IsDigits(s: string) {
    |s| > 0 && forall i :: 0 <= i < |s| ==> '0' <= s[i] <= '9'
  }

  function DigitsValue(s: string): nat
    requires forall i :: 0 <= i < |s| ==> '0' <= s[i] <= '9'
  {
    if |s| == 0 then 0 else DigitsValue(s[..|s| - 1]) * 10 + (s[|s| - 1] as int - '0' as int)
  }

  /** `d` read as an unsigned decimal numeral, or `None` when it is not one. */
  function ParseDigits(d: string): Option<nat> {
    if IsDigits(d) then Some(DigitsValue(d)) else None
  }

  /** `int()` applied to text that carries no surrounding whitespace. */
  function ParseTrimmed(t: string): Option<int> {
    if |t| > 0 && (t[0] == '-' || t[0] == '+') then
      match ParseDigits(t[1..])
      case None => None
      case Some(v) => Some(if t[0] == '-' then -(v as int) else v as int)
    else
      match ParseDigits(t)
      case None => None
      case Some(v) => Some(v)
  }

  /** Python's `int(s)` on ASCII decimal text: surrounding whitespace allowed, one optional sign. */
  function ParseInt(s: string): Option<int> {
    ParseTrimmed(Strip(s))
  }

  /** The decimal rendering of a natural number, as Python's `str(n)` writes it. */
  function Decimal(n: nat): (s: string)
    ensures IsDigits(s)
  {
    if n < 10 then ['0' + n as char] else Decimal(n / 10) + ['0' + (n % 10) as char]
  }

  /** `str(i)` for any integer. */
  function ShowInt(i: int): string {
    if i < 0 then "-" + Decimal(-i) else Decimal(i)
  }

  lemma {:induction false} DecimalValue(n: nat)
    ensures DigitsValue(Decimal(n)) == n
  {
    if n >= 10 {
      var d := Decimal(n);
      DecimalValue(n / 10);
      assert d[..|d| - 1] == Decimal(n / 10);
    }
  }

  /** `int(str(i)) == i`. */
  lemma ParseShowInt(i: int)
    ensures ParseInt(ShowInt(i)) == Some(i)
  {
    if i < 0 {
      ParseNegative(i);
    } else {
      ParseNonNegative(i);
    }
  }

  lemma ParseNonNegative(n: nat)
    ensures ParseInt(Decimal(n)) == Some(n)
  {
    var d := Decimal(n);
    DigitsUnpadded(d);
    StripUnpadded(d);
    ParseTrimmedDigits(d);
    DecimalValue(n);
  }

  lemma ParseTrimmedDigits(d: string)
    requires IsDigits(d)
    ensures ParseTrimmed(d) == Some(DigitsValue(d))
  {
  }

  lemma ParseNegative(i: int)
    requires i < 0
    ensures ParseInt(ShowInt(i)) == Some(i)
  {
    ParseDecimal(-i);
    ParseMinus(Decimal(-i), -i);
    assert ShowInt(i) == ['-'] + Decimal(-i);
  }

  /** A minus sign before a numeral negates its value. */
  lemma ParseMinus(d: string, v: nat)
    requires ParseDigits(d) == Some(v)
    ensures ParseInt(['-'] + d) == Some(-(v as int))
  {
    var s := ['-'] + d;
    assert Strip(s) == s by {
      DigitsUnpadded(d);
      assert s[|s| - 1] == d[|d| - 1];
      StripUnpadded(s);
    }
    DropCons('-', d);
  }

  /** A rendered natural number reads back as itself. */
  lemma ParseDecimal(n: nat)
    ensures ParseDigits(Decimal(n)) == Some(n)
  {
    DecimalValue(n);
  }

  lemma DigitsUnpadded(d: string)
    requires IsDigits(d)
    ensures !IsSpace(d[0]) && !IsSpace(d[|d| - 1])
  {
  }
}
