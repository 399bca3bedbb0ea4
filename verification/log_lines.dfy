/**
 * A text file read line by line, as the reorder script reads a language's
 * document log: `readline` from a position, the lines of the whole file, and the
 * position where each line starts (what `tell` returns after the previous line).
 * Positions count characters.
 */
module LogLines {
  import opened Seqs

  /** Where the line starting at `pos` ends: just past the next newline, or at the end of the text. */
  function LineEnd(s: string, pos: nat): (e: nat)
    requires pos <= |s|
    ensures pos <= e <= |s|
    ensures pos < |s| ==> pos < e
    ensures forall k :: pos <= k < e - 1 ==> s[k] != '\n'
    ensures e == |s| || s[e - 1] == '\n'
    decreases |s| - pos
  {
    if pos == |s| then pos
    else if s[pos] == '\n' then pos + 1
    else LineEnd(s, pos + 1)
  }

  /** `readline()` after seeking to `pos`: the rest of the current line with its newline, or `""` at the end. */
  function ReadLine(s: string, pos: nat): (line: string)
    ensures pos >= |s| <==> line == ""
    ensures pos < |s| ==> line == s[pos..LineEnd(s, pos)]
  {
    if pos >= |s| then "" else s[pos..LineEnd(s, pos)]
  }

  /** A complete line: non-empty, ending in a newline, with no other newline. */
  predicate Terminated(l: string) {
    |l| > 0 && l[|l| - 1] == '\n' && forall k :: 0 <= k < |l| - 1 ==> l[k] != '\n'
  }

  /** The lines that successive `readline` calls return from `pos` until one returns `""`. */
  function LinesFrom(s: string, pos: nat): (ls: seq<string>)
    requires pos <= |s|
    ensures forall i :: 0 <= i < |ls| ==> |ls[i]| > 0
    decreases |s| - pos
  {
    if pos == |s| then [] else [s[pos..LineEnd(s, pos)]] + LinesFrom(s, LineEnd(s, pos))
  }

  /** The lines of a whole file. */
  function Lines(s: string): seq<string> {
    LinesFrom(s, 0)
  }

  /** Where line `i` starts: the total length of the lines before it. */
  function Offset(ls: seq<string>, i: nat): nat
    requires i <= |ls|
  {
    |Flatten(ls[..i])|
  }

  /** Putting the lines back together gives the text they were read from. */
  lemma {:induction false} FlattenLinesFrom(s: string, pos: nat)
    requires pos <= |s|
    ensures Flatten(LinesFrom(s, pos)) == s[pos..]
    decreases |s| - pos
  {
    if pos < |s| {
      var e := LineEnd(s, pos);
      FlattenLinesFrom(s, e);
      var ls := LinesFrom(s, pos);
      assert ls[1..] == LinesFrom(s, e);
      assert s[pos..] == s[pos..e] + s[e..];
    }
  }

  /** Every line read is a complete line, except possibly the last one, which then runs to the end of the text. */
  lemma {:induction false} LinesFromShape(s: string, pos: nat)
    requires pos <= |s|
    ensures var ls := LinesFrom(s, pos);
      forall i :: 0 <= i < |ls| && (i < |ls| - 1 || s[|s| - 1] == '\n') ==> Terminated(ls[i])
    decreases |s| - pos
  {
    if pos < |s| {
      var e := LineEnd(s, pos);
      LinesFromShape(s, e);
      var ls := LinesFrom(s, pos);
      assert ls[1..] == LinesFrom(s, e);
      var l := s[pos..e];
      if e < |s| || s[|s| - 1] == '\n' {
        assert l[|l| - 1] == s[e - 1];
        assert Terminated(l);
      }
      forall i | 1 <= i < |ls| && (i < |ls| - 1 || s[|s| - 1] == '\n')
        ensures Terminated(ls[i])
      {
        assert ls[i] == LinesFrom(s, e)[i - 1];
      }
    }
  }

  /** In a text that is empty or ends with a newline, every line is complete. */
  lemma TerminatedLines(s: string, i: nat)
    requires |s| == 0 || s[|s| - 1] == '\n'
    requires i < |Lines(s)|
    ensures Terminated(Lines(s)[i])
  {
    assert |s| > 0;
    LinesFromShape(s, 0);
    assert Terminated(LinesFrom(s, 0)[i]);
  }

  /**
   * Seeking to the offset of line `i` and reading one line returns exactly line `i`.
   * The offset of line `i` is the total length of the lines before it.
   */
  lemma {:induction false} ReadLineAtOffset(s: string, pos: nat, i: nat)
    requires pos <= |s|
    requires i < |LinesFrom(s, pos)|
    ensures pos + Offset(LinesFrom(s, pos), i) < |s|
    ensures ReadLine(s, pos + Offset(LinesFrom(s, pos), i)) == LinesFrom(s, pos)[i]
    decreases |s| - pos
  {
    var ls := LinesFrom(s, pos);
    var e := LineEnd(s, pos);
    var rest := LinesFrom(s, e);
    assert ls == [s[pos..e]] + rest;
    if i == 0 {
      assert ls[..0] == [];
    } else {
      ReadLineAtOffset(s, e, i - 1);
      OffsetCons(s[pos..e], rest, i);
    }
  }

  /** A line added in front moves every later offset by its length. */
  lemma OffsetCons(l: string, rest: seq<string>, i: nat)
    requires 0 < i <= |rest| + 1
    ensures Offset([l] + rest, i) == |l| + Offset(rest, i - 1)
  {
    TakeCons(l, rest, i);
    FlattenCons(l, rest[..i - 1]);
  }

  /** The offsets are prefix sums of the line lengths. */
  lemma OffsetStep(ls: seq<string>, i: nat)
    requires i < |ls|
    ensures Offset(ls, i + 1) == Offset(ls, i) + |ls[i]|
  {
    FlattenAppend(ls[..i], [ls[i]]);
    assert ls[..i + 1] == ls[..i] + [ls[i]];
    assert Flatten([ls[i]]) == ls[i] + Flatten([]);
  }

  /** The whole text has been read once the offset passes the last line. */
  lemma AllRead(s: string)
    ensures Offset(Lines(s), |Lines(s)|) == |s|
  {
    FlattenLinesFrom(s, 0);
    assert Lines(s)[..|Lines(s)|] == Lines(s);
  }

  /** Line boundaries after a prefix do not depend on the prefix. */
  lemma {:induction false} LineEndShift(p: string, t: string, k: nat)
    requires k <= |t|
    ensures LineEnd(p + t, |p| + k) == |p| + LineEnd(t, k)
    decreases |t| - k
  {
    if k < |t| {
      assert (p + t)[|p| + k] == t[k];
      if t[k] != '\n' {
        LineEndShift(p, t, k + 1);
      }
    }
  }

  /** Reading lines after a prefix reads the lines of what follows it. */
  lemma {:induction false} LinesFromShift(p: string, t: string, k: nat)
    requires k <= |t|
    ensures LinesFrom(p + t, |p| + k) == LinesFrom(t, k)
    decreases |t| - k
  {
    if k < |t| {
      LineEndShift(p, t, k);
      var e := LineEnd(t, k);
      LinesFromShift(p, t, e);
      assert (p + t)[|p| + k..|p| + e] == t[k..e];
    }
  }

  /** Splitting complete lines that were put together gives them back. */
  lemma {:induction false} LinesOfFlatten(ls: seq<string>)
    requires forall i :: 0 <= i < |ls| ==> Terminated(ls[i])
    ensures Lines(Flatten(ls)) == ls
  {
    if |ls| > 0 {
      var l := ls[0];
      var t := Flatten(ls[1..]);
      var s := l + t;
      assert Flatten(ls) == s;
      LineEndShift([], s, 0);
      assert LineEnd(s, 0) == |l| by {
        LineEndInLine(l, t, 0);
      }
      LinesFromShift(l, t, 0);
      LinesOfFlatten(ls[1..]);
      assert s[0..|l|] == l;
      assert ls == [l] + ls[1..];
    }
  }

  /** Inside a complete line the line ends just after its newline. */
  lemma {:induction false} LineEndInLine(l: string, t: string, k: nat)
    requires Terminated(l) && k < |l|
    ensures LineEnd(l + t, k) == |l|
    decreases |l| - k
  {
    assert (l + t)[k] == l[k];
    if k < |l| - 1 {
      LineEndInLine(l, t, k + 1);
    }
  }
}
