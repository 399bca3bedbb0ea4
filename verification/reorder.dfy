/**
 * The reorder script: rewrite a language's document log so that its lines follow
 * the order of the ids in the id files. It reads the log once to record where
 * the line of each document id starts, checks that there are as many ids to
 * write as distinct documents, and then copies, for each id in turn, the line
 * starting at the recorded position. A log is its text; positions count
 * characters. Decoding a line's JSON and the md5 digest are parameters.
 */
module Reorder {
  import opened Wrappers
  import opened Documents
  import opened LogLines
  import opened Seqs
  import WorkIndex
  import IdFiles

  /** Why the reorder script stops. */
  datatype ReorderError =
    | BadLine(index: nat)                         // a log line that is not a JSON document (`json.loads` raises)
    | UnknownId(id: string)                       // with hash checking, a log id that no id file lists (`KeyError`)
    | CountMismatch(downloaded: nat, ids: nat)    // the count assertion before the rewrite
    | MissingOffset(id: string)                   // an id to write that the log never held (`KeyError`)

  /** `hashs`: each id to its md5, assigned line by line, so a repeated id keeps its last md5. */
  function Hashes(m: seq<WorkIndex.IdLine>): map<string, string> {
    if |m| == 0 then map[] else Hashes(m[..|m| - 1])[m[|m| - 1].id := m[|m| - 1].md5]
  }

  /** An id is in `hashs` exactly when some id-file line names it. */
  lemma {:induction false} HashesKeys(m: seq<WorkIndex.IdLine>, id: string)
    ensures id in Hashes(m) <==> exists i :: 0 <= i < |m| && m[i].id == id
  {
    if |m| > 0 {
      var p := m[..|m| - 1];
      HashesKeys(p, id);
      if id in Hashes(p) {
        var i :| 0 <= i < |p| && p[i].id == id;
        assert m[i].id == id;
      }
      if id != m[|m| - 1].id && exists i :: 0 <= i < |m| && m[i].id == id {
        var i :| 0 <= i < |m| && m[i].id == id;
        assert p[i].id == id;
      }
    }
  }

  /** The md5 kept for an id comes from the last id-file line that names it. */
  lemma {:induction false} HashesLastWins(m: seq<WorkIndex.IdLine>, i: nat)
    requires i < |m|
    requires forall j :: i < j < |m| ==> m[j].id != m[i].id
    ensures m[i].id in Hashes(m) && Hashes(m)[m[i].id] == m[i].md5
  {
    if i < |m| - 1 {
      var p := m[..|m| - 1];
      HashesLastWins(p, i);
    }
  }

  /** What the scan needs: how to decode a log line, the fingerprint `hash_doc`, whether to check hashes, and `hashs`. */
  datatype Config = Config(
    decode: string -> Option<Doc>,
    hash: Doc -> string,
    checkHash: bool,
    hashs: map<string, string>)

  /** The configuration for a manifest: `hashs` is filled only when hashes are checked. */
  function Configure(decode: string -> Option<Doc>, md5: string -> string, checkHash: bool, m: seq<WorkIndex.IdLine>): Config {
    Config(decode, (d: Doc) => HashDoc(md5, d), checkHash, if checkHash then Hashes(m) else map[])
  }

  /** The state of the scan: `docs_pos`, and the ids whose hash mismatch was reported, in order. */
  datatype Scan = Scan(pos: map<string, nat>, mismatches: seq<string>)

  /** A log line the scan passes: it decodes, and with hash checking its id has an md5. */
  predicate LineOk(c: Config, l: string) {
    c.decode(l).Some? && (c.checkHash ==> c.decode(l).value.id in c.hashs)
  }

  /** The log line `l` is a document with this id. */
  predicate HasId(c: Config, l: string, id: string) {
    c.decode(l).Some? && c.decode(l).value.id == id
  }

  /** With hash checking, the log line `l` is the document `id` and its fingerprint differs from the md5 listed for it. */
  predicate Mismatch(c: Config, l: string, id: string) {
    c.checkHash && HasId(c, l, id) && id in c.hashs && c.hash(c.decode(l).value) != c.hashs[id]
  }

  /** The error the scan raises at line `k`, which does not pass. */
  function LineError(c: Config, ls: seq<string>, k: nat): ReorderError
    requires k < |ls| && !LineOk(c, ls[k])
  {
    if c.decode(ls[k]).None? then BadLine(k) else UnknownId(c.decode(ls[k]).value.id)
  }

  /** One iteration of the scan over line `k`, which starts at `Offset(ls, k)`. */
  function ScanStep(c: Config, sc: Scan, ls: seq<string>, k: nat): Result<Scan, ReorderError>
    requires k < |ls|
  {
    if !LineOk(c, ls[k]) then Err(LineError(c, ls, k))
    else
      var d := c.decode(ls[k]).value;
      var bad := c.checkHash && c.hash(d) != c.hashs[d.id];
      Ok(Scan(sc.pos[d.id := Offset(ls, k)], if bad then sc.mismatches + [d.id] else sc.mismatches))
  }

  /** The scan over the first `n` lines of the log. */
  function ScanUpTo(c: Config, ls: seq<string>, n: nat): Result<Scan, ReorderError>
    requires n <= |ls|
  {
    if n == 0 then Ok(Scan(map[], []))
    else match ScanUpTo(c, ls, n - 1)
      case Err(e) => Err(e)
      case Ok(sc) => ScanStep(c, sc, ls, n - 1)
  }

  /** Once the scan has raised, reading further lines changes nothing: the first error is the one raised. */
  lemma {:induction false} ScanStops(c: Config, ls: seq<string>, n: nat, m: nat)
    requires n <= m <= |ls| && ScanUpTo(c, ls, n).Err?
    ensures ScanUpTo(c, ls, m) == ScanUpTo(c, ls, n)
    decreases m
  {
    if n < m {
      ScanStops(c, ls, n, m - 1);
    }
  }

  /** The scan passes the first `n` lines exactly when each of them passes on its own; a hash mismatch never stops it. */
  lemma {:induction false} ScanOk(c: Config, ls: seq<string>, n: nat)
    requires n <= |ls|
    ensures ScanUpTo(c, ls, n).Ok? <==> forall i :: 0 <= i < n ==> LineOk(c, ls[i])
  {
    if n > 0 {
      ScanOk(c, ls, n - 1);
      if ScanUpTo(c, ls, n - 1).Err? {
        var i :| 0 <= i < n - 1 && !LineOk(c, ls[i]);
        assert !LineOk(c, ls[i]);
      }
    }
  }

  /** A failed scan raises the error of the first line that does not pass. */
  lemma {:induction false} ScanFirstError(c: Config, ls: seq<string>, n: nat) returns (k: nat)
    requires n <= |ls| && ScanUpTo(c, ls, n).Err?
    ensures k < n && !LineOk(c, ls[k]) && forall i :: 0 <= i < k ==> LineOk(c, ls[i])
    ensures ScanUpTo(c, ls, n).error == LineError(c, ls, k)
  {
    if ScanUpTo(c, ls, n - 1).Err? {
      k := ScanFirstError(c, ls, n - 1);
    } else {
      k := n - 1;
      ScanOk(c, ls, n - 1);
    }
  }

  /** After a successful scan, `docs_pos` holds exactly the ids of the lines read. */
  lemma {:induction false} ScanKeys(c: Config, ls: seq<string>, n: nat, id: string)
    requires n <= |ls| && ScanUpTo(c, ls, n).Ok?
    ensures id in ScanUpTo(c, ls, n).value.pos <==> exists i :: 0 <= i < n && HasId(c, ls[i], id)
  {
    if n > 0 {
      ScanKeys(c, ls, n - 1, id);
      var before := ScanUpTo(c, ls, n - 1).value;
      var d := c.decode(ls[n - 1]).value;
      assert ScanUpTo(c, ls, n).value.pos == before.pos[d.id := Offset(ls, n - 1)];
      if id in before.pos {
        var i :| 0 <= i < n - 1 && HasId(c, ls[i], id);
        assert HasId(c, ls[i], id);
      }
      if id != d.id && exists i :: 0 <= i < n && HasId(c, ls[i], id) {
        var i :| 0 <= i < n && HasId(c, ls[i], id);
        assert i < n - 1;
      }
    }
  }

  /**
   * After a successful scan, the position recorded for an id is the offset of the
   * last line holding it: a repeated id keeps its last occurrence.
   */
  lemma {:induction false} ScanLast(c: Config, ls: seq<string>, n: nat, id: string) returns (i: nat)
    requires n <= |ls| && ScanUpTo(c, ls, n).Ok? && id in ScanUpTo(c, ls, n).value.pos
    ensures i < n && HasId(c, ls[i], id)
    ensures ScanUpTo(c, ls, n).value.pos[id] == Offset(ls, i)
    ensures forall j :: i < j < n ==> !HasId(c, ls[j], id)
  {
    var before := ScanUpTo(c, ls, n - 1).value;
    var d := c.decode(ls[n - 1]).value;
    assert ScanUpTo(c, ls, n).value.pos == before.pos[d.id := Offset(ls, n - 1)];
    if d.id == id {
      i := n - 1;
    } else {
      i := ScanLast(c, ls, n - 1, id);
    }
  }

  /** After a successful scan, every id reported as a hash mismatch names a line whose fingerprint differs from its md5. */
  lemma {:induction false} ScanMismatchSound(c: Config, ls: seq<string>, n: nat, id: string) returns (i: nat)
    requires n <= |ls| && ScanUpTo(c, ls, n).Ok?
    requires id in ScanUpTo(c, ls, n).value.mismatches
    ensures i < n && Mismatch(c, ls[i], id)
  {
    var before := ScanUpTo(c, ls, n - 1).value;
    var d := c.decode(ls[n - 1]).value;
    var bad := c.checkHash && c.hash(d) != c.hashs[d.id];
    assert ScanUpTo(c, ls, n).value.mismatches == if bad then before.mismatches + [d.id] else before.mismatches;
    if id in before.mismatches {
      i := ScanMismatchSound(c, ls, n - 1, id);
    } else {
      i := n - 1;
    }
  }

  /** After a successful scan, every line whose fingerprint differs from its md5 has had its id reported. */
  lemma {:induction false} ScanMismatchComplete(c: Config, ls: seq<string>, n: nat, i: nat, id: string)
    requires n <= |ls| && ScanUpTo(c, ls, n).Ok?
    requires i < n && Mismatch(c, ls[i], id)
    ensures id in ScanUpTo(c, ls, n).value.mismatches
  {
    var before := ScanUpTo(c, ls, n - 1).value;
    var d := c.decode(ls[n - 1]).value;
    var bad := c.checkHash && c.hash(d) != c.hashs[d.id];
    var after := if bad then before.mismatches + [d.id] else before.mismatches;
    assert ScanUpTo(c, ls, n).value.mismatches == after;
    if i < n - 1 {
      ScanMismatchComplete(c, ls, n - 1, i, id);
      assert id in after;
    } else {
      assert bad && d.id == id;
      assert after[|after| - 1] == id;
    }
  }

  /** The ids of the lines among the first `n` whose fingerprint differs from their md5, in log order, one per such line. */
  function MismatchIds(c: Config, ls: seq<string>, n: nat): seq<string>
    requires n <= |ls|
  {
    if n == 0 then []
    else
      var l := ls[n - 1];
      MismatchIds(c, ls, n - 1) + if c.decode(l).Some? && Mismatch(c, l, c.decode(l).value.id) then [c.decode(l).value.id] else []
  }

  /**
   * After a successful scan, the reported mismatches are exactly the mismatching lines'
   * ids, one report per line and in log order, a repeated id reported once per line.
   */
  lemma {:induction false} ScanMismatchesInOrder(c: Config, ls: seq<string>, n: nat)
    requires n <= |ls| && ScanUpTo(c, ls, n).Ok?
    ensures ScanUpTo(c, ls, n).value.mismatches == MismatchIds(c, ls, n)
  {
    if n > 0 {
      ScanMismatchesInOrder(c, ls, n - 1);
      var before := ScanUpTo(c, ls, n - 1).value;
      assert LineOk(c, ls[n - 1]);
      var d := c.decode(ls[n - 1]).value;
      var bad := c.checkHash && c.hash(d) != c.hashs[d.id];
      assert bad <==> Mismatch(c, ls[n - 1], d.id);
      assert ScanUpTo(c, ls, n).value.mismatches == if bad then before.mismatches + [d.id] else before.mismatches;
    }
  }

  /** Without hash checking nothing is reported. */
  lemma {:induction false} ScanNoCheck(c: Config, ls: seq<string>, n: nat)
    requires n <= |ls| && ScanUpTo(c, ls, n).Ok? && !c.checkHash
    ensures ScanUpTo(c, ls, n).value.mismatches == []
  {
    if n > 0 {
      ScanNoCheck(c, ls, n - 1);
    }
  }

  /** The scan of line `k` spelled out case by case, as the loop performs it. */
  lemma ScanAdvance(c: Config, ls: seq<string>, k: nat, pos: map<string, nat>, mismatches: seq<string>)
    requires k < |ls| && ScanUpTo(c, ls, k) == Ok(Scan(pos, mismatches))
    ensures c.decode(ls[k]).None? ==> ScanUpTo(c, ls, k + 1) == Err(BadLine(k))
    ensures c.decode(ls[k]).Some? ==> var d := c.decode(ls[k]).value;
      if c.checkHash && d.id !in c.hashs then ScanUpTo(c, ls, k + 1) == Err(UnknownId(d.id))
      else
        ScanUpTo(c, ls, k + 1) == Ok(Scan(pos[d.id := Offset(ls, k)], if c.checkHash && c.hash(d) != c.hashs[d.id] then mismatches + [d.id] else mismatches))
  {
    assert ScanUpTo(c, ls, k + 1) == ScanStep(c, Scan(pos, mismatches), ls, k);
  }

  /** The scan over a whole log. */
  function ScanLog(c: Config, s: string): Result<Scan, ReorderError> {
    ScanUpTo(c, Lines(s), |Lines(s)|)
  }

  /** Reading at the start of line `k` returns that line, and `""` once every line is read. */
  lemma ReadLineAtLine(s: string, k: nat)
    requires k <= |Lines(s)|
    ensures ReadLine(s, Offset(Lines(s), k)) == if k < |Lines(s)| then Lines(s)[k] else ""
  {
    if k < |Lines(s)| {
      ReadLineAtOffset(s, 0, k);
    } else {
      AllRead(s);
    }
  }

  /**
   * The offset-index loop: `readline` until it returns `""`, decoding each line,
   * reporting hash mismatches, and recording for the line's id the position
   * `tell` gave before the line.
   */
  method BuildOffsetIndex(c: Config, s: string) returns (r: Result<Scan, ReorderError>)
    ensures r == ScanLog(c, s)
  {
    ghost var ls := Lines(s);
    var pos: map<string, nat> := map[];
    var mismatches: seq<string> := [];
    var offset := 0;
    var k: nat := 0;
    AllRead(s);
    while true
      invariant k <= |ls| && offset == Offset(ls, k) <= |s|
      invariant ScanUpTo(c, ls, k) == Ok(Scan(pos, mismatches))
      decreases |s| - offset
    {
      var line := ReadLine(s, offset);
      ReadLineAtLine(s, k);
      if line == "" {
        break;
      }
      ScanAdvance(c, ls, k, pos, mismatches);
      match c.decode(line)
      case None =>
        ScanStops(c, ls, k + 1, |ls|);
        return Err(BadLine(k));
      case Some(d) =>
        if c.checkHash && d.id !in c.hashs {
          ScanStops(c, ls, k + 1, |ls|);
          return Err(UnknownId(d.id));
        }
        if c.checkHash && c.hash(d) != c.hashs[d.id] {
          mismatches := mismatches + [d.id];
        }
        pos := pos[d.id := offset];
        OffsetStep(ls, k);
        offset := offset + |line|;
        k := k + 1;
    }
    r := Ok(Scan(pos, mismatches));
  }

  /** The count assertion: as many ids to write as distinct documents were read. */
  function CheckCount(ordered: seq<string>, pos: map<string, nat>): (r: Option<ReorderError>)
    ensures r.None? <==> |ordered| == |pos|
    ensures r.Some? ==> r.value.CountMismatch? && r.value.downloaded != r.value.ids
  {
    if |ordered| == |pos| then None else Some(CountMismatch(|pos|, |ordered|))
  }

  /** The numbers the assertion message prints as written: the count of distinct documents, twice. */
  function CountMessageAsWritten(ordered: seq<string>, pos: map<string, nat>): ReorderError {
    CountMismatch(|pos|, |pos|)
  }

  /** Whenever the count assertion fails, the message as written shows two equal numbers, neither of them the number of ids. */
  lemma CountMessageHidesIds(ordered: seq<string>, pos: map<string, nat>)
    requires |ordered| != |pos|
    ensures var msg := CountMessageAsWritten(ordered, pos);
      msg.downloaded == msg.ids && msg.ids != |ordered|
    ensures CheckCount(ordered, pos) == Some(CountMismatch(|pos|, |ordered|))
  {
  }

  /** Two ids to write but one document read: the message claims 1 and 1. */
  lemma CountMessageExample()
    ensures CheckCount(["a", "a"], map["a" := 0]).Some?
    ensures CountMessageAsWritten(["a", "a"], map["a" := 0]) == CountMismatch(1, 1)
    ensures CheckCount(["a", "a"], map["a" := 0]) == Some(CountMismatch(1, 2))
  {
    assert |map["a" := 0]| == 1;
  }

  /** The rewrite: for each id in order, seek to its recorded position and copy one line. */
  function Rewrite(s: string, ordered: seq<string>, pos: map<string, nat>): (r: Result<seq<string>, ReorderError>)
    ensures r.Ok? <==> forall k :: 0 <= k < |ordered| ==> ordered[k] in pos
    ensures r.Ok? ==> |r.value| == |ordered| && forall k :: 0 <= k < |ordered| ==> r.value[k] == ReadLine(s, pos[ordered[k]])
    ensures r.Err? ==> exists k :: (0 <= k < |ordered| && ordered[k] !in pos && r.error == MissingOffset(ordered[k])
      && forall j :: 0 <= j < k ==> ordered[j] in pos)
  {
    if |ordered| == 0 then Ok([])
    else if ordered[0] !in pos then Err(MissingOffset(ordered[0]))
    else match Rewrite(s, ordered[1..], pos)
      case Err(e) => Err(e)
      case Ok(out) => Ok([ReadLine(s, pos[ordered[0]])] + out)
  }

  /** What the script leaves behind: the lines of the sorted file, and the mismatches it printed. */
  datatype Outcome = Outcome(lines: seq<string>, mismatches: seq<string>)

  /** The script after the id files are read: scan, count check, rewrite. */
  function ReorderLog(c: Config, ordered: seq<string>, s: string): (r: Result<Outcome, ReorderError>)
    ensures r.Ok? ==> |r.value.lines| == |ordered|
    ensures r.Ok? ==> r.value.mismatches == MismatchIds(c, Lines(s), |Lines(s)|)
  {
    match ScanLog(c, s)
    case Err(e) => Err(e)
    case Ok(sc) =>
      match CheckCount(ordered, sc.pos)
      case Some(e) => Err(e)
      case None =>
        match Rewrite(s, ordered, sc.pos)
        case Err(e) => Err(e)
        case Ok(out) =>
          ScanMismatchesInOrder(c, Lines(s), |Lines(s)|);
          Ok(Outcome(out, sc.mismatches))
  }

  /** Why the whole script stops: an id file name without a numeric second component, or a failure of the reorder itself. */
  datatype ScriptError = BadIdFileName(keyError: IdFiles.KeyError) | Failed(error: ReorderError)

  /**
   * The whole script: order the id files by name, read them in that order (`read`
   * gives the decoded lines of a file), and reorder the log.
   */
  function FixDocumentOrderMain(names: seq<string>, read: string -> seq<WorkIndex.IdLine>,
                                decode: string -> Option<Doc>, md5: string -> string, checkHash: bool,
                                s: string): (r: Result<Outcome, ScriptError>)
    ensures r.Err? && r.error.BadIdFileName? <==> |names| > 1 && exists i :: 0 <= i < |names| && IdFiles.SortKey(names[i]).Err?
    ensures r.Err? && r.error.BadIdFileName? ==> IdFiles.OrderIdFiles(names) == Err(r.error.keyError)
  {
    match IdFiles.OrderIdFiles(names)
    case Err(e) => Err(BadIdFileName(e))
    case Ok(order) =>
      MapFailure(FixDocumentOrder(decode, md5, checkHash, ReadFiles(read, order), s))
  }

  /** The id files' contents, read in the given order. */
  function ReadFiles(read: string -> seq<WorkIndex.IdLine>, order: seq<string>): (files: seq<seq<WorkIndex.IdLine>>)
    ensures |files| == |order| && forall i :: 0 <= i < |order| ==> files[i] == read(order[i])
  {
    seq(|order|, i requires 0 <= i < |order| => read(order[i]))
  }

  /** Every path has a key, and the keys never decrease along the sequence. */
  predicate KeysInOrder(order: seq<string>) {
    forall i, j :: 0 <= i < j < |order| ==>
      IdFiles.SortKey(order[i]).Ok? && IdFiles.SortKey(order[j]).Ok? && IdFiles.SortKey(order[i]).value <= IdFiles.SortKey(order[j]).value
  }

  /** The reorder proper, on id files already in reading order and on the log's text. */
  function FixDocumentOrder(decode: string -> Option<Doc>, md5: string -> string, checkHash: bool,
                            files: seq<seq<WorkIndex.IdLine>>, s: string): Result<Outcome, ReorderError> {
    var m := Flatten(files);
    ReorderLog(Configure(decode, md5, checkHash, m), WorkIndex.Ids(m), s)
  }

  /**
   * `ordered_ids` is the id files' ids put together in reading order: line `j` of
   * file `f` sits after all lines of the files before it.
   */
  lemma OrderedIdsConcatenate(files: seq<seq<WorkIndex.IdLine>>, f: nat, j: nat)
    requires f < |files| && j < |files[f]|
    ensures var ids := WorkIndex.Ids(Flatten(files)); var at := |Flatten(files[..f])| + j;
      at < |ids| && ids[at] == files[f][j].id
  {
    assert files == files[..f] + ([files[f]] + files[f + 1..]);
    FlattenAppend(files[..f], [files[f]] + files[f + 1..]);
    FlattenCons(files[f], files[f + 1..]);
  }

  /**
   * A single id file is read as given; several are read in sorted order, so each
   * file's ids come as a block, blocks ordered by the key of their file names.
   */
  lemma MainOrdersFiles(names: seq<string>, read: string -> seq<WorkIndex.IdLine>,
                        decode: string -> Option<Doc>, md5: string -> string, checkHash: bool, s: string)
    ensures |names| <= 1 ==>
      var files := ReadFiles(read, names);
      FixDocumentOrderMain(names, read, decode, md5, checkHash, s) == MapFailure(FixDocumentOrder(decode, md5, checkHash, files, s))
    ensures IdFiles.OrderIdFiles(names).Ok? ==>
      var order := IdFiles.OrderIdFiles(names).value;
      && multiset(order) == multiset(names)
      && (|names| > 1 ==> KeysInOrder(order))
      && FixDocumentOrderMain(names, read, decode, md5, checkHash, s)
           == MapFailure(FixDocumentOrder(decode, md5, checkHash, ReadFiles(read, order), s))
  {
    if IdFiles.OrderIdFiles(names).Ok? {
      var order := IdFiles.OrderIdFiles(names).value;
      assert FixDocumentOrderMain(names, read, decode, md5, checkHash, s)
        == MapFailure(FixDocumentOrder(decode, md5, checkHash, ReadFiles(read, order), s));
      if |names| > 1 {
        OrderedKeysInOrder(names);
      }
    }
  }

  /** The order the id files are put in keeps the keys of their names non-decreasing. */
  lemma OrderedKeysInOrder(names: seq<string>)
    requires |names| > 1 && IdFiles.OrderIdFiles(names).Ok?
    ensures KeysInOrder(IdFiles.OrderIdFiles(names).value)
  {
    var order := IdFiles.OrderIdFiles(names).value;
    var sorted := IdFiles.SortKeyed(IdFiles.KeyAll(IdFiles.SortKey, names).value);
    IdFiles.OrderIdFilesSorted(names);
    IdFiles.OrderIdFilesKeys(names);
    forall i | 0 <= i < |order| ensures IdFiles.SortKey(order[i]) == Ok(sorted[i].key) {
      assert order[i] == sorted[i].item;
    }
  }

  /** A failure of the reorder proper, as a failure of the whole script. */
  function MapFailure(r: Result<Outcome, ReorderError>): (m: Result<Outcome, ScriptError>)
    ensures r.Ok? <==> m.Ok?
    ensures r.Ok? ==> m.value == r.value
    ensures r.Err? ==> m.error == Failed(r.error)
  {
    match r
    case Err(e) => Err(Failed(e))
    case Ok(out) => Ok(out)
  }

  /** The ids of all documents in the log. */
  function DocIdSet(c: Config, ls: seq<string>): set<string> {
    set i | 0 <= i < |ls| && c.decode(ls[i]).Some? :: c.decode(ls[i]).value.id
  }

  /** The ids of the log's lines, in order, when every line decodes. */
  function DocIds(c: Config, ls: seq<string>): (ids: seq<string>)
    requires forall i :: 0 <= i < |ls| ==> LineOk(c, ls[i])
    ensures |ids| == |ls| && forall i :: 0 <= i < |ls| ==> HasId(c, ls[i], ids[i])
  {
    if |ls| == 0 then []
    else
      assert LineOk(c, ls[0]);
      [c.decode(ls[0]).value.id] + DocIds(c, ls[1..])
  }

  /** After a successful scan of the whole log, `docs_pos` is keyed by exactly the log's document ids. */
  lemma ScanKeySet(c: Config, ls: seq<string>)
    requires ScanUpTo(c, ls, |ls|).Ok?
    ensures ScanUpTo(c, ls, |ls|).value.pos.Keys == DocIdSet(c, ls)
  {
    var pos := ScanUpTo(c, ls, |ls|).value.pos;
    forall id ensures id in pos <==> id in DocIdSet(c, ls) {
      ScanKeys(c, ls, |ls|, id);
      if id in DocIdSet(c, ls) {
        var i :| 0 <= i < |ls| && c.decode(ls[i]).Some? && c.decode(ls[i]).value.id == id;
        assert HasId(c, ls[i], id);
      }
    }
  }

  /**
   * Line `k` of the sorted file is the log line that holds `ordered_ids[k]`, the last
   * such line when the id repeats; the sorted file has one line per id to write.
   */
  lemma ReorderLine(c: Config, ordered: seq<string>, s: string, k: nat) returns (i: nat)
    requires ReorderLog(c, ordered, s).Ok? && k < |ordered|
    ensures |ReorderLog(c, ordered, s).value.lines| == |ordered|
    ensures i < |Lines(s)| && HasId(c, Lines(s)[i], ordered[k])
    ensures forall j :: i < j < |Lines(s)| ==> !HasId(c, Lines(s)[j], ordered[k])
    ensures ReorderLog(c, ordered, s).value.lines[k] == Lines(s)[i]
  {
    var ls := Lines(s);
    var sc := ScanLog(c, s).value;
    var out := Rewrite(s, ordered, sc.pos).value;
    assert ReorderLog(c, ordered, s).value.lines == out;
    i := ScanLast(c, ls, |ls|, ordered[k]);
    ReadLineAtOffset(s, 0, i);
  }

  /**
   * How the script ends once the log is read: the count assertion fails unless there
   * are exactly as many ids to write as distinct documents, and then the rewrite fails
   * exactly when some id to write names no document of the log.
   */
  lemma ReorderErrors(c: Config, ordered: seq<string>, s: string)
    ensures ScanLog(c, s).Err? ==> ReorderLog(c, ordered, s) == Err(ScanLog(c, s).error)
    ensures ScanLog(c, s).Ok? && |ordered| != |DocIdSet(c, Lines(s))| ==>
      ReorderLog(c, ordered, s) == Err(CountMismatch(|DocIdSet(c, Lines(s))|, |ordered|))
    ensures ScanLog(c, s).Ok? && |ordered| == |DocIdSet(c, Lines(s))| ==>
      (ReorderLog(c, ordered, s).Ok? <==> forall k :: 0 <= k < |ordered| ==> ordered[k] in DocIdSet(c, Lines(s)))
  {
    if ScanLog(c, s).Ok? {
      ScanKeySet(c, Lines(s));
    }
  }

  /** The conditions under which the sorted file rearranges the log. */
  predicate Matching(c: Config, ordered: seq<string>, ls: seq<string>) {
    && (forall i :: 0 <= i < |ls| ==> LineOk(c, ls[i]))
    && Distinct(ordered) && Distinct(DocIds(c, ls))
    && Elems(ordered) == Elems(DocIds(c, ls))
  }

  /** Matching id files and log pass the count assertion and the rewrite. */
  lemma MatchingSucceeds(c: Config, ordered: seq<string>, s: string)
    requires Matching(c, ordered, Lines(s))
    ensures ReorderLog(c, ordered, s).Ok?
    ensures |ordered| == |Lines(s)|
  {
    var ls := Lines(s);
    var ids := DocIds(c, ls);
    ScanOk(c, ls, |ls|);
    assert DocIdSet(c, ls) == Elems(ids) by {
      forall id | id in DocIdSet(c, ls) ensures id in Elems(ids) {
        var i :| 0 <= i < |ls| && c.decode(ls[i]).Some? && c.decode(ls[i]).value.id == id;
        assert ids[i] == id;
      }
      forall id | id in Elems(ids) ensures id in DocIdSet(c, ls) {
        var i :| 0 <= i < |ids| && ids[i] == id;
        assert HasId(c, ls[i], id);
      }
    }
    SameElemsSameLength(ordered, ids);
    DistinctCard(ids);
    forall k | 0 <= k < |ordered| ensures ordered[k] in DocIdSet(c, ls) {
      assert ordered[k] in Elems(ordered);
    }
    ReorderErrors(c, ordered, s);
  }

  /**
   * When every log line is a document with a listed id, no id repeats in the log or in
   * the id files, and both hold the same ids, the sorted file is a rearrangement of
   * the log's lines.
   */
  lemma ReorderPermutes(c: Config, ordered: seq<string>, s: string)
    requires Matching(c, ordered, Lines(s))
    ensures ReorderLog(c, ordered, s).Ok?
    ensures multiset(ReorderLog(c, ordered, s).value.lines) == multiset(Lines(s))
  {
    var ls := Lines(s);
    var ids := DocIds(c, ls);
    MatchingSucceeds(c, ordered, s);
    var out := ReorderLog(c, ordered, s).value.lines;
    forall k | 0 <= k < |ordered| ensures ordered[k] in ids {
      assert ordered[k] in Elems(ordered);
    }
    var p := seq(|ordered|, k requires 0 <= k < |ordered| => IndexOf(ids, ordered[k]));
    forall k | 0 <= k < |ordered| ensures 0 <= p[k] < |ls| && out[k] == ls[p[k]] {
      ReorderAt(c, ordered, s, k);
    }
    forall k1, k2 | 0 <= k1 < k2 < |p| ensures p[k1] != p[k2] {
      assert ids[p[k1]] == ordered[k1] != ordered[k2] == ids[p[k2]];
    }
    PermutationByIndex(out, ls, p);
  }

  /** Under matching conditions line `k` of the sorted file is the log line at the position of `ordered_ids[k]` among the log's ids. */
  lemma ReorderAt(c: Config, ordered: seq<string>, s: string, k: nat)
    requires Matching(c, ordered, Lines(s)) && k < |ordered|
    ensures ReorderLog(c, ordered, s).Ok? && ordered[k] in DocIds(c, Lines(s))
    ensures ReorderLog(c, ordered, s).value.lines[k] == Lines(s)[IndexOf(DocIds(c, Lines(s)), ordered[k])]
  {
    var ids := DocIds(c, Lines(s));
    MatchingSucceeds(c, ordered, s);
    assert ordered[k] in Elems(ordered);
    var i := ReorderLine(c, ordered, s, k);
    assert ids[i] == ordered[k] == ids[IndexOf(ids, ordered[k])];
  }

  /** Under matching conditions, on a log ending with a newline, the sorted file's lines are complete lines holding the ids in order. */
  lemma SortedShape(c: Config, ordered: seq<string>, s: string)
    requires Matching(c, ordered, Lines(s))
    requires |s| == 0 || s[|s| - 1] == '\n'
    ensures ReorderLog(c, ordered, s).Ok?
    ensures var out := ReorderLog(c, ordered, s).value.lines;
      && |out| == |ordered|
      && Lines(Flatten(out)) == out
      && (forall k :: 0 <= k < |out| ==> LineOk(c, out[k]))
      && DocIds(c, out) == ordered
  {
    MatchingSucceeds(c, ordered, s);
    var out := ReorderLog(c, ordered, s).value.lines;
    forall k | 0 <= k < |ordered| ensures Terminated(out[k]) && LineOk(c, out[k]) && HasId(c, out[k], ordered[k]) {
      SortedLine(c, ordered, s, k);
    }
    LinesOfFlatten(out);
  }

  /** A line of the sorted file of a log ending with a newline is a complete line of the log holding its id. */
  lemma SortedLine(c: Config, ordered: seq<string>, s: string, k: nat)
    requires ReorderLog(c, ordered, s).Ok? && k < |ordered|
    requires forall i :: 0 <= i < |Lines(s)| ==> LineOk(c, Lines(s)[i])
    requires |s| == 0 || s[|s| - 1] == '\n'
    ensures var line := ReorderLog(c, ordered, s).value.lines[k];
      Terminated(line) && LineOk(c, line) && HasId(c, line, ordered[k])
  {
    var i := ReorderLine(c, ordered, s, k);
    TerminatedLines(s, i);
  }

  /**
   * Under the same conditions, and when the log ends with a newline, sorting the
   * sorted file again changes nothing.
   */
  lemma ReorderIdempotent(c: Config, ordered: seq<string>, s: string)
    requires Matching(c, ordered, Lines(s))
    requires |s| == 0 || s[|s| - 1] == '\n'
    ensures ReorderLog(c, ordered, s).Ok?
    ensures var out := ReorderLog(c, ordered, s).value.lines;
      ReorderLog(c, ordered, Flatten(out)).Ok? && ReorderLog(c, ordered, Flatten(out)).value.lines == out
  {
    SortedShape(c, ordered, s);
    var out := ReorderLog(c, ordered, s).value.lines;
    var t := Flatten(out);
    MatchingSucceeds(c, ordered, t);
    var out2 := ReorderLog(c, ordered, t).value.lines;
    forall k | 0 <= k < |ordered| ensures out2[k] == out[k] {
      var i := ReorderLine(c, ordered, t, k);
      assert HasId(c, out[i], ordered[i]);
    }
  }
}
