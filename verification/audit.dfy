/**
 * The validation script: which ids listed in the id files are missing from a
 * language's downloaded document log, and which of those the qrels judged
 * relevant or non-relevant. Decoding a log line's JSON is a parameter; the id
 * files are their decoded lines, and a qrels file is its lines of text.
 */
module Audit {
  import opened Wrappers
  import opened Text
  import opened Documents
  import opened Seqs
  import WorkIndex

  /** Why the validation script stops. */
  datatype AuditError =
    | BadDocLine(index: nat)    // a log line that is not a JSON document (`json.loads` raises)
    | ShortQrel(line: string)   // a qrels line with fewer than three fields (`IndexError`)

  // ---------------------------------------------------------------------------
  // The downloaded ids
  // ---------------------------------------------------------------------------

  /** `doc_ids`: the ids of the first `n` log lines, failing at the first line that does not decode. */
  function Downloaded(decode: string -> Option<Doc>, ls: seq<string>, n: nat): (r: Result<set<string>, AuditError>)
    requires n <= |ls|
  {
    if n == 0 then Ok({})
    else match Downloaded(decode, ls, n - 1)
      case Err(e) => Err(e)
      case Ok(ids) =>
        match decode(ls[n - 1])
        case None => Err(BadDocLine(n - 1))
        case Some(d) => Ok(ids + {d.id})
  }

  /** The set of downloaded ids is built when every line decodes, and it holds exactly their ids. */
  lemma {:induction false} DownloadedIds(decode: string -> Option<Doc>, ls: seq<string>, n: nat, id: string)
    requires n <= |ls|
    ensures Downloaded(decode, ls, n).Ok? <==> forall i :: 0 <= i < n ==> decode(ls[i]).Some?
    ensures Downloaded(decode, ls, n).Ok? ==>
      (id in Downloaded(decode, ls, n).value <==> exists i :: 0 <= i < n && DocOf(decode, ls[i], id))
  {
    if n > 0 {
      DownloadedIds(decode, ls, n - 1, id);
      if Downloaded(decode, ls, n - 1).Err? {
        var i :| 0 <= i < n - 1 && decode(ls[i]).None?;
        assert decode(ls[i]).None?;
      } else if Downloaded(decode, ls, n).Ok? {
        if id in Downloaded(decode, ls, n - 1).value {
          var i :| 0 <= i < n - 1 && DocOf(decode, ls[i], id);
          assert DocOf(decode, ls[i], id);
        }
        if exists i :: 0 <= i < n && DocOf(decode, ls[i], id) {
          var i :| 0 <= i < n && DocOf(decode, ls[i], id);
          if i < n - 1 {
            assert id in Downloaded(decode, ls, n - 1).value;
          }
        }
      }
    }
  }

  // ---------------------------------------------------------------------------
  // The qrels
  // ---------------------------------------------------------------------------

  /** What one qrels line says: a document id and whether it was judged relevant. */
  datatype Judgment = Judgment(id: string, relevant: bool)

  /**
   * One qrels line, split on whitespace after stripping it: the document id is the
   * third field, and the judgment is non-relevant exactly when the last field is `0`.
   * With fewer than three fields the line raises.
   */
  function Judge(line: string): (r: Option<Judgment>)
    ensures r.Some? ==> |r.value.id| > 0 && NoSpace(r.value.id)
  {
    var split := Fields(Strip(line));
    if |split| < 3 then None
    else Some(Judgment(split[2], split[|split| - 1] != "0"))
  }

  /**
   * A qrels line written as `query iteration docid … grade`, with any whitespace
   * around and between the fields (a trailing newline included), is judged for
   * `docid`, as relevant exactly when the grade is not `0`.
   */
  lemma JudgeWritten(pad: string, q: string, it: string, id: string, mid: seq<string>, grade: string, gaps: seq<string>, end: string)
    requires var fs := [q, it, id] + mid + [grade];
      Words(fs) && |gaps| + 1 == |fs| && Gaps(gaps)
    requires AllSpace(pad) && AllSpace(end)
    ensures Judge(pad + Spaced([q, it, id] + mid + [grade], gaps) + end) == Some(Judgment(id, grade != "0"))
  {
    var fs := [q, it, id] + mid + [grade];
    StripSpaced(pad, fs, gaps, end);
    FieldsOfSpaced(fs, gaps);
    assert Fields(Strip(pad + Spaced(fs, gaps) + end)) == fs;
    assert fs[2] == id && fs[|fs| - 1] == grade;
  }

  /** The relevant and the non-relevant ids (an id may be in both). */
  datatype Qrels = Qrels(rel: set<string>, nonrel: set<string>)

  /**
   * The relevant and non-relevant sets after the first `n` lines, each judged by
   * `judge`, failing at the first line that raises.
   */
  function Collect<L>(judge: L -> Option<Judgment>, lines: seq<L>, n: nat): Result<Qrels, nat>
    requires n <= |lines|
  {
    if n == 0 then Ok(Qrels({}, {}))
    else match Collect(judge, lines, n - 1)
      case Err(e) => Err(e)
      case Ok(q) =>
        match judge(lines[n - 1])
        case None => Err(n - 1)
        case Some(j) => Ok(if j.relevant then q.(rel := q.rel + {j.id}) else q.(nonrel := q.nonrel + {j.id}))
  }

  /** Reading the qrels lines, all files one after the other. */
  function ReadQrels(lines: seq<string>): Result<Qrels, AuditError> {
    match Collect(Judge, lines, |lines|)
    case Err(i) => Err(ShortQrel(if i < |lines| then lines[i] else ""))
    case Ok(q) => Ok(q)
  }

  /** The collection succeeds when every line is judged, and otherwise stops at the first that is not. */
  lemma {:induction false} CollectOk<L>(judge: L -> Option<Judgment>, lines: seq<L>, n: nat)
    requires n <= |lines|
    ensures Collect(judge, lines, n).Ok? <==> forall i :: 0 <= i < n ==> judge(lines[i]).Some?
    ensures Collect(judge, lines, n).Err? ==> var i := Collect(judge, lines, n).error;
      i < n && judge(lines[i]).None? && forall j :: 0 <= j < i ==> judge(lines[j]).Some?
  {
    if n > 0 {
      CollectOk(judge, lines, n - 1);
    }
  }

  /** An id is relevant (non-relevant) exactly when some line judges it so. */
  lemma {:induction false} CollectSets<L>(judge: L -> Option<Judgment>, lines: seq<L>, n: nat, id: string, relevant: bool)
    requires n <= |lines| && Collect(judge, lines, n).Ok?
    ensures var q := Collect(judge, lines, n).value;
      (if relevant then id in q.rel else id in q.nonrel) <==>
        exists i :: 0 <= i < n && judge(lines[i]) == Some(Judgment(id, relevant))
  {
    if n > 0 {
      CollectSets(judge, lines, n - 1, id, relevant);
      if exists i :: 0 <= i < n && judge(lines[i]) == Some(Judgment(id, relevant)) {
        var i :| 0 <= i < n && judge(lines[i]) == Some(Judgment(id, relevant));
        if i < n - 1 {
          assert exists i :: 0 <= i < n - 1 && judge(lines[i]) == Some(Judgment(id, relevant));
        }
      }
    }
  }

  /** Reading the qrels fails exactly when some line has fewer than three fields, and then names the first such line. */
  lemma ReadQrelsOk(lines: seq<string>)
    ensures ReadQrels(lines).Ok? <==> forall i :: 0 <= i < |lines| ==> Judge(lines[i]).Some?
    ensures ReadQrels(lines).Err? ==> exists i :: 0 <= i < |lines| && Judge(lines[i]).None? && ReadQrels(lines).error == ShortQrel(lines[i])
  {
    CollectOk(Judge, lines, |lines|);
    if Collect(Judge, lines, |lines|).Err? {
      var i := Collect(Judge, lines, |lines|).error;
      assert ReadQrels(lines) == Err(ShortQrel(lines[i]));
    }
  }

  /** After reading the qrels, an id is relevant (non-relevant) exactly when some line judges it so. */
  lemma ReadQrelsSets(lines: seq<string>, id: string, relevant: bool)
    ensures ReadQrels(lines).Ok? ==> var q := ReadQrels(lines).value;
      (if relevant then id in q.rel else id in q.nonrel) <==>
        exists i :: 0 <= i < |lines| && Judge(lines[i]) == Some(Judgment(id, relevant))
  {
    if Collect(Judge, lines, |lines|).Ok? {
      CollectSets(Judge, lines, |lines|, id, relevant);
    }
  }

  // ---------------------------------------------------------------------------
  // The missing documents
  // ---------------------------------------------------------------------------

  /** How a missing document is reported. */
  datatype Kind = Relevant | NonRelevant | Unjudged

  /** One printed report line: the missing id and how it was judged. */
  datatype Missing = Missing(id: string, kind: Kind)

  /** Relevant takes precedence over non-relevant. */
  function KindOf(q: Qrels, id: string): (k: Kind)
    ensures k == Relevant <==> id in q.rel
    ensures k == NonRelevant <==> id !in q.rel && id in q.nonrel
  {
    if id in q.rel then Relevant else if id in q.nonrel then NonRelevant else Unjudged
  }

  /**
   * Against the qrels read from `lines`, an id is reported relevant exactly when some
   * line judges it relevant, non-relevant exactly when no line does but some line
   * judges it non-relevant, and unjudged exactly when no line names it.
   */
  lemma KindOfQrels(lines: seq<string>, id: string)
    requires ReadQrels(lines).Ok?
    ensures var k := KindOf(ReadQrels(lines).value, id);
      && (k == Relevant <==> exists i :: 0 <= i < |lines| && Judge(lines[i]) == Some(Judgment(id, true)))
      && (k == NonRelevant <==>
            && (forall i :: 0 <= i < |lines| ==> Judge(lines[i]) != Some(Judgment(id, true)))
            && exists i :: 0 <= i < |lines| && Judge(lines[i]) == Some(Judgment(id, false)))
      && (k == Unjudged <==> forall i :: 0 <= i < |lines| ==> Judge(lines[i]).Some? && Judge(lines[i]).value.id != id)
  {
    ReadQrelsSets(lines, id, true);
    ReadQrelsSets(lines, id, false);
    JudgedSomewhere(lines, id);
  }

  /** No line names an id exactly when no line judges it either way. */
  lemma JudgedSomewhere(lines: seq<string>, id: string)
    requires ReadQrels(lines).Ok?
    ensures (forall i :: 0 <= i < |lines| ==> Judge(lines[i]).Some? && Judge(lines[i]).value.id != id) <==>
      && (forall i :: 0 <= i < |lines| ==> Judge(lines[i]) != Some(Judgment(id, true)))
      && (forall i :: 0 <= i < |lines| ==> Judge(lines[i]) != Some(Judgment(id, false)))
  {
    ReadQrelsOk(lines);
    if forall i :: 0 <= i < |lines| ==> Judge(lines[i]) != Some(Judgment(id, true)) && Judge(lines[i]) != Some(Judgment(id, false)) {
      forall i | 0 <= i < |lines| ensures Judge(lines[i]).value.id != id {
        var j := Judge(lines[i]).value;
        assert j == Judgment(j.id, j.relevant);
      }
    }
  }

  /** The report lines printed for the first `n` listed ids, one per id not downloaded, duplicates included. */
  function Report(ids: seq<string>, downloaded: set<string>, q: Qrels, n: nat): seq<Missing>
    requires n <= |ids|
  {
    if n == 0 then []
    else
      var line := if ids[n - 1] in downloaded then [] else [Missing(ids[n - 1], KindOf(q, ids[n - 1]))];
      Report(ids, downloaded, q, n - 1) + line
  }

  /** The three totals printed at the end. */
  datatype Totals = Totals(miss: nat, relMiss: nat, nonrelMiss: nat)

  /** The totals of a report: all lines, relevant lines, non-relevant lines. */
  function Tally(r: seq<Missing>): Totals {
    if |r| == 0 then Totals(0, 0, 0)
    else
      var t := Tally(r[..|r| - 1]);
      var k := r[|r| - 1].kind;
      Totals(t.miss + 1, t.relMiss + (if k == Relevant then 1 else 0), t.nonrelMiss + (if k == NonRelevant then 1 else 0))
  }

  /**
   * The reporting loop: for each listed id not downloaded, count it, then count it
   * again as relevant or else as non-relevant, and print a line saying which.
   */
  method ReportMissing(ids: seq<string>, downloaded: set<string>, q: Qrels)
    returns (printed: seq<Missing>, missCnt: nat, relMissCnt: nat, nonrelMissCnt: nat)
    ensures printed == Report(ids, downloaded, q, |ids|)
    ensures Totals(missCnt, relMissCnt, nonrelMissCnt) == Tally(printed)
    ensures relMissCnt + nonrelMissCnt <= missCnt
  {
    printed := [];
    missCnt, relMissCnt, nonrelMissCnt := 0, 0, 0;
    var k := 0;
    while k < |ids|
      invariant k <= |ids|
      invariant printed == Report(ids, downloaded, q, k)
      invariant Totals(missCnt, relMissCnt, nonrelMissCnt) == Tally(printed)
      invariant relMissCnt + nonrelMissCnt <= missCnt
    {
      var id := ids[k];
      ReportStep(ids, downloaded, q, k);
      if id !in downloaded {
        missCnt := missCnt + 1;
        var m: Missing;
        if id in q.rel {
          m := Missing(id, Relevant);
          relMissCnt := relMissCnt + 1;
        } else if id in q.nonrel {
          m := Missing(id, NonRelevant);
          nonrelMissCnt := nonrelMissCnt + 1;
        } else {
          m := Missing(id, Unjudged);
        }
        TallyAppend(printed, m);
        printed := printed + [m];
      }
      k := k + 1;
    }
  }

  /** The report for one more id adds a line for it, carrying its judgment, exactly when it was not downloaded. */
  lemma ReportStep(ids: seq<string>, downloaded: set<string>, q: Qrels, k: nat)
    requires k < |ids|
    ensures ids[k] in downloaded ==> Report(ids, downloaded, q, k + 1) == Report(ids, downloaded, q, k)
    ensures ids[k] !in downloaded ==>
      Report(ids, downloaded, q, k + 1) == Report(ids, downloaded, q, k) + [Missing(ids[k], KindOf(q, ids[k]))]
  {
    assert Report(ids, downloaded, q, k) + [] == Report(ids, downloaded, q, k);
  }

  /** Printing one more line adds one to the missing total and one to the total of its judgment. */
  lemma TallyAppend(r: seq<Missing>, m: Missing)
    ensures var t := Tally(r);
      Tally(r + [m]) == Totals(t.miss + 1, t.relMiss + (if m.kind == Relevant then 1 else 0),
                               t.nonrelMiss + (if m.kind == NonRelevant then 1 else 0))
  {
    assert (r + [m])[..|r|] == r;
  }

  /**
   * The report names exactly the listed ids that were not downloaded, each with its
   * judgment; `ReportStep` gives the order, one line per entry.
   */
  lemma {:induction false} ReportLines(ids: seq<string>, downloaded: set<string>, q: Qrels, n: nat)
    requires n <= |ids|
    ensures var r := Report(ids, downloaded, q, n);
      forall m :: m in r ==> m.id !in downloaded && m.kind == KindOf(q, m.id) && m.id in ids[..n]
    ensures forall i :: 0 <= i < n && ids[i] !in downloaded ==>
      Missing(ids[i], KindOf(q, ids[i])) in Report(ids, downloaded, q, n)
  {
    if n > 0 {
      ReportLines(ids, downloaded, q, n - 1);
      ReportStep(ids, downloaded, q, n - 1);
      assert ids[..n - 1] <= ids[..n];
      var r := Report(ids, downloaded, q, n - 1);
      assert Report(ids, downloaded, q, n) == r || Report(ids, downloaded, q, n) == r + [Missing(ids[n - 1], KindOf(q, ids[n - 1]))];
      assert forall m :: m in r ==> m in Report(ids, downloaded, q, n);
    }
  }

  /** The number of listed entries, duplicates included, whose id is not downloaded. */
  function MissCount(ids: seq<string>, downloaded: set<string>, n: nat): nat
    requires n <= |ids|
  {
    |set i | 0 <= i < n && ids[i] !in downloaded|
  }

  /** `miss_cnt` counts every listed entry that was not downloaded, repeated ids once per entry. */
  lemma {:induction false} MissCountIsReportLength(ids: seq<string>, downloaded: set<string>, q: Qrels, n: nat)
    requires n <= |ids|
    ensures Tally(Report(ids, downloaded, q, n)).miss == |Report(ids, downloaded, q, n)| == MissCount(ids, downloaded, n)
  {
    TallyMiss(Report(ids, downloaded, q, n));
    if n > 0 {
      MissCountIsReportLength(ids, downloaded, q, n - 1);
      MissCountStep(ids, downloaded, n);
    }
  }

  lemma MissCountStep(ids: seq<string>, downloaded: set<string>, n: nat)
    requires 0 < n <= |ids|
    ensures MissCount(ids, downloaded, n) == MissCount(ids, downloaded, n - 1) + if ids[n - 1] in downloaded then 0 else 1
  {
    var before := set i | 0 <= i < n - 1 && ids[i] !in downloaded;
    var after := set i | 0 <= i < n && ids[i] !in downloaded;
    if ids[n - 1] in downloaded {
      assert after == before;
    } else {
      assert after == before + {n - 1};
    }
  }

  /** The first total is the number of report lines. */
  lemma {:induction false} TallyMiss(r: seq<Missing>)
    ensures Tally(r).miss == |r|
  {
    if |r| > 0 {
      TallyMiss(r[..|r| - 1]);
    }
  }

  /** At every point the relevant and non-relevant totals together stay within the missing total. */
  lemma {:induction false} TallyBound(r: seq<Missing>)
    ensures Tally(r).relMiss + Tally(r).nonrelMiss <= Tally(r).miss
  {
    if |r| > 0 {
      TallyBound(r[..|r| - 1]);
    }
  }

  /** The totals never decrease: those of a prefix of the report are at most those of the report. */
  lemma {:induction false} TallyGrows(r: seq<Missing>, k: nat)
    requires k <= |r|
    ensures var a, b := Tally(r[..k]), Tally(r);
      a.miss <= b.miss && a.relMiss <= b.relMiss && a.nonrelMiss <= b.nonrelMiss
  {
    if k < |r| {
      var p := r[..|r| - 1];
      TallyGrows(p, k);
      assert p[..k] == r[..k];
    } else {
      assert r[..k] == r;
    }
  }

  /** Reading more listed ids only appends report lines. */
  lemma {:induction false} ReportGrows(ids: seq<string>, downloaded: set<string>, q: Qrels, k: nat, n: nat)
    requires k <= n <= |ids|
    ensures Report(ids, downloaded, q, k) <= Report(ids, downloaded, q, n)
    decreases n
  {
    if k < n {
      ReportGrows(ids, downloaded, q, k, n - 1);
    }
  }

  /** All three totals are zero exactly when every listed id was downloaded. */
  lemma {:induction false} NothingMissing(ids: seq<string>, downloaded: set<string>, q: Qrels, n: nat)
    requires n <= |ids|
    ensures Tally(Report(ids, downloaded, q, n)) == Totals(0, 0, 0) <==> forall i :: 0 <= i < n ==> ids[i] in downloaded
  {
    TallyMiss(Report(ids, downloaded, q, n));
    if n > 0 {
      NothingMissing(ids, downloaded, q, n - 1);
      TallyMiss(Report(ids, downloaded, q, n - 1));
      TallyBound(Report(ids, downloaded, q, n - 1));
    }
  }

  /** A listed id that is missing and judged both ways is counted as relevant, not as non-relevant. */
  lemma RelevantFirst(ids: seq<string>, downloaded: set<string>, q: Qrels, k: nat)
    requires k < |ids| && ids[k] !in downloaded && ids[k] in q.rel && ids[k] in q.nonrel
    ensures var before, after := Tally(Report(ids, downloaded, q, k)), Tally(Report(ids, downloaded, q, k + 1));
      after == Totals(before.miss + 1, before.relMiss + 1, before.nonrelMiss)
  {
    var r := Report(ids, downloaded, q, k + 1);
    assert r[..|r| - 1] == Report(ids, downloaded, q, k);
  }

  // ---------------------------------------------------------------------------
  // The whole script
  // ---------------------------------------------------------------------------

  /** What the script prints: the report lines and the three totals. */
  datatype Validation = Validation(report: seq<Missing>, totals: Totals)

  /** `validate_docs`: read the log, then the qrels, then report on the listed ids. */
  function ValidateDocs(decode: string -> Option<Doc>, log: seq<string>,
                        qrelFiles: seq<seq<string>>, idFiles: seq<seq<WorkIndex.IdLine>>): (v: Result<Validation, AuditError>)
    ensures v.Ok? ==> v.value.totals.miss == |v.value.report|
    ensures v.Ok? ==> v.value.totals.relMiss + v.value.totals.nonrelMiss <= v.value.totals.miss
  {
    var downloaded :- Downloaded(decode, log, |log|);
    var lines := Flatten(qrelFiles);
    var q :- ReadQrels(lines);
    var ids := WorkIndex.Ids(Flatten(idFiles));
    var r := Report(ids, downloaded, q, |ids|);
    TallyMiss(r);
    TallyBound(r);
    Ok(Validation(r, Tally(r)))
  }

  /** The script prints its report exactly when every log line is a document and every qrels line has three fields. */
  lemma ValidateDocsOk(decode: string -> Option<Doc>, log: seq<string>,
                       qrelFiles: seq<seq<string>>, idFiles: seq<seq<WorkIndex.IdLine>>)
    ensures ValidateDocs(decode, log, qrelFiles, idFiles).Ok? <==>
      && (forall i :: 0 <= i < |log| ==> decode(log[i]).Some?)
      && (forall i :: 0 <= i < |Flatten(qrelFiles)| ==> Judge(Flatten(qrelFiles)[i]).Some?)
  {
    ValidateDocsSteps(decode, log, qrelFiles, idFiles);
    DownloadedIds(decode, log, |log|, "");
    ReadQrelsOk(Flatten(qrelFiles));
  }

  /** The script gets to its report exactly when the log and the qrels are both read. */
  lemma ValidateDocsSteps(decode: string -> Option<Doc>, log: seq<string>,
                          qrelFiles: seq<seq<string>>, idFiles: seq<seq<WorkIndex.IdLine>>)
    ensures ValidateDocs(decode, log, qrelFiles, idFiles).Ok? <==>
      Downloaded(decode, log, |log|).Ok? && ReadQrels(Flatten(qrelFiles)).Ok?
  {
  }

  /** The log line `l` is a document with this id. */
  predicate DocOf(decode: string -> Option<Doc>, l: string, id: string) {
    decode(l).Some? && decode(l).value.id == id
  }

  /** A printed report is the report on the listed ids against the downloaded ids and the judged ids. */
  lemma ValidateDocsReport(decode: string -> Option<Doc>, log: seq<string>,
                           qrelFiles: seq<seq<string>>, idFiles: seq<seq<WorkIndex.IdLine>>)
    requires ValidateDocs(decode, log, qrelFiles, idFiles).Ok?
    ensures Downloaded(decode, log, |log|).Ok? && ReadQrels(Flatten(qrelFiles)).Ok?
    ensures var ids := WorkIndex.Ids(Flatten(idFiles));
      var r := Report(ids, Downloaded(decode, log, |log|).value, ReadQrels(Flatten(qrelFiles)).value, |ids|);
      ValidateDocs(decode, log, qrelFiles, idFiles).value == Validation(r, Tally(r))
  {
  }

  /**
   * When the script prints its report, the two judged totals stay within the missing
   * total, which counts the report lines, and all three are zero exactly when every
   * listed id is the id of some log line.
   */
  lemma ValidateDocsTotals(decode: string -> Option<Doc>, log: seq<string>,
                           qrelFiles: seq<seq<string>>, idFiles: seq<seq<WorkIndex.IdLine>>)
    requires ValidateDocs(decode, log, qrelFiles, idFiles).Ok?
    ensures var v := ValidateDocs(decode, log, qrelFiles, idFiles).value;
      var ids := WorkIndex.Ids(Flatten(idFiles));
      && v.totals.relMiss + v.totals.nonrelMiss <= v.totals.miss == |v.report|
      && (v.totals == Totals(0, 0, 0) <==> forall k :: 0 <= k < |ids| ==>
            exists i :: 0 <= i < |log| && DocOf(decode, log[i], ids[k]))
  {
    ValidateDocsReport(decode, log, qrelFiles, idFiles);
    var downloaded := Downloaded(decode, log, |log|).value;
    var q := ReadQrels(Flatten(qrelFiles)).value;
    var ids := WorkIndex.Ids(Flatten(idFiles));
    var r := Report(ids, downloaded, q, |ids|);
    TallyBound(r);
    TallyMiss(r);
    NothingMissing(ids, downloaded, q, |ids|);
    forall k | 0 <= k < |ids|
      ensures ids[k] in downloaded <==> exists i :: 0 <= i < |log| && DocOf(decode, log[i], ids[k])
    {
      DownloadedIds(decode, log, |log|, ids[k]);
    }
  }
}
