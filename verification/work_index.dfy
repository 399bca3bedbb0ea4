/**
 * The set-up in the download script's `main`: the option checks, which output
 * files are deleted or resumed, and the index `to_capture` from archive name to
 * wanted record ids to language to expected md5. Reading the gzip or plain id
 * files and decoding their JSON lines are not modelled: an id file is the
 * sequence of its decoded lines.
 */
module WorkIndex {
  import opened Wrappers
  import opened Documents
  import opened Worker

  /** One decoded line of an id file: the document id, its archive and its md5. */
  datatype IdLine = IdLine(id: string, ccFile: string, md5: string)

  /** The ids of id-file lines, in order, duplicates included. */
  function Ids(m: seq<IdLine>): (ids: seq<string>)
    ensures |ids| == |m| && forall i :: 0 <= i < |m| ==> ids[i] == m[i].id
  {
    if |m| == 0 then [] else [m[0].id] + Ids(m[1..])
  }

  /**
   * The inputs of `main` that decide the plan. `idFiles` holds a language exactly when
   * its flag was given, with its id files in command-line order; `existing` holds a
   * language exactly when its `hc4_docs.jsonl` already exists, with the ids of the
   * documents in it.
   */
  datatype Options = Options(
    restart: bool,
    resume: bool,
    idFiles: map<Lang, seq<seq<IdLine>>>,
    existing: map<Lang, seq<string>>)

  /** Why `main` refuses to start. */
  datatype PlanError =
    | RestartAndResume
    | FileExists(lang: Lang)
    | NoLanguages
    | NothingToCapture

  /** `to_capture`: archive name to the want-list of that archive. */
  type Capture = map<string, WantIdx>

  /** What `main` hands to the workers: the output files it deleted, and the want-list of each archive. */
  datatype Plan = Plan(deleted: set<Lang>, capture: Capture)

  /** One line of one id file, tagged with the language whose flag named the file. */
  datatype Event = Event(lang: Lang, line: IdLine)

  /** `lang_id_file`: the given languages, in `LANGUAGES` order. */
  function Given(idFiles: map<Lang, seq<seq<IdLine>>>, langs: seq<Lang>): (out: seq<Lang>)
    ensures forall l :: l in out <==> l in langs && l in idFiles
  {
    if |langs| == 0 then []
    else (if langs[0] in idFiles then [langs[0]] else []) + Given(idFiles, langs[1..])
  }

  /** The lines of one id file. */
  function FileEvents(l: Lang, lines: seq<IdLine>): (ev: seq<Event>)
    ensures |ev| == |lines|
    ensures forall k :: 0 <= k < |ev| ==> ev[k] == Event(l, lines[k])
  {
    seq(|lines|, k requires 0 <= k < |lines| => Event(l, lines[k]))
  }

  /** The lines of a language's id files, file after file. */
  function LangEvents(l: Lang, files: seq<seq<IdLine>>): (ev: seq<Event>)
    ensures forall k :: 0 <= k < |ev| ==> ev[k].lang == l
  {
    if |files| == 0 then [] else FileEvents(l, files[0]) + LangEvents(l, files[1..])
  }

  /** Every line `main` reads while building `to_capture`, in reading order. */
  function AllEvents(idFiles: map<Lang, seq<seq<IdLine>>>, langs: seq<Lang>): (ev: seq<Event>)
    ensures forall k :: 0 <= k < |ev| ==> ev[k].lang in langs && ev[k].lang in idFiles
  {
    if |langs| == 0 then []
    else (if langs[0] in idFiles then LangEvents(langs[0], idFiles[langs[0]]) else []) + AllEvents(idFiles, langs[1..])
  }

  /** A line whose id is already in the language's output file is not captured again. */
  predicate Skipped(e: Event, downloaded: map<Lang, set<string>>) {
    e.lang in downloaded && e.line.id in downloaded[e.lang]
  }

  // The three-level dictionary is handled generically in its key type, so that the
  // proofs about it never look inside the strings that are its keys.

  /** `d[a][b][l]`, if every level holds the key: for `to_capture`, the md5 expected for document `b` of archive `a` in language `l`. */
  function Get<K(==)>(d: map<K, map<K, map<Lang, string>>>, a: K, b: K, l: Lang): Option<string> {
    if a in d && b in d[a] && l in d[a][b] then Some(d[a][b][l]) else None
  }

  /** No inner dictionary is empty: for `to_capture`, no archive has an empty want-list and no wanted id an empty language map. */
  predicate Filled<K(==)>(d: map<K, map<K, map<Lang, string>>>) {
    forall a :: a in d ==> d[a] != map[] && forall b :: b in d[a] ==> d[a][b] != map[]
  }

  /** `d[a][b][l] = v` on nested `defaultdict`s: missing levels are created empty first. */
  function Put<K(==)>(d: map<K, map<K, map<Lang, string>>>, a: K, b: K, l: Lang, v: string): map<K, map<K, map<Lang, string>>> {
    var inner := if a in d then d[a] else map[];
    var leaf := if b in inner then inner[b] else map[];
    d[a := inner[b := leaf[l := v]]]
  }

  /** An assignment never leaves an empty dictionary behind, and adds exactly its key to the top level. */
  lemma PutFilled<K>(d: map<K, map<K, map<Lang, string>>>, a: K, b: K, l: Lang, v: string)
    requires Filled(d)
    ensures Filled(Put(d, a, b, l, v))
    ensures Put(d, a, b, l, v).Keys == d.Keys + {a}
  {
    var inner := if a in d then d[a] else map[];
    var leaf := if b in inner then inner[b] else map[];
    var out := Put(d, a, b, l, v);
    assert l in leaf[l := v];
    assert b in inner[b := leaf[l := v]];
    forall a' | a' in out
      ensures out[a'] != map[] && forall b' :: b' in out[a'] ==> out[a'][b'] != map[]
    {
      if a' == a {
        assert b in out[a'];
        forall b' | b' in out[a'] ensures out[a'][b'] != map[] {
          if b' == b {
            assert l in out[a'][b'];
          } else {
            assert out[a'][b'] == inner[b'];
          }
        }
      } else {
        assert out[a'] == d[a'];
      }
    }
  }

  /** An assignment sets its own entry and leaves every other one as it was. */
  lemma PutGet<K>(d: map<K, map<K, map<Lang, string>>>, a: K, b: K, l: Lang, v: string, a': K, b': K, l': Lang)
    ensures Get(Put(d, a, b, l, v), a', b', l') == if a' == a && b' == b && l' == l then Some(v) else Get(d, a', b', l')
  {
  }

  /** `to_capture[cc_file][id][lang] = md5`. */
  function Insert(tc: Capture, e: Event): Capture {
    Put(tc, e.line.ccFile, e.line.id, e.lang, e.line.md5)
  }

  /** The loop that builds `to_capture` over the lines read so far. */
  function CaptureAll(ev: seq<Event>, downloaded: map<Lang, set<string>>): (tc: Capture)
    ensures Filled(tc)
  {
    if |ev| == 0 then map[]
    else
      var tc0 := CaptureAll(ev[..|ev| - 1], downloaded);
      var e := ev[|ev| - 1];
      if Skipped(e, downloaded) then tc0 else PutFilled(tc0, e.line.ccFile, e.line.id, e.lang, e.line.md5); Insert(tc0, e)
  }

  /** A line that sets the md5 for `(cc, id, l)`. */
  predicate Hits(e: Event, cc: string, id: string, l: Lang) {
    e.line.ccFile == cc && e.line.id == id && e.lang == l
  }

  /**
   * The reference reading: the md5 of the last line that names `(cc, id, l)` and is
   * not skipped. It exists exactly when such a line exists.
   */
  function LastMatch(ev: seq<Event>, downloaded: map<Lang, set<string>>, cc: string, id: string, l: Lang): (r: Option<string>)
    ensures r.Some? <==> exists j :: 0 <= j < |ev| && Hits(ev[j], cc, id, l) && !Skipped(ev[j], downloaded)
  {
    if |ev| == 0 then None
    else
      var e := ev[|ev| - 1];
      if Hits(e, cc, id, l) && !Skipped(e, downloaded) then Some(e.line.md5)
      else
        var r := LastMatch(ev[..|ev| - 1], downloaded, cc, id, l);
        assert forall j :: 0 <= j < |ev| - 1 ==> ev[..|ev| - 1][j] == ev[j];
        r
  }

  /** The md5 found is that of the last line naming the archive, id and language that is not skipped. */
  lemma {:induction false} LastMatchIsLast(ev: seq<Event>, downloaded: map<Lang, set<string>>, cc: string, id: string, l: Lang)
    returns (j: nat)
    requires LastMatch(ev, downloaded, cc, id, l).Some?
    ensures j < |ev| && Hits(ev[j], cc, id, l) && !Skipped(ev[j], downloaded)
    ensures ev[j].line.md5 == LastMatch(ev, downloaded, cc, id, l).value
    ensures forall k :: j < k < |ev| ==> !(Hits(ev[k], cc, id, l) && !Skipped(ev[k], downloaded))
  {
    var e := ev[|ev| - 1];
    if Hits(e, cc, id, l) && !Skipped(e, downloaded) {
      j := |ev| - 1;
    } else {
      var p := ev[..|ev| - 1];
      j := LastMatchIsLast(p, downloaded, cc, id, l);
      assert ev[j] == p[j];
    }
  }

  /** `to_capture` holds, for every archive, id and language, the md5 of the last line naming them. */
  lemma {:induction false} CaptureIsLastMatch(ev: seq<Event>, downloaded: map<Lang, set<string>>, cc: string, id: string, l: Lang)
    ensures Get(CaptureAll(ev, downloaded), cc, id, l) == LastMatch(ev, downloaded, cc, id, l)
  {
    if |ev| > 0 {
      CaptureIsLastMatch(ev[..|ev| - 1], downloaded, cc, id, l);
      if !Skipped(ev[|ev| - 1], downloaded) {
        var e := ev[|ev| - 1];
        PutGet(CaptureAll(ev[..|ev| - 1], downloaded), e.line.ccFile, e.line.id, e.lang, e.line.md5, cc, id, l);
      }
    }
  }

  /** An archive is in `to_capture` exactly when some line that is not skipped names it. */
  lemma CaptureKeys(ev: seq<Event>, downloaded: map<Lang, set<string>>, cc: string)
    ensures cc in CaptureAll(ev, downloaded) <==>
      exists j :: 0 <= j < |ev| && ev[j].line.ccFile == cc && !Skipped(ev[j], downloaded)
  {
    if cc in CaptureAll(ev, downloaded) {
      var j := CaptureKeysNamed(ev, downloaded, cc);
    }
    if exists j :: 0 <= j < |ev| && ev[j].line.ccFile == cc && !Skipped(ev[j], downloaded) {
      var j :| 0 <= j < |ev| && ev[j].line.ccFile == cc && !Skipped(ev[j], downloaded);
      CaptureKeysKept(ev, downloaded, j);
    }
  }

  /** Every archive in `to_capture` is named by a line that was not skipped. */
  lemma {:induction false} CaptureKeysNamed(ev: seq<Event>, downloaded: map<Lang, set<string>>, cc: string) returns (j: nat)
    requires cc in CaptureAll(ev, downloaded)
    ensures j < |ev| && ev[j].line.ccFile == cc && !Skipped(ev[j], downloaded)
  {
    var p := ev[..|ev| - 1];
    var e := ev[|ev| - 1];
    var tc0 := CaptureAll(p, downloaded);
    if !Skipped(e, downloaded) {
      PutFilled(tc0, e.line.ccFile, e.line.id, e.lang, e.line.md5);
    }
    if cc in tc0 {
      j := CaptureKeysNamed(p, downloaded, cc);
      assert p[j] == ev[j];
    } else {
      j := |ev| - 1;
    }
  }

  /** The archive of every line that is not skipped stays in `to_capture`. */
  lemma {:induction false} CaptureKeysKept(ev: seq<Event>, downloaded: map<Lang, set<string>>, j: nat)
    requires j < |ev| && !Skipped(ev[j], downloaded)
    ensures ev[j].line.ccFile in CaptureAll(ev, downloaded)
  {
    var p := ev[..|ev| - 1];
    var e := ev[|ev| - 1];
    var tc0 := CaptureAll(p, downloaded);
    if !Skipped(e, downloaded) {
      PutFilled(tc0, e.line.ccFile, e.line.id, e.lang, e.line.md5);
    }
    if j < |p| {
      assert p[j] == ev[j];
      CaptureKeysKept(p, downloaded, j);
    }
  }

  /** `LANGUAGES` lists every language. */
  lemma EveryLanguage()
    ensures forall l: Lang :: l in Languages
  {
    forall l: Lang ensures l in Languages {
      match l
      case Zho => assert Languages[0] == l;
      case Rus => assert Languages[1] == l;
      case Fas => assert Languages[2] == l;
    }
  }

  /** The languages that `main` visits whose output file already exists. */
  function Clashes(opts: Options, langs: seq<Lang>): (out: seq<Lang>)
    ensures forall l :: l in out <==> l in langs && l in opts.existing
  {
    if |langs| == 0 then []
    else (if langs[0] in opts.existing then [langs[0]] else []) + Clashes(opts, langs[1..])
  }

  /** The position of a language in `LANGUAGES`. */
  function Rank(l: Lang): (k: nat)
    ensures k < |Languages| && Languages[k] == l
  {
    match l
    case Zho => 0
    case Rus => 1
    case Fas => 2
  }

  /** `l`, when its flag was given and its output file already exists. */
  function Clash(opts: Options, l: Lang): seq<Lang> {
    if l in opts.idFiles && l in opts.existing then [l] else []
  }

  /** The clashing languages of `langs`, in order. */
  function ClashList(opts: Options, langs: seq<Lang>): seq<Lang> {
    if |langs| == 0 then [] else Clash(opts, langs[0]) + ClashList(opts, langs[1..])
  }

  lemma {:induction false} ClashesOfGiven(opts: Options, langs: seq<Lang>)
    ensures Clashes(opts, Given(opts.idFiles, langs)) == ClashList(opts, langs)
    decreases |langs|
  {
    if |langs| > 0 {
      var l := langs[0];
      var rest := Given(opts.idFiles, langs[1..]);
      ClashesOfGiven(opts, langs[1..]);
      if l in opts.idFiles {
        assert Given(opts.idFiles, langs) == [l] + rest;
        assert ([l] + rest)[1..] == rest;
      } else {
        assert Given(opts.idFiles, langs) == rest;
      }
    }
  }

  /** The languages `main` finds clashing, in `LANGUAGES` order. */
  lemma ClashOrder(opts: Options)
    ensures Clashes(opts, Given(opts.idFiles, Languages)) == Clash(opts, Zho) + Clash(opts, Rus) + Clash(opts, Fas)
  {
    ClashesOfGiven(opts, Languages);
    ClashListOfLanguages(opts);
  }

  lemma ClashListOfLanguages(opts: Options)
    ensures ClashList(opts, Languages) == Clash(opts, Zho) + Clash(opts, Rus) + Clash(opts, Fas)
  {
    assert [Fas][1..] == [];
    assert ClashList(opts, [Fas]) == Clash(opts, Fas);
    assert [Rus, Fas][1..] == [Fas];
    assert ClashList(opts, [Rus, Fas]) == Clash(opts, Rus) + Clash(opts, Fas);
    assert Languages[1..] == [Rus, Fas];
  }

  /** `main` has a language list exactly when some language flag was given. */
  lemma LanguagesGiven(opts: Options)
    ensures |Given(opts.idFiles, Languages)| == 0 <==> opts.idFiles == map[]
  {
    var langs := Given(opts.idFiles, Languages);
    EveryLanguage();
    if |langs| > 0 {
      assert langs[0] in langs;
    }
  }

  /**
   * `main` finds a clash exactly when some given language has an output file, and the
   * first clash is the earliest such language in `LANGUAGES` order.
   */
  lemma FirstClash(opts: Options)
    ensures var clashes := Clashes(opts, Given(opts.idFiles, Languages));
      && (|clashes| > 0 <==> exists l :: l in opts.idFiles && l in opts.existing)
      && (|clashes| > 0 ==> forall l :: l in opts.idFiles && l in opts.existing ==> Rank(clashes[0]) <= Rank(l))
  {
    var clashes := Clashes(opts, Given(opts.idFiles, Languages));
    EveryLanguage();
    if |clashes| > 0 {
      assert clashes[0] in clashes;
    }
    ClashOrder(opts);
  }

  /** `downloaded_doc_ids`: the ids already in each output file that survives the start. */
  function Downloaded(opts: Options, langs: seq<Lang>): map<Lang, set<string>> {
    map l | l in langs && l in opts.existing && !opts.restart :: set k | 0 <= k < |opts.existing[l]| :: opts.existing[l][k]
  }

  /**
   * `main` up to the dispatch of the workers: reject `--restart` with `--resume`,
   * delete existing outputs on restart, refuse an existing output otherwise unless
   * resuming (naming the first such language), require some language, build
   * `to_capture` skipping ids already downloaded, and require it to be non-empty.
   */
  function PlanRun(opts: Options): (r: Result<Plan, PlanError>)
    ensures r.Ok? ==> !(opts.restart && opts.resume)
    ensures r.Ok? ==> forall l :: l in opts.idFiles && l in opts.existing ==> opts.restart || opts.resume
    ensures r.Ok? ==> exists l :: l in opts.idFiles
    ensures r.Ok? ==> |r.value.capture| > 0 && Filled(r.value.capture)
    ensures r.Ok? ==> forall l :: l in r.value.deleted <==> opts.restart && l in opts.idFiles && l in opts.existing
    ensures r == Err(RestartAndResume) <==> opts.restart && opts.resume
    ensures r.Err? && r.error.FileExists? ==>
      && !opts.restart && !opts.resume
      && r.error.lang in opts.idFiles && r.error.lang in opts.existing
    ensures r.Err? && r.error.FileExists? <==>
      !opts.restart && !opts.resume && exists l :: l in opts.idFiles && l in opts.existing
    ensures r.Err? && r.error.FileExists? ==>
      forall l :: l in opts.idFiles && l in opts.existing ==> Rank(r.error.lang) <= Rank(l)
    ensures r == Err(NoLanguages) <==> !(opts.restart && opts.resume) && opts.idFiles == map[]
  {
    if opts.restart && opts.resume then Err(RestartAndResume)
    else
      var langs := Given(opts.idFiles, Languages);
      EveryLanguage();
      var clashes := Clashes(opts, langs);
      LanguagesGiven(opts);
      FirstClash(opts);
      if !opts.restart && !opts.resume && |clashes| > 0 then
        assert clashes[0] in clashes;
        Err(FileExists(clashes[0]))
      else if |langs| == 0 then Err(NoLanguages)
      else
        var tc := CaptureAll(AllEvents(opts.idFiles, langs), Downloaded(opts, langs));
        if |tc| == 0 then Err(NothingToCapture)
        else
          assert langs[0] in langs;
          Ok(Plan((set l | l in langs && opts.restart && l in opts.existing), tc))
  }

  /**
   * On a resumed run, a document already in a language's output file is not wanted
   * again for that language, from any archive.
   */
  lemma ResumeSkipsDownloaded(opts: Options, cc: string, id: string, l: Lang)
    requires PlanRun(opts).Ok? && !opts.restart
    requires l in opts.existing && id in opts.existing[l]
    ensures Get(PlanRun(opts).value.capture, cc, id, l) == None
  {
    var langs := Given(opts.idFiles, Languages);
    var ev := AllEvents(opts.idFiles, langs);
    var dl := Downloaded(opts, langs);
    CaptureIsLastMatch(ev, dl, cc, id, l);
    var k :| 0 <= k < |opts.existing[l]| && opts.existing[l][k] == id;
    forall j | 0 <= j < |ev| && Hits(ev[j], cc, id, l)
      ensures Skipped(ev[j], dl)
    {
      assert l in langs;
      assert id in dl[l];
    }
  }

  /**
   * On a restarted run nothing counts as downloaded: every line read from the id files
   * puts its archive, id and language into `to_capture`.
   */
  lemma RestartCapturesAll(opts: Options, j: nat)
    requires PlanRun(opts).Ok? && opts.restart
    requires j < |AllEvents(opts.idFiles, Given(opts.idFiles, Languages))|
    ensures var e := AllEvents(opts.idFiles, Given(opts.idFiles, Languages))[j];
      Get(PlanRun(opts).value.capture, e.line.ccFile, e.line.id, e.lang).Some?
  {
    var langs := Given(opts.idFiles, Languages);
    var ev := AllEvents(opts.idFiles, langs);
    var e := ev[j];
    assert Downloaded(opts, langs) == map[];
    assert Hits(e, e.line.ccFile, e.line.id, e.lang);
    CaptureIsLastMatch(ev, Downloaded(opts, langs), e.line.ccFile, e.line.id, e.lang);
  }

  /**
   * Whatever the flags, once `main` starts, a line read from the id files is in
   * `to_capture` exactly when its document is not already in its language's output
   * file, which counts only without restart; its md5 is that of the last such line.
   */
  lemma CapturedIffNotDownloaded(opts: Options, j: nat)
    requires PlanRun(opts).Ok?
    requires j < |AllEvents(opts.idFiles, Given(opts.idFiles, Languages))|
    ensures var langs := Given(opts.idFiles, Languages);
      var ev := AllEvents(opts.idFiles, langs);
      var e := ev[j];
      var got := Get(PlanRun(opts).value.capture, e.line.ccFile, e.line.id, e.lang);
      && (got.Some? <==> !(!opts.restart && e.lang in opts.existing && e.line.id in opts.existing[e.lang]))
      && got == LastMatch(ev, Downloaded(opts, langs), e.line.ccFile, e.line.id, e.lang)
  {
    var langs := Given(opts.idFiles, Languages);
    var ev := AllEvents(opts.idFiles, langs);
    var dl := Downloaded(opts, langs);
    var e := ev[j];
    assert e.lang in langs;
    assert Hits(e, e.line.ccFile, e.line.id, e.lang);
    CaptureIsLastMatch(ev, dl, e.line.ccFile, e.line.id, e.lang);
    if !opts.restart && e.lang in opts.existing && e.line.id in opts.existing[e.lang] {
      ResumeSkipsDownloaded(opts, e.line.ccFile, e.line.id, e.lang);
    } else {
      assert !Skipped(e, dl);
    }
  }

  /** Every line read names a document already downloaded for its language. */
  predicate AllSkipped(ev: seq<Event>, downloaded: map<Lang, set<string>>) {
    forall j :: 0 <= j < |ev| ==> Skipped(ev[j], downloaded)
  }

  /** Nothing is to be captured exactly when every line read was already downloaded. */
  lemma NothingCaptured(ev: seq<Event>, downloaded: map<Lang, set<string>>)
    ensures |CaptureAll(ev, downloaded)| == 0 <==> AllSkipped(ev, downloaded)
  {
    var tc := CaptureAll(ev, downloaded);
    if |tc| == 0 {
      forall j | 0 <= j < |ev| ensures Skipped(ev[j], downloaded) {
        CaptureKeys(ev, downloaded, ev[j].line.ccFile);
      }
    } else {
      var cc :| cc in tc;
      CaptureKeys(ev, downloaded, cc);
    }
  }

  /**
   * `main` stops with "No documents need to be captured." exactly when it passed the
   * option checks, some language was given, and every line read was already downloaded.
   */
  lemma NothingLeftIffAllDownloaded(opts: Options)
    ensures var langs := Given(opts.idFiles, Languages);
      PlanRun(opts) == Err(NothingToCapture) <==>
        && !(opts.restart && opts.resume)
        && (opts.restart || opts.resume || forall l :: l in opts.idFiles ==> l !in opts.existing)
        && opts.idFiles != map[]
        && AllSkipped(AllEvents(opts.idFiles, langs), Downloaded(opts, langs))
  {
    var langs := Given(opts.idFiles, Languages);
    var tc := CaptureAll(AllEvents(opts.idFiles, langs), Downloaded(opts, langs));
    LanguagesGiven(opts);
    FirstClash(opts);
    NothingCaptured(AllEvents(opts.idFiles, langs), Downloaded(opts, langs));
    if opts.restart && opts.resume {
      assert PlanRun(opts) == Err(RestartAndResume);
    } else if !opts.restart && !opts.resume && exists l :: l in opts.idFiles && l in opts.existing {
      assert PlanRun(opts).Err? && PlanRun(opts).error.FileExists?;
    } else if opts.idFiles == map[] {
      assert PlanRun(opts) == Err(NoLanguages);
    } else {
      assert PlanRun(opts) == Err(NothingToCapture) <==> |tc| == 0;
    }
  }
}
