/**
 * `process_cc_file`: fetching one archive, extracting and fingerprinting the
 * wanted records, and the retry loop around it. Article extraction and the md5
 * digest are parameters; each attempt re-opens the archive, so the archive seen
 * by attempt `k` is the parameter `fetch(k)`.
 */
module Worker {
  import opened Wrappers
  import opened Documents
  import opened Warc
  import opened Seqs

  /** `want_idx`: record id to language to expected md5. */
  type WantIdx = map<string, map<Lang, string>>

  /** One call of `process_cc_file`: the archive name, its want-list and whether hashes are checked strictly. */
  datatype Job = Job(ccFile: string, want: WantIdx, validate: bool)

  /** The collaborators the model does not interpret: article extraction (`None` when it raises) and the md5 digest. */
  datatype Env = Env(extract: WarcRecord -> Option<Article>, md5: string -> string)

  /** One append `saved_docs[lang].append(doc)`. */
  datatype Entry = Entry(lang: Lang, doc: Doc)

  /**
   * Why an attempt stops without success: a strict hash mismatch or the
   * completeness assertion (both `AssertionError`), any other exception, or a
   * keyboard interrupt.
   */
  datatype Failure = HashMismatch(rid: string, lang: Lang) | Incomplete | Transient | Interrupt

  /** The failures that consume one retry instead of propagating. */
  predicate Retryable(f: Option<Failure>) {
    f.Some? && !f.value.Interrupt?
  }

  /**
   * The result of one attempt: the entries it appended to `saved_docs` (also when it
   * failed part-way), the ids it marked found, how many yielded items it pulled, and
   * how it ended (`None` when it set `success`).
   */
  datatype Attempt = Attempt(entries: seq<Entry>, found: set<string>, consumed: nat, failure: Option<Failure>)

  // ---------------------------------------------------------------------------
  // Reference definitions
  // ---------------------------------------------------------------------------

  /** The per-language documents list `saved_docs[lang]` held inside a sequence of appends. */
  function ForLang(es: seq<Entry>, l: Lang): seq<Doc> {
    if |es| == 0 then [] else (if es[0].lang == l then [es[0].doc] else []) + ForLang(es[1..], l)
  }

  /** The languages of `langs` that a want-list entry names, in the order of `langs`. */
  function WantedLangs(wanted: map<Lang, string>, langs: seq<Lang>): seq<Lang> {
    if |langs| == 0 then []
    else (if langs[0] in wanted then [langs[0]] else []) + WantedLangs(wanted, langs[1..])
  }

  /** One append of `doc` per language of `langs`, in order. */
  function EntriesFor(doc: Doc, langs: seq<Lang>): seq<Entry> {
    if |langs| == 0 then [] else [Entry(langs[0], doc)] + EntriesFor(doc, langs[1..])
  }

  /** The appends one yielded item causes when it is processed without an exception. */
  function RecordEntries(job: Job, env: Env, it: Item): seq<Entry> {
    if it.rid in job.want then
      match env.extract(it.record)
      case Some(a) => EntriesFor(MakeDoc(it.rid, job.ccFile, a), WantedLangs(job.want[it.rid], Languages))
      case None => []
    else []
  }

  /** The appends caused by the items `i` to `k - 1`. */
  function EntriesBetween(job: Job, env: Env, items: seq<Item>, i: nat, k: nat): seq<Entry>
    requires k <= |items|
    decreases k - i
  {
    if i >= k then [] else RecordEntries(job, env, items[i]) + EntriesBetween(job, env, items, i + 1, k)
  }

  /** The wanted record ids among the items `i` to `k - 1`. */
  function WantedBetween(items: seq<Item>, want: WantIdx, i: nat, k: nat): set<string>
    requires k <= |items|
    decreases k - i
  {
    if i >= k then {}
    else (if items[i].rid in want then {items[i].rid} else {}) + WantedBetween(items, want, i + 1, k)
  }

  /** Peeling the first item off `WantedBetween`. */
  lemma WantedBetweenStep(items: seq<Item>, want: WantIdx, i: nat)
    requires i < |items|
    ensures forall k :: i < k <= |items| ==>
      WantedBetween(items, want, i, k) == (if items[i].rid in want then {items[i].rid} else {}) + WantedBetween(items, want, i + 1, k)
  {
  }

  /** An append whose document carries the md5 the want-list expects for that language. */
  predicate Matches(job: Job, env: Env, e: Entry) {
    && e.doc.id in job.want
    && e.lang in job.want[e.doc.id]
    && job.want[e.doc.id][e.lang] == HashDoc(env.md5, e.doc)
  }

  predicate AllMatch(job: Job, env: Env, es: seq<Entry>) {
    forall j :: 0 <= j < |es| ==> Matches(job, env, es[j])
  }

  // ---------------------------------------------------------------------------
  // One attempt
  // ---------------------------------------------------------------------------

  /** What the loop over `want_idx[rid]` appended, and the mismatch that stopped it, if any. */
  datatype LangStep = LangStep(entries: seq<Entry>, failure: Option<Failure>)

  /**
   * The loop over the languages that want one found document: compare the
   * fingerprint `h` with each language's expected md5, raise on a mismatch when
   * validating, and append the document otherwise.
   */
  function AppendLangs(wanted: map<Lang, string>, h: string, validate: bool, doc: Doc, langs: seq<Lang>): (s: LangStep)
    ensures s.failure.None? <==> (!validate || forall j :: 0 <= j < |langs| && langs[j] in wanted ==> wanted[langs[j]] == h)
    ensures s.failure.None? ==> s.entries == EntriesFor(doc, WantedLangs(wanted, langs))
    ensures s.failure.Some? ==>
      && validate
      && s.failure.value.HashMismatch? && s.failure.value.rid == doc.id
      && s.failure.value.lang in wanted && wanted[s.failure.value.lang] != h
    ensures forall j :: 0 <= j < |s.entries| ==> s.entries[j].doc == doc && s.entries[j].lang in wanted
    ensures validate ==> forall j :: 0 <= j < |s.entries| ==> wanted[s.entries[j].lang] == h
  {
    if |langs| == 0 then LangStep([], None)
    else
      var l := langs[0];
      AgreeTail(wanted, h, langs);
      if l !in wanted then
        assert WantedLangs(wanted, langs) == WantedLangs(wanted, langs[1..]);
        AppendLangs(wanted, h, validate, doc, langs[1..])
      else if wanted[l] != h && validate then
        LangStep([], Some(HashMismatch(doc.id, l)))
      else
        var rest := AppendLangs(wanted, h, validate, doc, langs[1..]);
        assert WantedLangs(wanted, langs) == [l] + WantedLangs(wanted, langs[1..]);
        LangStep([Entry(l, doc)] + rest.entries, rest.failure)
  }

  /**
   * The loop over the languages appends a prefix of the wanted languages' entries; when
   * it raises, the entry of the language it raised on comes right after that prefix.
   */
  lemma {:induction false} AppendLangsPrefix(wanted: map<Lang, string>, h: string, validate: bool, doc: Doc, langs: seq<Lang>)
    ensures var s := AppendLangs(wanted, h, validate, doc, langs);
      var all := EntriesFor(doc, WantedLangs(wanted, langs));
      && |s.entries| <= |all|
      && s.entries == all[..|s.entries|]
      && (s.failure.Some? ==> |s.entries| < |all| && all[|s.entries|] == Entry(s.failure.value.lang, doc))
  {
    if |langs| > 0 {
      var l := langs[0];
      if l !in wanted {
        assert WantedLangs(wanted, langs) == WantedLangs(wanted, langs[1..]);
        AppendLangsPrefix(wanted, h, validate, doc, langs[1..]);
      } else if wanted[l] != h && validate {
        assert WantedLangs(wanted, langs) == [l] + WantedLangs(wanted, langs[1..]);
      } else {
        var rest := AppendLangs(wanted, h, validate, doc, langs[1..]);
        var all := EntriesFor(doc, WantedLangs(wanted, langs[1..]));
        AppendLangsPrefix(wanted, h, validate, doc, langs[1..]);
        assert WantedLangs(wanted, langs) == [l] + WantedLangs(wanted, langs[1..]);
        assert EntriesFor(doc, WantedLangs(wanted, langs)) == [Entry(l, doc)] + all;
        TakeCons(Entry(l, doc), all, |rest.entries| + 1);
      }
    }
  }

  /** Every wanting language of `langs` expects `h` exactly when the first does (if it wants) and the rest do. */
  lemma AgreeTail(wanted: map<Lang, string>, h: string, langs: seq<Lang>)
    requires |langs| > 0
    ensures (forall j :: 0 <= j < |langs| && langs[j] in wanted ==> wanted[langs[j]] == h)
      <==> ((langs[0] in wanted ==> wanted[langs[0]] == h)
        && (forall j :: 0 <= j < |langs[1..]| && langs[1..][j] in wanted ==> wanted[langs[1..][j]] == h))
  {
    if forall j :: 0 <= j < |langs[1..]| && langs[1..][j] in wanted ==> wanted[langs[1..][j]] == h {
      forall j | 1 <= j < |langs| && langs[j] in wanted
        ensures wanted[langs[j]] == h
      {
        assert langs[1..][j - 1] == langs[j];
      }
    }
  }

  /** A subset is no larger than its superset, and one of the same size is the whole superset. */
  lemma {:induction false} SubsetSize<T>(a: set<T>, b: set<T>)
    requires a <= b
    ensures |a| <= |b|
    ensures |a| == |b| ==> a == b
    decreases |b|
  {
    if b != {} {
      var y :| y in b;
      SubsetSize(a - {y}, b - {y});
      if y in a {
        assert a == (a - {y}) + {y};
        assert b == (b - {y}) + {y};
      } else {
        assert a - {y} == a;
      }
    }
  }

  /** The end of an attempt that pulled no further items: the completeness assertion when validating. */
  function Finish(job: Job, found: set<string>, consumed: nat, entries: seq<Entry>): (a: Attempt)
    requires found <= job.want.Keys
    ensures a.entries == entries && a.found == found && a.consumed == consumed
    ensures a.failure.None? <==> (!job.validate || found == job.want.Keys)
    ensures a.failure.Some? ==> a.failure == Some(Incomplete)
  {
    SubsetSize(found, job.want.Keys);
    if job.validate && |found| != |job.want| then Attempt(entries, found, consumed, Some(Incomplete))
    else Attempt(entries, found, consumed, None)
  }

  /**
   * The `for rid, record in read_warc_gz(cc_file)` loop from item `i` on, with
   * `found` the ids already found: process wanted records, stop early once every
   * wanted id is found, and on exhaustion apply the completeness assertion.
   */
  function Consume(job: Job, env: Env, items: seq<Item>, end: StreamEnd, i: nat, found: set<string>): (a: Attempt)
    requires i <= |items|
    requires found <= job.want.Keys
    ensures a.found <= job.want.Keys
    ensures i <= a.consumed <= |items|
    ensures forall k :: i < k < a.consumed ==> |found + WantedBetween(items, job.want, i, k)| < |job.want|
    ensures a.failure.None? ==> a.found == found + WantedBetween(items, job.want, i, a.consumed)
    ensures a.failure.None? ==> a.entries == EntriesBetween(job, env, items, i, a.consumed)
    ensures a.failure.None? && a.consumed < |items| ==> a.found == job.want.Keys
    ensures a.failure.None? && a.found != job.want.Keys ==> a.consumed == |items| && end.Complete?
    decreases |items| - i, 3
  {
    if i == |items| then Exhausted(job, end, i, found)
    else if items[i].rid in job.want then ConsumeWanted(job, env, items, end, i, found)
    else Skip(job, env, items, end, i, found)
  }

  /** The stream ran out: the completeness assertion, or the exception that ended it. */
  function Exhausted(job: Job, end: StreamEnd, i: nat, found: set<string>): (a: Attempt)
    requires found <= job.want.Keys
    ensures a.found == found && a.consumed == i && a.entries == []
    ensures a.failure.None? <==> end.Complete? && (!job.validate || found == job.want.Keys)
  {
    SubsetSize(found, job.want.Keys);
    match end
    case Complete => Finish(job, found, i, [])
    case Broken => Attempt([], found, i, Some(Transient))
    case Interrupted => Attempt([], found, i, Some(Interrupt))
  }

  /** The loop body for an unwanted record: the early-stop check, then the next record. */
  function Skip(job: Job, env: Env, items: seq<Item>, end: StreamEnd, i: nat, found: set<string>): (a: Attempt)
    requires i < |items| && items[i].rid !in job.want
    requires found <= job.want.Keys
    ensures a.found <= job.want.Keys
    ensures i <= a.consumed <= |items|
    ensures forall k :: i < k < a.consumed ==> |found + WantedBetween(items, job.want, i, k)| < |job.want|
    ensures a.failure.None? ==> a.found == found + WantedBetween(items, job.want, i, a.consumed)
    ensures a.failure.None? ==> a.entries == EntriesBetween(job, env, items, i, a.consumed)
    ensures a.failure.None? && a.consumed < |items| ==> a.found == job.want.Keys
    ensures a.failure.None? && a.found != job.want.Keys ==> a.consumed == |items| && end.Complete?
    decreases |items| - i, 2
  {
    SubsetSize(found, job.want.Keys);
    SkipBetween(job, env, items, i);
    if |found| == |job.want| then
      Finish(job, found, i + 1, [])
    else
      Consume(job, env, items, end, i + 1, found)
  }

  /** An unwanted item contributes neither ids nor appends. */
  lemma SkipBetween(job: Job, env: Env, items: seq<Item>, i: nat)
    requires i < |items| && items[i].rid !in job.want
    ensures forall k :: i < k <= |items| ==> WantedBetween(items, job.want, i, k) == WantedBetween(items, job.want, i + 1, k)
    ensures forall k :: i < k <= |items| ==> EntriesBetween(job, env, items, i, k) == EntriesBetween(job, env, items, i + 1, k)
    ensures WantedBetween(items, job.want, i + 1, i + 1) == {} && EntriesBetween(job, env, items, i + 1, i + 1) == []
  {
    WantedBetweenStep(items, job.want, i);
    assert RecordEntries(job, env, items[i]) == [];
  }

  /**
   * The loop body for a wanted record: extract the article, then check and append it
   * for every language that wants it.
   */
  function ConsumeWanted(job: Job, env: Env, items: seq<Item>, end: StreamEnd, i: nat, found: set<string>): (a: Attempt)
    requires i < |items| && items[i].rid in job.want
    requires found <= job.want.Keys
    ensures a.found <= job.want.Keys
    ensures i <= a.consumed <= |items|
    ensures forall k :: i < k < a.consumed ==> |found + WantedBetween(items, job.want, i, k)| < |job.want|
    ensures a.failure.None? ==> a.found == found + WantedBetween(items, job.want, i, a.consumed)
    ensures a.failure.None? ==> a.entries == EntriesBetween(job, env, items, i, a.consumed)
    ensures a.failure.None? && a.consumed < |items| ==> a.found == job.want.Keys
    ensures a.failure.None? && a.found != job.want.Keys ==> a.consumed == |items| && end.Complete?
    decreases |items| - i, 1
  {
    var it := items[i];
    match env.extract(it.record)
    case None => Attempt([], found, i + 1, Some(Transient))
    case Some(art) =>
      var doc := MakeDoc(it.rid, job.ccFile, art);
      var step := AppendLangs(job.want[it.rid], HashDoc(env.md5, doc), job.validate, doc, Languages);
      if step.failure.Some? then
        Attempt(step.entries, found, i + 1, step.failure)
      else
        Advance(job, env, items, end, i, found, step.entries)
  }

  /**
   * The rest of the loop body once a wanted record was appended for all its languages:
   * mark it found, then stop early if every wanted id is found or carry on.
   */
  function Advance(job: Job, env: Env, items: seq<Item>, end: StreamEnd, i: nat, found: set<string>, appended: seq<Entry>): (a: Attempt)
    requires i < |items| && items[i].rid in job.want
    requires found <= job.want.Keys
    requires appended == RecordEntries(job, env, items[i])
    ensures a.found <= job.want.Keys
    ensures i <= a.consumed <= |items|
    ensures forall k :: i < k < a.consumed ==> |found + WantedBetween(items, job.want, i, k)| < |job.want|
    ensures a.failure.None? ==> a.found == found + WantedBetween(items, job.want, i, a.consumed)
    ensures a.failure.None? ==> a.entries == EntriesBetween(job, env, items, i, a.consumed)
    ensures a.failure.None? && a.consumed < |items| ==> a.found == job.want.Keys
    ensures a.failure.None? && a.found != job.want.Keys ==> a.consumed == |items| && end.Complete?
    decreases |items| - i, 0
  {
    var found' := found + {items[i].rid};
    SubsetSize(found', job.want.Keys);
    if |found'| == |job.want| then
      Finish(job, found', i + 1, appended)
    else
      var rest := Consume(job, env, items, end, i + 1, found');
      WantedBetweenStep(items, job.want, i);
      assert WantedBetween(items, job.want, i + 1, i + 1) == {};
      assert forall k :: i < k <= |items| ==>
        found + WantedBetween(items, job.want, i, k) == found' + WantedBetween(items, job.want, i + 1, k);
      rest.(entries := appended + rest.entries)
  }

  /** `P` of an attempt under strict validation: success means every wanted id found, and every append matches. */
  predicate StrictOk(job: Job, env: Env, a: Attempt) {
    && (a.failure.None? ==> a.found == job.want.Keys)
    && AllMatch(job, env, a.entries)
  }

  /**
   * Under strict validation an attempt that succeeds has found every wanted id, and
   * every document it appended (also in an attempt that fails) carries the md5 its
   * language expects.
   */
  lemma {:induction false} ConsumeValidated(job: Job, env: Env, items: seq<Item>, end: StreamEnd, i: nat, found: set<string>)
    requires i <= |items|
    requires found <= job.want.Keys
    requires job.validate
    ensures StrictOk(job, env, Consume(job, env, items, end, i, found))
    decreases |items| - i, 2
  {
    SubsetSize(found, job.want.Keys);
    if i < |items| {
      if items[i].rid in job.want {
        WantedValidated(job, env, items, end, i, found);
      } else if |found| != |job.want| {
        assert Consume(job, env, items, end, i, found) == Consume(job, env, items, end, i + 1, found);
        ConsumeValidated(job, env, items, end, i + 1, found);
      } else {
        assert Consume(job, env, items, end, i, found) == Finish(job, found, i + 1, []);
      }
    } else {
      assert Consume(job, env, items, end, i, found) == Exhausted(job, end, i, found);
    }
  }

  lemma {:induction false} WantedValidated(job: Job, env: Env, items: seq<Item>, end: StreamEnd, i: nat, found: set<string>)
    requires i < |items| && items[i].rid in job.want
    requires found <= job.want.Keys
    requires job.validate
    ensures StrictOk(job, env, ConsumeWanted(job, env, items, end, i, found))
    decreases |items| - i, 1
  {
    var it := items[i];
    if env.extract(it.record).Some? {
      var doc := MakeDoc(it.rid, job.ccFile, env.extract(it.record).value);
      var step := AppendLangs(job.want[it.rid], HashDoc(env.md5, doc), job.validate, doc, Languages);
      if step.failure.None? {
        assert ConsumeWanted(job, env, items, end, i, found) == Advance(job, env, items, end, i, found, step.entries);
        StepMatches(job, env, it.rid, doc, step);
        AdvanceValidated(job, env, items, end, i, found, step.entries);
      } else {
        StepMatches(job, env, it.rid, doc, step);
        assert ConsumeWanted(job, env, items, end, i, found) == Attempt(step.entries, found, i + 1, step.failure);
      }
    }
  }

  /** The appends for one record under strict validation all match. */
  lemma StepMatches(job: Job, env: Env, rid: string, doc: Doc, step: LangStep)
    requires rid in job.want && doc.id == rid && job.validate
    requires step == AppendLangs(job.want[rid], HashDoc(env.md5, doc), true, doc, Languages)
    ensures AllMatch(job, env, step.entries)
  {
  }

  lemma {:induction false} AdvanceValidated(job: Job, env: Env, items: seq<Item>, end: StreamEnd, i: nat, found: set<string>, appended: seq<Entry>)
    requires i < |items| && items[i].rid in job.want
    requires found <= job.want.Keys
    requires appended == RecordEntries(job, env, items[i])
    requires AllMatch(job, env, appended)
    requires job.validate
    ensures StrictOk(job, env, Advance(job, env, items, end, i, found, appended))
    decreases |items| - i, 0
  {
    var found' := found + {items[i].rid};
    SubsetSize(found', job.want.Keys);
    if |found'| != |job.want| {
      ConsumeValidated(job, env, items, end, i + 1, found');
      var rest := Consume(job, env, items, end, i + 1, found');
      assert Advance(job, env, items, end, i, found, appended).entries == appended + rest.entries;
    }
  }

  /**
   * Why an attempt fails: a keyboard interrupt only from the stream, another exception
   * only from the stream or from extracting a wanted record, and an `AssertionError`
   * only under strict validation, from a mismatching language of a pulled wanted
   * record or from the completeness check at the end of the stream.
   */
  predicate FailureExplained(job: Job, env: Env, items: seq<Item>, end: StreamEnd, i: nat, a: Attempt)
    requires i <= a.consumed <= |items|
  {
    && (a.failure == Some(Interrupt) ==> a.consumed == |items| && end.Interrupted?)
    && (a.failure == Some(Transient) ==>
          || (a.consumed == |items| && end.Broken?)
          || (a.consumed > i && items[a.consumed - 1].rid in job.want && env.extract(items[a.consumed - 1].record).None?))
    && (a.failure == Some(Incomplete) ==>
          job.validate && a.consumed == |items| && end.Complete? && a.found != job.want.Keys)
    && (a.failure.Some? && a.failure.value.HashMismatch? ==>
          var f := a.failure.value;
          && job.validate && a.consumed > i && items[a.consumed - 1].rid == f.rid && f.rid in job.want
          && f.lang in job.want[f.rid] && env.extract(items[a.consumed - 1].record).Some?
          && job.want[f.rid][f.lang]
             != HashDoc(env.md5, MakeDoc(f.rid, job.ccFile, env.extract(items[a.consumed - 1].record).value)))
  }

  lemma {:induction false} ConsumeFailures(job: Job, env: Env, items: seq<Item>, end: StreamEnd, i: nat, found: set<string>)
    requires i <= |items|
    requires found <= job.want.Keys
    ensures FailureExplained(job, env, items, end, i, Consume(job, env, items, end, i, found))
    decreases |items| - i, 2
  {
    SubsetSize(found, job.want.Keys);
    if i < |items| {
      if items[i].rid in job.want {
        WantedFailures(job, env, items, end, i, found);
      } else if |found| != |job.want| {
        var a := Consume(job, env, items, end, i + 1, found);
        assert Consume(job, env, items, end, i, found) == a;
        ConsumeFailures(job, env, items, end, i + 1, found);
        FailureShift(job, env, items, end, i, i + 1, a, a);
      } else {
        assert Consume(job, env, items, end, i, found) == Finish(job, found, i + 1, []);
      }
    } else {
      assert Consume(job, env, items, end, i, found) == Exhausted(job, end, i, found);
    }
  }

  lemma {:induction false} WantedFailures(job: Job, env: Env, items: seq<Item>, end: StreamEnd, i: nat, found: set<string>)
    requires i < |items| && items[i].rid in job.want
    requires found <= job.want.Keys
    ensures FailureExplained(job, env, items, end, i, ConsumeWanted(job, env, items, end, i, found))
    decreases |items| - i, 1
  {
    var it := items[i];
    var a := ConsumeWanted(job, env, items, end, i, found);
    match env.extract(it.record)
    case None =>
      assert a == Attempt([], found, i + 1, Some(Transient));
    case Some(art) =>
      var doc := MakeDoc(it.rid, job.ccFile, art);
      var step := AppendLangs(job.want[it.rid], HashDoc(env.md5, doc), job.validate, doc, Languages);
      if step.failure.None? {
        assert a == Advance(job, env, items, end, i, found, step.entries);
        AdvanceFailures(job, env, items, end, i, found, step.entries);
      } else {
        assert a == Attempt(step.entries, found, i + 1, step.failure);
        MismatchExplained(job, env, items, end, i, found, step);
      }
  }

  /** A language loop that raised explains the attempt it ends. */
  lemma MismatchExplained(job: Job, env: Env, items: seq<Item>, end: StreamEnd, i: nat, found: set<string>, step: LangStep)
    requires i < |items| && items[i].rid in job.want && env.extract(items[i].record).Some?
    requires step == AppendLangs(job.want[items[i].rid], HashDoc(env.md5, MakeDoc(items[i].rid, job.ccFile, env.extract(items[i].record).value)), job.validate, MakeDoc(items[i].rid, job.ccFile, env.extract(items[i].record).value), Languages)
    requires step.failure.Some?
    ensures FailureExplained(job, env, items, end, i, Attempt(step.entries, found, i + 1, step.failure))
  {
  }

  lemma {:induction false} AdvanceFailures(job: Job, env: Env, items: seq<Item>, end: StreamEnd, i: nat, found: set<string>, appended: seq<Entry>)
    requires i < |items| && items[i].rid in job.want
    requires found <= job.want.Keys
    requires appended == RecordEntries(job, env, items[i])
    ensures FailureExplained(job, env, items, end, i, Advance(job, env, items, end, i, found, appended))
    decreases |items| - i, 0
  {
    var found' := found + {items[i].rid};
    SubsetSize(found', job.want.Keys);
    if |found'| != |job.want| {
      var a := Consume(job, env, items, end, i + 1, found');
      assert Advance(job, env, items, end, i, found, appended) == a.(entries := appended + a.entries);
      ConsumeFailures(job, env, items, end, i + 1, found');
      FailureShift(job, env, items, end, i, i + 1, a, a.(entries := appended + a.entries));
    }
  }

  /**
   * An explanation of an attempt that consumed from item `j` on still holds counted from
   * an earlier item, and for any attempt that differs from it only in its appends.
   */
  lemma FailureShift(job: Job, env: Env, items: seq<Item>, end: StreamEnd, i: nat, j: nat, a: Attempt, b: Attempt)
    requires i <= j <= a.consumed <= |items|
    requires b == a.(entries := b.entries)
    requires FailureExplained(job, env, items, end, j, a)
    ensures FailureExplained(job, env, items, end, i, b)
  {
  }

  /**
   * What a failed attempt leaves appended to `saved_docs`: everything the records it
   * pulled appended, except after a mismatch, where the mismatching record's appends
   * stop just before the language whose md5 differed.
   */
  predicate FailedAppends(job: Job, env: Env, items: seq<Item>, i: nat, a: Attempt)
    requires i <= a.consumed <= |items|
  {
    a.failure.Some? ==>
      var all := EntriesBetween(job, env, items, i, a.consumed);
      if a.failure.value.HashMismatch? then
        && i < a.consumed
        && |EntriesBetween(job, env, items, i, a.consumed - 1)| <= |a.entries| < |all|
        && a.entries == all[..|a.entries|]
        && all[|a.entries|].lang == a.failure.value.lang
        && all[|a.entries|].doc.id == a.failure.value.rid
      else
        a.entries == all
  }

  lemma {:induction false} ConsumeAppends(job: Job, env: Env, items: seq<Item>, end: StreamEnd, i: nat, found: set<string>)
    requires i <= |items|
    requires found <= job.want.Keys
    ensures FailedAppends(job, env, items, i, Consume(job, env, items, end, i, found))
    decreases |items| - i, 2
  {
    SubsetSize(found, job.want.Keys);
    if i < |items| {
      if items[i].rid in job.want {
        WantedAppends(job, env, items, end, i, found);
      } else if |found| != |job.want| {
        var a := Consume(job, env, items, end, i + 1, found);
        assert Consume(job, env, items, end, i, found) == a;
        ConsumeAppends(job, env, items, end, i + 1, found);
        SkipBetween(job, env, items, i);
      } else {
        assert Consume(job, env, items, end, i, found) == Finish(job, found, i + 1, []);
      }
    } else {
      assert Consume(job, env, items, end, i, found) == Exhausted(job, end, i, found);
    }
  }

  lemma {:induction false} WantedAppends(job: Job, env: Env, items: seq<Item>, end: StreamEnd, i: nat, found: set<string>)
    requires i < |items| && items[i].rid in job.want
    requires found <= job.want.Keys
    ensures FailedAppends(job, env, items, i, ConsumeWanted(job, env, items, end, i, found))
    decreases |items| - i, 1
  {
    var it := items[i];
    var a := ConsumeWanted(job, env, items, end, i, found);
    assert EntriesBetween(job, env, items, i, i + 1) == RecordEntries(job, env, it);
    match env.extract(it.record)
    case None =>
      assert a == Attempt([], found, i + 1, Some(Transient));
    case Some(art) =>
      var doc := MakeDoc(it.rid, job.ccFile, art);
      var step := AppendLangs(job.want[it.rid], HashDoc(env.md5, doc), job.validate, doc, Languages);
      if step.failure.None? {
        assert a == Advance(job, env, items, end, i, found, step.entries);
        AdvanceAppends(job, env, items, end, i, found, step.entries);
      } else {
        AppendLangsPrefix(job.want[it.rid], HashDoc(env.md5, doc), job.validate, doc, Languages);
        assert a == Attempt(step.entries, found, i + 1, step.failure);
      }
  }

  lemma {:induction false} AdvanceAppends(job: Job, env: Env, items: seq<Item>, end: StreamEnd, i: nat, found: set<string>, appended: seq<Entry>)
    requires i < |items| && items[i].rid in job.want
    requires found <= job.want.Keys
    requires appended == RecordEntries(job, env, items[i])
    ensures FailedAppends(job, env, items, i, Advance(job, env, items, end, i, found, appended))
    decreases |items| - i, 0
  {
    var found' := found + {items[i].rid};
    SubsetSize(found', job.want.Keys);
    if |found'| != |job.want| {
      var a := Consume(job, env, items, end, i + 1, found');
      assert Advance(job, env, items, end, i, found, appended) == a.(entries := appended + a.entries);
      ConsumeAppends(job, env, items, end, i + 1, found');
      AppendsShift(job, env, items, i, a, appended);
    }
  }

  /** Putting the appends of item `i` in front of what an attempt from item `i + 1` appended. */
  lemma AppendsShift(job: Job, env: Env, items: seq<Item>, i: nat, a: Attempt, appended: seq<Entry>)
    requires i < a.consumed <= |items|
    requires appended == RecordEntries(job, env, items[i])
    requires FailedAppends(job, env, items, i + 1, a)
    ensures FailedAppends(job, env, items, i, a.(entries := appended + a.entries))
  {
    if a.failure.Some? {
      var all := EntriesBetween(job, env, items, i + 1, a.consumed);
      assert EntriesBetween(job, env, items, i, a.consumed) == appended + all;
      if a.failure.value.HashMismatch? {
        assert EntriesBetween(job, env, items, i, a.consumed - 1) == appended + EntriesBetween(job, env, items, i + 1, a.consumed - 1);
        TakeAppend(appended, all, |a.entries|);
      }
    }
  }

  /** One pass of the `try` block: open the archive afresh and consume it with nothing found yet. */
  function RunAttempt(job: Job, env: Env, archive: WarcArchive): (a: Attempt)
    ensures a.found <= job.want.Keys && a.consumed <= |ReadWarc(archive).items|
    ensures a.failure.None? ==> a.found == WantedBetween(ReadWarc(archive).items, job.want, 0, a.consumed)
    ensures a.failure.None? && a.found != job.want.Keys ==> a.consumed == |ReadWarc(archive).items| && ReadWarc(archive).end.Complete?
  {
    var p := ReadWarc(archive);
    Consume(job, env, p.items, p.end, 0, {})
  }

  /**
   * What one attempt guarantees. `found_idx` only ever holds wanted ids; consumption
   * stops right after the item that completes the want-list; a successful attempt
   * appended exactly the documents of the wanted records it pulled, one per wanting
   * language, in stream order; under strict validation success means every wanted id
   * was found, and every append carries the expected md5.
   */
  lemma AttemptFacts(job: Job, env: Env, archive: WarcArchive)
    ensures var p := ReadWarc(archive);
      var a := RunAttempt(job, env, archive);
      && a.found <= job.want.Keys
      && a.consumed <= |p.items|
      && (forall k :: 0 < k < a.consumed ==> |WantedBetween(p.items, job.want, 0, k)| < |job.want|)
      && (a.failure.None? ==> a.found == WantedBetween(p.items, job.want, 0, a.consumed))
      && (a.failure.None? ==> a.entries == EntriesBetween(job, env, p.items, 0, a.consumed))
      && (a.failure.None? && a.consumed < |p.items| ==> a.found == job.want.Keys)
      && (job.validate ==> StrictOk(job, env, a))
      && FailureExplained(job, env, p.items, p.end, 0, a)
      && FailedAppends(job, env, p.items, 0, a)
  {
    AttemptProgress(job, env, archive);
    AttemptFailure(job, env, archive);
  }

  /** The success half of `AttemptFacts`. */
  lemma AttemptProgress(job: Job, env: Env, archive: WarcArchive)
    ensures var p := ReadWarc(archive);
      var a := RunAttempt(job, env, archive);
      && a.found <= job.want.Keys
      && a.consumed <= |p.items|
      && (forall k :: 0 < k < a.consumed ==> |WantedBetween(p.items, job.want, 0, k)| < |job.want|)
      && (a.failure.None? ==> a.found == WantedBetween(p.items, job.want, 0, a.consumed))
      && (a.failure.None? ==> a.entries == EntriesBetween(job, env, p.items, 0, a.consumed))
      && (a.failure.None? && a.consumed < |p.items| ==> a.found == job.want.Keys)
      && (job.validate ==> StrictOk(job, env, a))
  {
    var p := ReadWarc(archive);
    ConsumeValidatedIf(job, env, p.items, p.end);
    forall k | 0 < k <= |p.items|
      ensures {} + WantedBetween(p.items, job.want, 0, k) == WantedBetween(p.items, job.want, 0, k)
    {
    }
  }

  /** The failure half of `AttemptFacts`. */
  lemma AttemptFailure(job: Job, env: Env, archive: WarcArchive)
    ensures var p := ReadWarc(archive);
      var a := RunAttempt(job, env, archive);
      && FailureExplained(job, env, p.items, p.end, 0, a)
      && FailedAppends(job, env, p.items, 0, a)
  {
    var p := ReadWarc(archive);
    ConsumeFailures(job, env, p.items, p.end, 0, {});
    ConsumeAppends(job, env, p.items, p.end, 0, {});
  }

  lemma ConsumeValidatedIf(job: Job, env: Env, items: seq<Item>, end: StreamEnd)
    ensures job.validate ==> StrictOk(job, env, Consume(job, env, items, end, 0, {}))
  {
    if job.validate {
      ConsumeValidated(job, env, items, end, 0, {});
    }
  }

  // ---------------------------------------------------------------------------
  // The retry loop
  // ---------------------------------------------------------------------------

  /**
   * What `process_cc_file` does for one archive: the appends it writes to the
   * language logs, whether it logs `done-cc-file`, how many attempts it started,
   * and whether a keyboard interrupt escaped it.
   */
  datatype Report = Report(written: seq<Entry>, done: bool, attempts: nat, interrupted: bool)

  /** The appends of attempts `lo` to `hi - 1`, in order. */
  function Accumulated(attempt: nat -> Attempt, lo: nat, hi: nat): seq<Entry>
    decreases hi - lo
  {
    if lo >= hi then [] else attempt(lo).entries + Accumulated(attempt, lo + 1, hi)
  }

  /**
   * `for ntried in range(retry)` from attempt `ntried` on, where `attempt(k)` is what
   * attempt `k` does and `saved` is what `saved_docs` already holds. `saved_docs`
   * lives outside the loop, so the appends of a failed attempt stay in it.
   */
  function RetryFrom(attempt: nat -> Attempt, retry: int, ntried: nat, saved: seq<Entry>): (r: Report)
    ensures ntried <= r.attempts
    ensures r.attempts <= ntried || r.attempts <= retry
    ensures !(r.done && r.interrupted)
    ensures !r.done ==> r.written == []
    ensures forall k :: ntried <= k < r.attempts - 1 ==> Retryable(attempt(k).failure)
    ensures r.done ==> r.attempts > ntried && attempt(r.attempts - 1).failure.None?
    ensures r.done ==> r.written == saved + Accumulated(attempt, ntried, r.attempts)
    ensures r.interrupted ==> r.attempts > ntried && attempt(r.attempts - 1).failure == Some(Interrupt)
    ensures !r.done && !r.interrupted ==>
      && (r.attempts == ntried || r.attempts == retry)
      && forall k :: ntried <= k < r.attempts ==> Retryable(attempt(k).failure)
    decreases retry - ntried
  {
    if ntried >= retry then
      Report([], false, ntried, false)
    else
      var a := attempt(ntried);
      match a.failure
      case None => Report(saved + a.entries, true, ntried + 1, false)
      case Some(Interrupt) => Report([], false, ntried + 1, true)
      case Some(_) =>
        var r := RetryFrom(attempt, retry, ntried + 1, saved + a.entries);
        assert r.done ==> r.written == saved + Accumulated(attempt, ntried, r.attempts);
        r
  }

  /** Attempt `k` on its own: it re-opens the archive, which then reads as `fetch(k)`. */
  function Attempts(job: Job, env: Env, fetch: nat -> WarcArchive): nat -> Attempt {
    (k: nat) => RunAttempt(job, env, fetch(k))
  }

  /** `process_cc_file(info, out_paths, validate, disable_tqdm, retry)` for one archive. */
  function ProcessCcFile(job: Job, env: Env, fetch: nat -> WarcArchive, retry: int): (r: Report)
    ensures r.attempts <= if retry < 0 then 0 else retry
    ensures !(r.done && r.interrupted)
    ensures r.done ==> r.attempts > 0 && RunAttempt(job, env, fetch(r.attempts - 1)).failure.None?
    ensures r.done ==> r.written == Accumulated(Attempts(job, env, fetch), 0, r.attempts)
    ensures !r.done ==> r.written == []
  {
    RetryFrom(Attempts(job, env, fetch), retry, 0, [])
  }

  /** Attempt `k` is the first one that does not consume a retry, and it succeeds. */
  predicate FirstSuccessAt(attempt: nat -> Attempt, k: nat) {
    && attempt(k).failure.None?
    && forall j :: 0 <= j < k ==> Retryable(attempt(j).failure)
  }

  /**
   * Output is written and `done-cc-file` logged exactly when some attempt within the
   * retry budget succeeds after only retryable failures; it then holds the appends
   * of every attempt made, failed ones included. With `retry <= 0` nothing happens.
   */
  lemma CommitIffSuccess(attempt: nat -> Attempt, retry: int)
    ensures var r := RetryFrom(attempt, retry, 0, []);
      && (r.done <==> exists k :: 0 <= k < retry && FirstSuccessAt(attempt, k))
      && (r.done ==> FirstSuccessAt(attempt, r.attempts - 1) && r.written == Accumulated(attempt, 0, r.attempts))
      && (!r.done ==> r.written == [])
      && (retry <= 0 ==> r == Report([], false, 0, false))
  {
    var r := RetryFrom(attempt, retry, 0, []);
    if r.done {
      assert FirstSuccessAt(attempt, r.attempts - 1);
    } else {
      forall k | 0 <= k < retry
        ensures !FirstSuccessAt(attempt, k)
      {
        if r.interrupted {
          var m := r.attempts - 1;
          if k < m {
            assert Retryable(attempt(k).failure);
          } else if k == m {
            assert attempt(k).failure == Some(Interrupt);
          } else {
            assert !Retryable(attempt(m).failure);
          }
        } else {
          assert Retryable(attempt(k).failure);
        }
      }
    }
    assert [] + Accumulated(attempt, 0, r.attempts) == Accumulated(attempt, 0, r.attempts);
  }

  /** `saved_docs[lang]` distributes over the appends of successive attempts. */
  lemma {:induction false} ForLangAppend(a: seq<Entry>, b: seq<Entry>, l: Lang)
    ensures ForLang(a + b, l) == ForLang(a, l) + ForLang(b, l)
    decreases |a|
  {
    if |a| == 0 {
      assert a + b == b;
    } else {
      var head := if a[0].lang == l then [a[0].doc] else [];
      calc {
        ForLang(a + b, l);
        { assert (a + b)[0] == a[0] && (a + b)[1..] == a[1..] + b; }
        head + ForLang(a[1..] + b, l);
        { ForLangAppend(a[1..], b, l); }
        head + (ForLang(a[1..], l) + ForLang(b, l));
        (head + ForLang(a[1..], l)) + ForLang(b, l);
        ForLang(a, l) + ForLang(b, l);
      }
    }
  }

  /** One language's list after attempts `lo` to `hi - 1`: each attempt's documents for it, attempt after attempt. */
  function AccumulatedFor(attempt: nat -> Attempt, l: Lang, lo: nat, hi: nat): seq<Doc>
    decreases hi - lo
  {
    if lo >= hi then [] else ForLang(attempt(lo).entries, l) + AccumulatedFor(attempt, l, lo + 1, hi)
  }

  lemma {:induction false} AccumulatedForLang(attempt: nat -> Attempt, l: Lang, lo: nat, hi: nat)
    ensures ForLang(Accumulated(attempt, lo, hi), l) == AccumulatedFor(attempt, l, lo, hi)
    decreases hi - lo
  {
    if lo < hi {
      ForLangAppend(attempt(lo).entries, Accumulated(attempt, lo + 1, hi), l);
      AccumulatedForLang(attempt, l, lo + 1, hi);
    }
  }

  /**
   * After a successful run each language's written list is the concatenation, over
   * every attempt made, of the documents that attempt appended for that language.
   */
  lemma WrittenPerLanguage(attempt: nat -> Attempt, retry: int, l: Lang)
    ensures var r := RetryFrom(attempt, retry, 0, []);
      r.done ==> ForLang(r.written, l) == AccumulatedFor(attempt, l, 0, r.attempts)
  {
    var r := RetryFrom(attempt, retry, 0, []);
    if r.done {
      assert r.written == [] + Accumulated(attempt, 0, r.attempts);
      assert [] + Accumulated(attempt, 0, r.attempts) == Accumulated(attempt, 0, r.attempts);
      AccumulatedForLang(attempt, l, 0, r.attempts);
    }
  }

  // ---------------------------------------------------------------------------
  // Retrying with a fresh buffer
  // ---------------------------------------------------------------------------

  /**
   * The retry loop with `saved_docs` reset at the start of every attempt, so that
   * only the successful attempt's appends are written.
   */
  function RetryFresh(attempt: nat -> Attempt, retry: int, ntried: nat): (r: Report)
    ensures r.done ==> r.attempts > ntried && r.written == attempt(r.attempts - 1).entries
    ensures !r.done ==> r.written == []
    decreases retry - ntried
  {
    if ntried >= retry then
      Report([], false, ntried, false)
    else
      var a := attempt(ntried);
      match a.failure
      case None => Report(a.entries, true, ntried + 1, false)
      case Some(Interrupt) => Report([], false, ntried + 1, true)
      case Some(_) => RetryFresh(attempt, retry, ntried + 1)
  }

  /** Resetting the buffer changes what is written, never whether or when the loop commits. */
  lemma {:induction false} FreshControl(attempt: nat -> Attempt, retry: int, ntried: nat)
    ensures var r := RetryFresh(attempt, retry, ntried);
      var w := RetryFrom(attempt, retry, ntried, []);
      r.done == w.done && r.attempts == w.attempts && r.interrupted == w.interrupted
    decreases retry - ntried
  {
    if ntried < retry {
      var a := attempt(ntried);
      if a.failure.Some? && a.failure != Some(Interrupt) {
        FreshControl(attempt, retry, ntried + 1);
        RetryControl(attempt, retry, ntried + 1, [], [] + a.entries);
        assert RetryFresh(attempt, retry, ntried) == RetryFresh(attempt, retry, ntried + 1);
        assert RetryFrom(attempt, retry, ntried, []) == RetryFrom(attempt, retry, ntried + 1, [] + a.entries);
      }
    }
  }

  /** What is already buffered never changes the retry loop's control flow. */
  lemma {:induction false} RetryControl(attempt: nat -> Attempt, retry: int, ntried: nat, s1: seq<Entry>, s2: seq<Entry>)
    ensures var r1 := RetryFrom(attempt, retry, ntried, s1);
      var r2 := RetryFrom(attempt, retry, ntried, s2);
      r1.done == r2.done && r1.attempts == r2.attempts && r1.interrupted == r2.interrupted
    decreases retry - ntried
  {
    if ntried < retry {
      var a := attempt(ntried);
      if a.failure.Some? && a.failure != Some(Interrupt) {
        var t1, t2 := s1 + a.entries, s2 + a.entries;
        RetryControl(attempt, retry, ntried + 1, t1, t2);
        assert RetryFrom(attempt, retry, ntried, s1) == RetryFrom(attempt, retry, ntried + 1, t1);
        assert RetryFrom(attempt, retry, ntried, s2) == RetryFrom(attempt, retry, ntried + 1, t2);
      }
    }
  }

  /** `process_cc_file` with the buffer reset per attempt. */
  function ProcessCcFileFresh(job: Job, env: Env, fetch: nat -> WarcArchive, retry: int): Report {
    RetryFresh(Attempts(job, env, fetch), retry, 0)
  }

  /**
   * With the buffer reset per attempt, a run commits under the same conditions as the
   * code, and what it writes is exactly one document per wanting language for each
   * wanted record the successful pass pulled, in stream order.
   */
  lemma FreshWritesSuccessfulPass(job: Job, env: Env, fetch: nat -> WarcArchive, retry: int)
    ensures var r := ProcessCcFileFresh(job, env, fetch, retry);
      var w := ProcessCcFile(job, env, fetch, retry);
      && r.done == w.done && r.attempts == w.attempts && r.interrupted == w.interrupted
      && (r.done ==>
           var p := ReadWarc(fetch(r.attempts - 1));
           var a := RunAttempt(job, env, fetch(r.attempts - 1));
           a.failure.None? && r.written == EntriesBetween(job, env, p.items, 0, a.consumed))
  {
    var r := ProcessCcFileFresh(job, env, fetch, retry);
    FreshControl(Attempts(job, env, fetch), retry, 0);
    if r.done {
      AttemptFacts(job, env, fetch(r.attempts - 1));
    }
  }

  /**
   * The code as written: one wanted record is pulled and appended, the stream then
   * breaks before a second wanted id turns up, and the retry succeeds. The document is
   * written twice, where the fresh-buffer loop writes it once.
   */
  lemma RetryDuplicates(job: Job, env: Env, fetch: nat -> WarcArchive, rec: WarcRecord, rid: string, rid2: string, h: string, h2: string, art: Article)
    requires rid != rid2 && !job.validate
    requires job.want == map[rid := map[Zho := h], rid2 := map[Zho := h2]]
    requires rec.contentType == ResponseType && RecordIdOf(rec.recordId) == Some(rid)
    requires env.extract(rec) == Some(art)
    requires fetch(0) == WarcArchive([rec], Broken) && fetch(1) == WarcArchive([rec], Complete)
    ensures var d := MakeDoc(rid, job.ccFile, art);
      && ProcessCcFile(job, env, fetch, 2) == Report([Entry(Zho, d), Entry(Zho, d)], true, 2, false)
      && ProcessCcFileFresh(job, env, fetch, 2) == Report([Entry(Zho, d)], true, 2, false)
  {
    var e := [Entry(Zho, MakeDoc(rid, job.ccFile, art))];
    var attempt := Attempts(job, env, fetch);
    SingleRecordPass(job, env, rec, rid, rid2, h, h2, art, Broken);
    SingleRecordPass(job, env, rec, rid, rid2, h, h2, art, Complete);
    assert attempt(0) == Attempt(e, {rid}, 1, Some(Transient));
    assert attempt(1) == Attempt(e, {rid}, 1, None);
    assert RetryFrom(attempt, 2, 1, e) == Report(e + e, true, 2, false);
  }

  /** One pass over an archive holding only the record for `rid`, under the want-list of `RetryDuplicates`. */
  lemma SingleRecordPass(job: Job, env: Env, rec: WarcRecord, rid: string, rid2: string, h: string, h2: string, art: Article, end: StreamEnd)
    requires rid != rid2 && !job.validate
    requires job.want == map[rid := map[Zho := h], rid2 := map[Zho := h2]]
    requires rec.contentType == ResponseType && RecordIdOf(rec.recordId) == Some(rid)
    requires env.extract(rec) == Some(art)
    requires end != Interrupted
    ensures RunAttempt(job, env, WarcArchive([rec], end))
      == Attempt([Entry(Zho, MakeDoc(rid, job.ccFile, art))], {rid}, 1, if end == Broken then Some(Transient) else None)
  {
    var d := MakeDoc(rid, job.ccFile, art);
    var e := [Entry(Zho, d)];
    assert Responses([rec]) == [rec];
    var items := [Item(rid, rec)];
    assert ReadWarc(WarcArchive([rec], end)) == Pulled(items, end);
    OnlyZho(job.want[rid], h);
    assert EntriesFor(d, [Zho]) == e;
    assert RecordEntries(job, env, items[0]) == e;
    assert |job.want| == 2 by {
      assert job.want.Keys == {rid, rid2};
    }
    assert |{rid}| == 1;
    assert {} + {rid} == {rid};
    assert AppendLangs(job.want[rid], HashDoc(env.md5, d), false, d, Languages) == LangStep(e, None);
    assert Consume(job, env, items, end, 0, {}) == ConsumeWanted(job, env, items, end, 0, {});
    assert ConsumeWanted(job, env, items, end, 0, {}) == Advance(job, env, items, end, 0, {}, e);
    assert Consume(job, env, items, end, 1, {rid}) == Attempt([], {rid}, 1, if end == Broken then Some(Transient) else None);
  }

  /** A want-list entry for Chinese alone is visited for Chinese alone. */
  lemma OnlyZho(m: map<Lang, string>, h: string)
    requires m == map[Zho := h]
    ensures WantedLangs(m, Languages) == [Zho]
  {
    assert Rus !in m && Fas !in m;
    assert [Zho, Rus, Fas][1..] == [Rus, Fas] && [Rus, Fas][1..] == [Fas] && [Fas][1..] == [];
    assert WantedLangs(m, [Fas]) == [];
    assert WantedLangs(m, [Rus, Fas]) == [];
  }
}
