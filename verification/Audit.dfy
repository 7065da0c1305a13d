/** The audit loop: one pass over a store's records, then the manifest comparison. */
module Audit {
  import opened Common
  import opened Hashing
  import opened JsonText
  import opened Attestation
  import opened Adapter
  import opened Merkle
  import M = Manifest
  import V = Verifier

  /** What the next step of the adapter's iterator does; the feed's end is its normal end. */
  datatype Step = Yield(record: Record) | Raise(error: Text)

  /** The records yielded before the walk ends or aborts. */
  function Walked(feed: seq<Step>): seq<Record> {
    if feed == [] || feed[0].Raise? then [] else [feed[0].record] + Walked(feed[1..])
  }

  predicate Aborts(feed: seq<Step>) {
    exists i :: 0 <= i < |feed| && feed[i].Raise?
  }

  /** The exception that ends the walk, if one does. */
  function AbortOf(feed: seq<Step>): (e: Option<Text>)
    ensures e.Some? <==> Aborts(feed)
  {
    if feed == [] then None
    else if feed[0].Raise? then Some(feed[0].error)
    else
      assert Aborts(feed[1..]) ==> Aborts(feed) by {
        if Aborts(feed[1..]) {
          var i :| 0 <= i < |feed[1..]| && feed[1..][i].Raise?;
          assert feed[i + 1].Raise?;
        }
      }
      assert Aborts(feed) ==> Aborts(feed[1..]) by {
        if Aborts(feed) {
          var i :| 0 <= i < |feed| && feed[i].Raise?;
          assert feed[1..][i - 1].Raise?;
        }
      }
      AbortOf(feed[1..])
  }

  /** The `(record id, vec_hash)` pair an audit enters: no hash unless a pin was parsed. */
  function EntryOf(r: Record): Entry {
    Entry(r.id, if r.field.Pinned? then r.field.pin.header.vecHash else [])
  }

  function Mapped<S, T>(f: S -> T, s: seq<S>): (r: seq<T>)
    ensures |r| == |s|
  {
    if s == [] then [] else Mapped(f, s[..|s| - 1]) + [f(s[|s| - 1])]
  }

  function EntriesOf(rs: seq<Record>): (es: seq<Entry>)
    ensures |es| == |rs|
  {
    Mapped(EntryOf, rs)
  }

  // ---- counting ----

  /** What one record adds to the counters. */
  datatype Mark = Mark(pinned: bool, unpinned: bool, ok: bool, bad: bool)

  /** The registry a run uses and its policy. */
  datatype Run = Run(
    env: V.Env, keys: V.Registry, legacy: bool, policy: Policy,
    manifest: Option<M.CollectionManifest>, manifestKeys: V.Registry)

  function MarkOf(run: Run, r: Record): Mark {
    if r.field.Unpinned? then Mark(false, true, false, !run.policy.allowUnpinned)
    else
      var accepted := VerifyRecord(run.env, run.keys, run.legacy, r, run.policy) == V.Accepted;
      Mark(r.field.Pinned?, false, accepted, !accepted)
  }

  function MarkFor(run: Run): Record -> Mark {
    r => MarkOf(run, r)
  }

  function Bit(b: bool): nat { if b then 1 else 0 }

  datatype Tally = Tally(total: nat, pinned: nat, unpinned: nat, ok: nat, bad: nat)

  function Plus(t: Tally, m: Mark): Tally {
    Tally(t.total + 1, t.pinned + Bit(m.pinned), t.unpinned + Bit(m.unpinned), t.ok + Bit(m.ok), t.bad + Bit(m.bad))
  }

  function TallyBy(mark: Record -> Mark, rs: seq<Record>): Tally {
    if rs == [] then Tally(0, 0, 0, 0, 0) else Plus(TallyBy(mark, rs[..|rs| - 1]), mark(rs[|rs| - 1]))
  }

  function TallyOf(run: Run, rs: seq<Record>): Tally {
    TallyBy(MarkFor(run), rs)
  }

  /** The printed summary's counters, whether the walk aborted, and the manifest's verdict. */
  datatype Summary = Summary(
    total: nat, pinned: nat, ok: nat, failed: nat, unpinned: nat, aborted: bool, manifest: Option<M.ManifestVerdict>)

  ghost function ManifestOutcome(run: Run, rs: seq<Record>): Option<M.ManifestVerdict> {
    if run.manifest.None? then None
    else
      Some(M.ManifestVerdictOf(
        run.env, run.manifestKeys, run.manifest.value, EntriesOf(rs), run.policy.collectionId))
  }

  predicate Failed(v: Option<M.ManifestVerdict>) { v.Some? && v.value != M.Matches }

  /** What the loop must print for a feed. */
  ghost function SummaryOf(run: Run, feed: seq<Step>): Summary {
    var t := TallyOf(run, Walked(feed));
    var outcome := ManifestOutcome(run, Walked(feed));
    Summary(t.total, t.pinned, t.ok, t.bad + Bit(Aborts(feed)) + Bit(Failed(outcome)), t.unpinned, Aborts(feed),
            outcome)
  }

  // ---- what is printed and written ----

  /** A signer and the time its clock shows. */
  datatype Seal = Seal(signer: M.Signer, ts: Text)

  /** The label of the report, the manifest to write, if any, with its path, and the report's signer. */
  datatype Output = Output(
    labelField: Text, labelValue: Text, path: Text, writeManifest: Option<Seal>, summarySigner: Option<Seal>)

  /** The keys of the report besides the label. */
  datatype ReportField =
    | Total | PinnedCount | VerifiedOk | VerificationFailed | UnpinnedCount | AbortedBy | ManifestCode | ManifestWritten

  function ReportName(f: ReportField): (t: Text) {
    match f
    case Total => Ascii("total")
    case PinnedCount => Ascii("pinned")
    case VerifiedOk => Ascii("verified_ok")
    case VerificationFailed => Ascii("verification_failed")
    case UnpinnedCount => Ascii("unpinned")
    case AbortedBy => Ascii("aborted")
    case ManifestCode => Ascii("manifest")
    case ManifestWritten => Ascii("manifest_written")
  }

  lemma ReportNamesDistinct()
    ensures forall f: ReportField, g: ReportField :: ReportName(f) == ReportName(g) ==> f == g
  {
    assert ReportName(UnpinnedCount)[0] == 'u' as int && ReportName(ManifestCode)[0] == 'm' as int;
    forall f: ReportField, g: ReportField | ReportName(f) == ReportName(g)
      ensures f == g
    {
      ReportNameLength(f);
      ReportNameLength(g);
    }
  }

  lemma ReportNameLength(f: ReportField)
    ensures |ReportName(f)| == match f case Total => 5 case PinnedCount => 6 case VerifiedOk => 11
                                       case VerificationFailed => 19 case UnpinnedCount => 8 case AbortedBy => 7
                                       case ManifestCode => 8 case ManifestWritten => 16
  {
  }

  /** `ManifestError.value`. */
  function VerdictCode(v: M.ManifestVerdict): Text {
    match v
    case Matches => Ascii("ok")
    case Fails(ParseError) => Ascii("parse_error")
    case Fails(UnknownKey) => Ascii("unknown_key")
    case Fails(SignatureInvalid) => Ascii("signature_invalid")
    case Fails(CollectionMismatch) => Ascii("collection_mismatch")
    case Fails(CountMismatch) => Ascii("count_mismatch")
    case Fails(RootMismatch) => Ascii("root_mismatch")
  }

  /** What the report holds under a key, if it has the key. */
  function ReportValue(out: Output, s: Summary, abort: Option<Text>, written: bool, f: ReportField): Option<Json> {
    match f
    case Total => Some(Num(Decimal(s.total)))
    case PinnedCount => Some(Num(Decimal(s.pinned)))
    case VerifiedOk => Some(Num(Decimal(s.ok)))
    case VerificationFailed => Some(Num(Decimal(s.failed)))
    case UnpinnedCount => Some(Num(Decimal(s.unpinned)))
    case AbortedBy => if abort.Some? then Some(Str(abort.value)) else None
    case ManifestCode => if s.manifest.Some? then Some(Str(VerdictCode(s.manifest.value))) else None
    case ManifestWritten => if written then Some(Str(out.path)) else None
  }

  const REPORT_FIELDS: set<ReportField> :=
    {Total, PinnedCount, VerifiedOk, VerificationFailed, UnpinnedCount, AbortedBy, ManifestCode, ManifestWritten}

  /** The keys of the report that are present. */
  function ReportFields(out: Output, s: Summary, abort: Option<Text>, written: bool): map<Text, Json> {
    ReportNamesDistinct();
    map f | f in REPORT_FIELDS && ReportValue(out, s, abort, written, f).Some?
      :: ReportName(f) := ReportValue(out, s, abort, written, f).value
  }

  lemma IsReportField(f: ReportField)
    ensures f in REPORT_FIELDS
  {
    match f
    case Total | PinnedCount | VerifiedOk | VerificationFailed =>
    case UnpinnedCount | AbortedBy | ManifestCode | ManifestWritten =>
  }

  lemma ReportFieldsAt(out: Output, s: Summary, abort: Option<Text>, written: bool, f: ReportField)
    ensures var r := ReportFields(out, s, abort, written);
            var v := ReportValue(out, s, abort, written, f);
            && (ReportName(f) in r <==> v.Some?) && (v.Some? ==> r[ReportName(f)] == v.value)
  {
    ReportNamesDistinct();
    IsReportField(f);
  }

  /** The `summary` dict: the label, then every key that is present, a later one replacing the label. */
  function Report(out: Output, s: Summary, abort: Option<Text>, written: bool): map<Text, Json> {
    map[out.labelField := Str(out.labelValue)] + ReportFields(out, s, abort, written)
  }

  /** `collection_id or label_value`. */
  function CollectionName(policy: Policy, out: Output): Text {
    if policy.collectionId.Some? && policy.collectionId.value != [] then policy.collectionId.value else out.labelValue
  }

  /** How a run ends: the manifest written, the report printed and the exit code; where signing raises, what
      was done before stands. */
  datatype Ended = Ended(written: Option<M.CollectionManifest>, printed: Option<map<Text, Json>>, exit: Option<int>)

  ghost function ManifestFor(env: V.Env, policy: Policy, out: Output, entries: seq<Entry>)
    : Option<M.CollectionManifest>
  {
    if out.writeManifest.None? then None
    else
      var s := out.writeManifest.value;
      M.BuildManifest(env, s.signer, CollectionName(policy, out), entries, s.ts)
  }

  function Sealed(out: Output, report: map<Text, Json>): Option<map<Text, Json>> {
    if out.summarySigner.None? then Some(report)
    else M.SignSummary(out.summarySigner.value.signer, report, out.summarySigner.value.ts)
  }

  ghost function EndWith(
    env: V.Env, policy: Policy, out: Output, entries: seq<Entry>, summary: Summary, abort: Option<Text>): Ended
  {
    var written := ManifestFor(env, policy, out, entries);
    if out.writeManifest.Some? && written.None? then Ended(None, None, None)
    else
      var printed := Sealed(out, Report(out, summary, abort, written.Some?));
      Ended(written, printed, if printed.None? then None else Some(if summary.failed > 0 then 1 else 0))
  }

  /** What `_audit_loop` must do for a feed. */
  ghost function EndOf(run: Run, out: Output, feed: seq<Step>): Ended {
    EndWith(run.env, run.policy, out, EntriesOf(Walked(feed)), SummaryOf(run, feed), AbortOf(feed))
  }

  /** The registries of a run: `manifest_verifier or verifier` judges the manifest. */
  ghost function RunOf(
    env: V.Env, verifier: V.Verifier, policy: Policy, manifest: Option<M.CollectionManifest>,
    manifestVerifier: V.Verifier?): Run
    reads verifier, manifestVerifier
  {
    Run(env, verifier.keys, verifier.legacy, policy, manifest,
        if manifestVerifier == null then verifier.keys else manifestVerifier.keys)
  }

  lemma WalkedFromHere(feed: seq<Step>, i: nat)
    requires i < |feed|
    ensures Walked(feed[i..]) == if feed[i].Raise? then [] else [feed[i].record] + Walked(feed[i + 1..])
    ensures AbortOf(feed[i..]) == if feed[i].Raise? then Some(feed[i].error) else AbortOf(feed[i + 1..])
  {
    assert feed[i..][1..] == feed[i + 1..];
  }

  lemma TallySnoc(mark: Record -> Mark, rs: seq<Record>, r: Record)
    ensures TallyBy(mark, rs + [r]) == Plus(TallyBy(mark, rs), mark(r))
  {
    assert (rs + [r])[..|rs|] == rs;
  }

  lemma MappedSnoc<S, T>(f: S -> T, s: seq<S>, x: S)
    ensures Mapped(f, s + [x]) == Mapped(f, s) + [f(x)]
  {
    assert (s + [x])[..|s|] == s;
  }

  lemma WalkEnds(feed: seq<Step>, done: seq<Record>, i: nat, aborted: bool)
    requires i <= |feed| && done + Walked(feed[i..]) == Walked(feed)
    requires if aborted then i < |feed| && feed[i].Raise? else i == |feed|
    ensures done == Walked(feed)
  {
    if aborted {
      WalkedFromHere(feed, i);
    }
    assert Walked(feed[i..]) == [];
    assert done + [] == done;
  }

  /** `_audit_loop`: the walk, the manifest comparison, the manifest written, the summary printed. */
  method AuditLoop(
    env: V.Env, verifier: V.Verifier, policy: Policy, manifest: Option<M.CollectionManifest>,
    manifestVerifier: V.Verifier?, out: Output, feed: seq<Step>)
    returns (end: Ended)
    ensures end == EndOf(RunOf(env, verifier, policy, manifest, manifestVerifier), out, feed)
  {
    ghost var run := RunOf(env, verifier, policy, manifest, manifestVerifier);
    var t, entries, aborted := Walk(env, verifier, policy, run, feed);
    var bad := t.bad + if aborted.Some? then 1 else 0;
    var outcome: Option<M.ManifestVerdict> := None;
    if manifest.Some? {
      var mres := CompareManifest(env, verifier, manifestVerifier, manifest.value, entries, policy);
      outcome := Some(mres);
      if mres != M.Matches {
        bad := bad + 1;
      }
    }
    var summary := Summary(t.total, t.pinned, t.ok, bad, t.unpinned, aborted.Some?, outcome);
    SummaryIs(run, feed, t, outcome, summary);
    end := Finish(env, policy, out, entries, summary, aborted);
  }

  lemma SummaryIs(run: Run, feed: seq<Step>, t: Tally, outcome: Option<M.ManifestVerdict>, summary: Summary)
    requires t == TallyOf(run, Walked(feed)) && outcome == ManifestOutcome(run, Walked(feed))
    requires var bad := t.bad + Bit(Aborts(feed)) + Bit(Failed(outcome));
             summary == Summary(t.total, t.pinned, t.ok, bad, t.unpinned, Aborts(feed), outcome)
    ensures summary == SummaryOf(run, feed)
  {
  }

  /** `verify_manifest(manifest, manifest_verifier or verifier, ..)`. */
  method CompareManifest(
    env: V.Env, verifier: V.Verifier, manifestVerifier: V.Verifier?, manifest: M.CollectionManifest,
    entries: seq<Entry>, policy: Policy)
    returns (mres: M.ManifestVerdict)
    ensures var keys := if manifestVerifier == null then verifier.keys else manifestVerifier.keys;
            mres == M.ManifestVerdictOf(env, keys, manifest, entries, policy.collectionId)
  {
    var judge: V.Verifier := verifier;
    if manifestVerifier != null {
      judge := manifestVerifier;
    }
    mres := M.VerifyManifest(env, judge, manifest, entries, policy.collectionId);
  }

  /** The end of the loop: write the manifest, sign the summary, print it, return the exit code. */
  method Finish(
    env: V.Env, policy: Policy, out: Output, entries: seq<Entry>, summary: Summary, aborted: Option<Text>)
    returns (end: Ended)
    ensures end == EndWith(env, policy, out, entries, summary, aborted)
  {
    var written := WriteManifest(env, policy, out, entries);
    if out.writeManifest.Some? && written.None? {
      return Ended(None, None, None);
    }
    var printed := SealReport(out, Report(out, summary, aborted, written.Some?));
    if printed.None? {
      return Ended(written, None, None);
    }
    end := Ended(written, printed, Some(if summary.failed > 0 then 1 else 0));
  }

  method WriteManifest(env: V.Env, policy: Policy, out: Output, entries: seq<Entry>)
    returns (written: Option<M.CollectionManifest>)
    ensures written == ManifestFor(env, policy, out, entries)
  {
    if out.writeManifest.None? {
      return None;
    }
    var s := out.writeManifest.value;
    written := M.MakeManifest(env, s.signer, CollectionName(policy, out), entries, s.ts);
  }

  method SealReport(out: Output, report: map<Text, Json>) returns (printed: Option<map<Text, Json>>)
    ensures printed == Sealed(out, report)
  {
    printed := Some(report);
    if out.summarySigner.Some? {
      printed := M.SignSummary(out.summarySigner.value.signer, report, out.summarySigner.value.ts);
    }
  }

  /** The walk itself: the records' own counters, the entries, and the exception that ended it. */
  method Walk(env: V.Env, verifier: V.Verifier, policy: Policy, ghost run: Run, feed: seq<Step>)
    returns (t: Tally, entries: seq<Entry>, aborted: Option<Text>)
    requires run.env == env && run.keys == verifier.keys && run.legacy == verifier.legacy && run.policy == policy
    ensures t == TallyOf(run, Walked(feed)) && entries == EntriesOf(Walked(feed))
    ensures aborted == AbortOf(feed)
  {
    t, entries, aborted := Tally(0, 0, 0, 0, 0), [], None;
    ghost var done: seq<Record> := [];
    var i := 0;
    assert feed[0..] == feed && [] + Walked(feed) == Walked(feed);
    while i < |feed|
      invariant 0 <= i <= |feed| && aborted.None?
      invariant done + Walked(feed[i..]) == Walked(feed) && AbortOf(feed[i..]) == AbortOf(feed)
      invariant t == TallyOf(run, done) && entries == EntriesOf(done)
    {
      WalkedFromHere(feed, i);
      if feed[i].Raise? {
        aborted := Some(feed[i].error);
        break;
      }
      var rec := feed[i].record;
      TallySnoc(MarkFor(run), done, rec);
      MappedSnoc(EntryOf, done, rec);
      Assoc(done, [rec], Walked(feed[i + 1..]));
      done := done + [rec];
      i := i + 1;
      entries := entries + [EntryOf(rec)];
      t := CountRecord(env, verifier, policy, run, rec, t);
    }
    WalkEnds(feed, done, i, aborted.Some?);
  }

  /** The counters' part of the loop body. */
  method CountRecord(
    env: V.Env, verifier: V.Verifier, policy: Policy, ghost run: Run, rec: Record, before: Tally)
    returns (t: Tally)
    requires run.env == env && run.keys == verifier.keys && run.legacy == verifier.legacy && run.policy == policy
    ensures t == Plus(before, MarkOf(run, rec))
  {
    t := before.(total := before.total + 1);
    if rec.field.Unpinned? {
      t := t.(unpinned := t.unpinned + 1);
      if policy.allowUnpinned {
        return;
      }
      t := t.(bad := t.bad + 1);
      return;
    }
    if rec.field.Pinned? {
      t := t.(pinned := t.pinned + 1);
    }
    var verdict := VerifyRecordStepwise(env, verifier, rec, policy);
    if verdict == V.Accepted {
      t := t.(ok := t.ok + 1);
    } else {
      t := t.(bad := t.bad + 1);
    }
  }

  // ---- conservation ----

  /** A record is counted once: as verified, as failed, or as an allowed unpinned one. */
  predicate CountsOnce(m: Mark, allowUnpinned: bool) {
    if m.unpinned then !m.pinned && !m.ok && m.bad == !allowUnpinned else m.ok == !m.bad
  }

  lemma {:induction false} TallyConserves(mark: Record -> Mark, allowUnpinned: bool, rs: seq<Record>)
    requires forall r: Record :: CountsOnce(mark(r), allowUnpinned)
    ensures var t := TallyBy(mark, rs);
            && t.total == |rs|
            && t.ok + t.bad == t.total - (if allowUnpinned then t.unpinned else 0)
  {
    if rs != [] {
      TallyConserves(mark, allowUnpinned, rs[..|rs| - 1]);
      assert CountsOnce(mark(rs[|rs| - 1]), allowUnpinned);
    }
  }

  function CountMalformed(rs: seq<Record>): nat {
    if rs == [] then 0 else CountMalformed(rs[..|rs| - 1]) + Bit(rs[|rs| - 1].field.Malformed?)
  }

  predicate TellsKind(m: Mark, r: Record) {
    m.pinned == r.field.Pinned? && m.unpinned == r.field.Unpinned?
  }

  lemma {:induction false} TallySplits(mark: Record -> Mark, rs: seq<Record>)
    requires forall r: Record :: TellsKind(mark(r), r)
    ensures var t := TallyBy(mark, rs); t.total - t.pinned - t.unpinned == CountMalformed(rs)
  {
    if rs != [] {
      TallySplits(mark, rs[..|rs| - 1]);
      assert TellsKind(mark(rs[|rs| - 1]), rs[|rs| - 1]);
    }
  }

  lemma MarksAreSound(run: Run)
    ensures forall r: Record :: CountsOnce(MarkFor(run)(r), run.policy.allowUnpinned) && TellsKind(MarkFor(run)(r), r)
  {
  }

  /** Conservation on every run: each walked record is counted once, an abort and a manifest failure
      once each, and what is neither pinned nor unpinned is malformed. */
  lemma Conservation(run: Run, feed: seq<Step>)
    ensures var s := SummaryOf(run, feed);
            && s.ok + s.failed == s.total - (if run.policy.allowUnpinned then s.unpinned else 0)
                                  + Bit(s.aborted) + Bit(Failed(s.manifest))
            && s.total - s.pinned - s.unpinned == CountMalformed(Walked(feed))
            && s.total == |Walked(feed)|
  {
    MarksAreSound(run);
    TallyConserves(MarkFor(run), run.policy.allowUnpinned, Walked(feed));
    TallySplits(MarkFor(run), Walked(feed));
  }

  // ---- the exit code ----

  predicate Passes(run: Run, r: Record) {
    if r.field.Unpinned? then run.policy.allowUnpinned
    else VerifyRecord(run.env, run.keys, run.legacy, r, run.policy) == V.Accepted
  }

  ghost predicate AllPass(run: Run, rs: seq<Record>) {
    forall i :: 0 <= i < |rs| ==> Passes(run, rs[i])
  }

  lemma {:induction false} NoneBad(mark: Record -> Mark, rs: seq<Record>)
    ensures TallyBy(mark, rs).bad == 0 <==> forall i :: 0 <= i < |rs| ==> !mark(rs[i]).bad
  {
    if rs != [] {
      var n := |rs| - 1;
      NoneBad(mark, rs[..n]);
      assert forall i :: 0 <= i < n ==> rs[..n][i] == rs[i];
    }
  }

  lemma BadMeans(run: Run, r: Record)
    ensures MarkFor(run)(r).bad <==> !Passes(run, r)
  {
  }

  /** Exit code 0 exactly when every walked record verified or was an allowed unpinned one, the walk did
      not abort and the manifest, if any, matched. */
  lemma ExitZeroIff(run: Run, feed: seq<Step>)
    ensures SummaryOf(run, feed).failed == 0 <==>
            && AllPass(run, Walked(feed)) && !Aborts(feed)
            && (run.manifest.Some? ==> ManifestOutcome(run, Walked(feed)) == Some(M.Matches))
  {
    var rs := Walked(feed);
    NoneBad(MarkFor(run), rs);
    forall i | 0 <= i < |rs|
      ensures MarkFor(run)(rs[i]).bad <==> !Passes(run, rs[i])
    {
      BadMeans(run, rs[i]);
    }
  }

  // ---- order independence ----

  function Without<T>(s: seq<T>, k: nat): seq<T>
    requires k < |s|
  {
    s[..k] + s[k + 1..]
  }

  lemma WithoutKeepsRest<T>(s: seq<T>, k: nat)
    requires k < |s|
    ensures multiset(s) == multiset(Without(s, k)) + multiset{s[k]}
  {
    assert s == s[..k] + [s[k]] + s[k + 1..];
  }

  lemma WithoutSnoc<T>(s: seq<T>, k: nat)
    requires k < |s|
    ensures k == |s| - 1 ==> Without(s, k) == s[..|s| - 1]
    ensures k < |s| - 1 ==> Without(s, k) == Without(s[..|s| - 1], k) + [s[|s| - 1]]
  {
  }

  /** Counting a record where it stands is counting it last. */
  lemma {:induction false} CountLast(mark: Record -> Mark, rs: seq<Record>, k: nat)
    requires k < |rs|
    ensures TallyBy(mark, rs) == Plus(TallyBy(mark, Without(rs, k)), mark(rs[k]))
  {
    var n := |rs| - 1;
    WithoutSnoc(rs, k);
    if k < n {
      CountLast(mark, rs[..n], k);
      TallySnoc(mark, Without(rs[..n], k), rs[n]);
      PlusCommutes(TallyBy(mark, Without(rs[..n], k)), mark(rs[k]), mark(rs[n]));
    }
  }

  lemma PlusCommutes(t: Tally, a: Mark, b: Mark)
    ensures Plus(Plus(t, a), b) == Plus(Plus(t, b), a)
  {
  }

  /** Taking out an earlier element leaves the last image in place. */
  lemma MappedWithout<S, T>(f: S -> T, s: seq<S>, k: nat)
    requires k < |s| - 1
    ensures Mapped(f, Without(s, k)) == Mapped(f, Without(s[..|s| - 1], k)) + [f(s[|s| - 1])]
  {
    WithoutSnoc(s, k);
    MappedSnoc(f, Without(s[..|s| - 1], k), s[|s| - 1]);
  }

  lemma MappedLast<S, T>(f: S -> T, s: seq<S>)
    requires s != []
    ensures Mapped(f, s) == Mapped(f, s[..|s| - 1]) + [f(s[|s| - 1])]
  {
  }

  lemma SnocBag<T>(s: seq<T>, x: T)
    ensures multiset(s + [x]) == multiset(s) + multiset{x}
  {
  }

  lemma BagSwap<T>(front: seq<T>, rest: seq<T>, x: T, last: T)
    requires multiset(front) == multiset(rest) + multiset{x}
    ensures multiset(front + [last]) == multiset(rest + [last]) + multiset{x}
  {
    SnocBag(front, last);
    SnocBag(rest, last);
  }

  lemma {:induction false} MapLast<S, T>(f: S -> T, s: seq<S>, k: nat)
    requires k < |s|
    ensures multiset(Mapped(f, s)) == multiset(Mapped(f, Without(s, k))) + multiset{f(s[k])}
  {
    var n := |s| - 1;
    MappedLast(f, s);
    if k < n {
      MapLast(f, s[..n], k);
      MappedWithout(f, s, k);
      BagSwap(Mapped(f, s[..n]), Mapped(f, Without(s[..n], k)), f(s[k]), f(s[n]));
    } else {
      WithoutSnoc(s, k);
      SnocBag(Mapped(f, s[..n]), f(s[n]));
    }
  }

  lemma FindLast<T(!new)>(a: seq<T>, b: seq<T>) returns (k: nat)
    requires a != [] && multiset(a) == multiset(b)
    ensures k < |b| && b[k] == a[|a| - 1] && multiset(a[..|a| - 1]) == multiset(Without(b, k))
  {
    var n := |a| - 1;
    assert a == a[..n] + [a[n]];
    assert a[n] in multiset(b);
    k :| 0 <= k < |b| && b[k] == a[n];
    WithoutKeepsRest(b, k);
    assert multiset(a[..n]) == multiset(a) - multiset{a[n]};
    assert multiset(Without(b, k)) == multiset(b) - multiset{a[n]};
  }

  lemma {:induction false} OrderFreeTally(mark: Record -> Mark, a: seq<Record>, b: seq<Record>)
    requires multiset(a) == multiset(b)
    ensures TallyBy(mark, a) == TallyBy(mark, b)
  {
    if a == [] {
      assert |multiset(b)| == 0;
    } else {
      var k := FindLast(a, b);
      OrderFreeTally(mark, a[..|a| - 1], Without(b, k));
      CountLast(mark, b, k);
    }
  }

  lemma {:induction false} OrderFreeMapped<S(!new), T>(f: S -> T, a: seq<S>, b: seq<S>)
    requires multiset(a) == multiset(b)
    ensures multiset(Mapped(f, a)) == multiset(Mapped(f, b))
  {
    if a == [] {
      assert |multiset(b)| == 0;
    } else {
      var k := FindLast(a, b);
      OrderFreeMapped(f, a[..|a| - 1], Without(b, k));
      MapLast(f, b, k);
    }
  }

  lemma OrderFreeOutcome(run: Run, a: seq<Record>, b: seq<Record>)
    requires multiset(a) == multiset(b)
    ensures ManifestOutcome(run, a) == ManifestOutcome(run, b)
  {
    OrderFreeMapped(EntryOf, a, b);
    if run.manifest.Some? {
      M.VerdictOrderFree(
        run.env, run.manifestKeys, run.manifest.value, EntriesOf(a), EntriesOf(b), run.policy.collectionId);
    }
  }

  /** Walking the same records in any order gives the same summary, manifest verdict and exit code. */
  lemma OrderFree(run: Run, a: seq<Step>, b: seq<Step>)
    requires multiset(Walked(a)) == multiset(Walked(b)) && (Aborts(a) <==> Aborts(b))
    ensures SummaryOf(run, a) == SummaryOf(run, b)
  {
    OrderFreeTally(MarkFor(run), Walked(a), Walked(b));
    OrderFreeOutcome(run, Walked(a), Walked(b));
  }

  // ---- soundness ----

  /** The pin field of every record came through `parse_pin_field`. */
  ghost predicate IsParsed(nfc: Normalizer, r: Record) {
    r.field.Pinned? ==> exists d: Json :: FromDict(nfc, d, false) == Some(r.field.pin)
  }

  lemma HashStringIsNulFree(t: Text)
    requires IsHashString(t)
    ensures NulFree(t)
  {
    var p := Ascii("sha256:");
    assert t[..7] == p;
    forall i | 0 <= i < |t|
      ensures t[i] != 0
    {
      if i < 7 {
        assert t[i] == p[i] == "sha256:"[i] as int;
      }
    }
  }

  lemma PyHashIsNulFree(t: Text)
    requires PyHashString(t)
    ensures NulFree(t)
  {
    if IsHashString(t) {
      HashStringIsNulFree(t);
    } else {
      HashStringIsNulFree(t[..|t| - 1]);
      assert forall i :: 0 <= i < |t| - 1 ==> t[i] == t[..|t| - 1][i];
    }
  }

  lemma EntryIsNulFree(nfc: Normalizer, r: Record)
    requires IsParsed(nfc, r)
    ensures NulFree(EntryOf(r).vecHash)
  {
    if r.field.Pinned? {
      var d: Json :| FromDict(nfc, d, false) == Some(r.field.pin);
      ParsedHash(nfc, d, r.field.pin);
      PyHashIsNulFree(r.field.pin.header.vecHash);
    }
  }

  lemma WalkedHashesAreNulFree(nfc: Normalizer, rs: seq<Record>)
    requires forall i :: 0 <= i < |rs| ==> IsParsed(nfc, rs[i])
    ensures NulFreeHashes(EntriesOf(rs))
  {
    forall i | 0 <= i < |rs|
      ensures NulFree(EntriesOf(rs)[i].vecHash)
    {
      EntryAt(rs, i);
      EntryIsNulFree(nfc, rs[i]);
    }
  }

  lemma ParsedHash(nfc: Normalizer, d: Json, p: Pin)
    requires FromDict(nfc, d, false) == Some(p)
    ensures PyHashString(p.header.vecHash)
  {
    ParsedIffRead(nfc, FieldsOf(d.members), false, p);
  }

  /** The record's vector has the hash that was committed for its id. */
  ghost predicate IsCommitted(env: V.Env, r: Record, committed: seq<Entry>) {
    r.field.Pinned? ==>
      V.VectorMatches(env, r.field.pin.header, r.vector) && Entry(r.id, r.field.pin.header.vecHash) in committed
  }

  lemma PassedIsCommitted(run: Run, rs: seq<Record>, committed: seq<Entry>, i: nat)
    requires i < |rs| && Passes(run, rs[i]) && Elements(EntriesOf(rs)) == Elements(committed)
    ensures IsCommitted(run.env, rs[i], committed)
  {
    if rs[i].field.Pinned? {
      AcceptedRecord(run.env, run.keys, run.legacy, rs[i], run.policy);
      EntryAt(rs, i);
      InElements(EntriesOf(rs), i);
    }
  }

  /** Every record set that matches a manifest is the one the manifest was built from. */
  lemma WalkedIsCommitted(
    run: Run, rs: seq<Record>, signer: M.Signer, collectionId: Text, committed: seq<Entry>, ts: Text)
    requires run.manifest.Some? && M.BuildManifest(run.env, signer, collectionId, committed, ts) == run.manifest
    requires NulFreeHashes(committed) && NulFreeHashes(EntriesOf(rs))
    requires ManifestOutcome(run, rs) == Some(M.Matches)
    ensures Elements(EntriesOf(rs)) == Elements(committed)
            || CollisionIn(run.env.sha, HashedStrings(run.env.sha, committed)
                                        + HashedStrings(run.env.sha, EntriesOf(rs)))
  {
    var m := M.BuiltMeans(run.env, signer, collectionId, committed, ts);
    M.MatchesMeans(run.env, run.manifestKeys, m, EntriesOf(rs), run.policy.collectionId);
    MerkleBinding(run.env.sha, committed, EntriesOf(rs));
  }

  /** If the audit exits 0 against the manifest built from `committed`, then the walked set of (id, hash)
      pairs is exactly the committed one, and every pinned vector has the hash committed for its id; or
      two strings with one digest are among those hashed for the two trees. */
  lemma AuditSound(run: Run, feed: seq<Step>, signer: M.Signer, collectionId: Text, committed: seq<Entry>, ts: Text)
    requires run.manifest.Some? && M.BuildManifest(run.env, signer, collectionId, committed, ts) == run.manifest
    requires forall i :: 0 <= i < |Walked(feed)| ==> IsParsed(run.env.nfc, Walked(feed)[i])
    requires NulFreeHashes(committed)
    requires SummaryOf(run, feed).failed == 0
    ensures var rs := Walked(feed);
            || CollisionIn(run.env.sha, HashedStrings(run.env.sha, committed)
                                        + HashedStrings(run.env.sha, EntriesOf(rs)))
            || (Elements(EntriesOf(rs)) == Elements(committed)
                && forall i :: 0 <= i < |rs| ==> IsCommitted(run.env, rs[i], committed))
  {
    var rs := Walked(feed);
    ExitZeroIff(run, feed);
    WalkedHashesAreNulFree(run.env.nfc, rs);
    WalkedIsCommitted(run, rs, signer, collectionId, committed, ts);
    if Elements(EntriesOf(rs)) == Elements(committed) {
      forall i | 0 <= i < |rs|
        ensures IsCommitted(run.env, rs[i], committed)
      {
        PassedIsCommitted(run, rs, committed, i);
      }
    }
  }

  lemma {:induction false} EntryAt(rs: seq<Record>, i: nat)
    requires i < |rs|
    ensures EntriesOf(rs)[i] == EntryOf(rs[i])
  {
    if i < |rs| - 1 {
      EntryAt(rs[..|rs| - 1], i);
    }
  }

  // ---- the whole command ----

  /** The command ends with exit code 0 exactly when every walked record verified or was an allowed unpinned
      one, the walk did not abort, the manifest given matched, and the manifest to write and the report could
      be signed. */
  lemma CommandExitsZeroIff(run: Run, out: Output, feed: seq<Step>)
    ensures EndOf(run, out, feed).exit == Some(0) <==>
            && AllPass(run, Walked(feed)) && !Aborts(feed)
            && (run.manifest.Some? ==> ManifestOutcome(run, Walked(feed)) == Some(M.Matches))
            && (out.writeManifest.Some? ==> EndOf(run, out, feed).written.Some?)
            && EndOf(run, out, feed).printed.Some?
  {
    ExitZeroIff(run, feed);
  }

  lemma WrittenIsBuilt(run: Run, out: Output, feed: seq<Step>, m: M.CollectionManifest)
    requires EndOf(run, out, feed).written == Some(m)
    ensures out.writeManifest.Some?
    ensures M.BuildManifest(run.env, out.writeManifest.value.signer, CollectionName(run.policy, out),
                            EntriesOf(Walked(feed)), out.writeManifest.value.ts) == Some(m)
  {
  }

  /** The manifest a run writes matches what that run walked, in any order. */
  lemma WrittenManifestMatches(
    run: Run, out: Output, feed: seq<Step>, m: M.CollectionManifest, keys: V.Registry, walked: seq<Entry>)
    requires EndOf(run, out, feed).written == Some(m) && out.writeManifest.Some?
    requires var signer := out.writeManifest.value.signer;
             signer.keyId in keys
             && forall message: Bytes :: run.env.accepts(keys[signer.keyId].publicKey, message, signer.sign(message))
    requires multiset(walked) == multiset(EntriesOf(Walked(feed)))
    ensures M.ManifestVerdictOf(run.env, keys, m, walked, Some(CollectionName(run.policy, out))) == M.Matches
  {
    WrittenIsBuilt(run, out, feed, m);
    var s := out.writeManifest.value;
    M.BuiltManifestMatches(
      run.env, keys, s.signer, CollectionName(run.policy, out), EntriesOf(Walked(feed)), s.ts, walked);
  }

  /** Two audits: when the second has no failure against the manifest the first one wrote, the two walked the
      same set of (id, hash) pairs and every pinned vector of the second has the hash the first recorded for
      its id; or two strings with one digest are among those hashed. Whether the first audit passed does not
      matter. */
  lemma SecondAuditSound(first: Run, out: Output, before: seq<Step>, second: Run, after: seq<Step>)
    requires second.manifest.Some? && EndOf(first, out, before).written == second.manifest && second.env == first.env
    requires forall i :: 0 <= i < |Walked(before)| ==> IsParsed(first.env.nfc, Walked(before)[i])
    requires forall i :: 0 <= i < |Walked(after)| ==> IsParsed(first.env.nfc, Walked(after)[i])
    requires SummaryOf(second, after).failed == 0
    ensures var a, b := EntriesOf(Walked(before)), EntriesOf(Walked(after));
            || CollisionIn(first.env.sha, HashedStrings(first.env.sha, a) + HashedStrings(first.env.sha, b))
            || (Elements(b) == Elements(a)
                && forall i :: 0 <= i < |Walked(after)| ==> IsCommitted(first.env, Walked(after)[i], a))
  {
    WrittenIsBuilt(first, out, before, second.manifest.value);
    var s := out.writeManifest.value;
    WalkedHashesAreNulFree(first.env.nfc, Walked(before));
    AuditSound(second, after, s.signer, CollectionName(first.policy, out), EntriesOf(Walked(before)), s.ts);
  }

  lemma VerdictCodesDiffer(a: M.ManifestVerdict, b: M.ManifestVerdict)
    requires VerdictCode(a) == VerdictCode(b)
    ensures a == b
  {
    VerdictCodeLength(a);
    VerdictCodeLength(b);
  }

  lemma VerdictCodeLength(v: M.ManifestVerdict)
    ensures |VerdictCode(v)| == match v
                                case Matches => 2
                                case Fails(e) =>
                                  match e case ParseError => 11 case UnknownKey => 11 case SignatureInvalid => 17
                                          case CollectionMismatch => 19 case CountMismatch => 14 case RootMismatch => 13
    ensures v == M.Fails(M.ParseError) ==> VerdictCode(v)[0] == 'p' as int
    ensures v == M.Fails(M.UnknownKey) ==> VerdictCode(v)[0] == 'u' as int
  {
  }

  /** What the report shows under a key of its own. */
  lemma ReportAt(out: Output, s: Summary, abort: Option<Text>, written: bool, f: ReportField)
    requires ReportName(f) != out.labelField
    ensures var r := Report(out, s, abort, written);
            var v := ReportValue(out, s, abort, written, f);
            if v.None? then ReportName(f) !in r else ReportName(f) in r && r[ReportName(f)] == v.value
  {
    ReportFieldsAt(out, s, abort, written, f);
  }

  /** The label does not stand in for another key of the report. */
  ghost predicate LabelApart(out: Output) {
    forall f: ReportField :: ReportName(f) != out.labelField
  }

  /** The report tells everything: equal reports are reports of equal counts, of the same abort and of the same
      manifest verdict. */
  lemma ReportInjective(
    out: Output, s: Summary, a: Option<Text>, v: bool, t: Summary, b: Option<Text>, w: bool)
    requires LabelApart(out) && s.aborted == a.Some? && t.aborted == b.Some?
    requires Report(out, s, a, v) == Report(out, t, b, w)
    ensures s == t && a == b && v == w
  {
    forall f: ReportField
      ensures ReportValue(out, s, a, v, f) == ReportValue(out, t, b, w, f)
    {
      ReportAt(out, s, a, v, f);
      ReportAt(out, t, b, w, f);
    }
    SameValues(out, s, a, v, t, b, w);
  }

  lemma SameValues(out: Output, s: Summary, a: Option<Text>, v: bool, t: Summary, b: Option<Text>, w: bool)
    requires s.aborted == a.Some? && t.aborted == b.Some?
    requires forall f: ReportField :: ReportValue(out, s, a, v, f) == ReportValue(out, t, b, w, f)
    ensures s == t && a == b && v == w
  {
    SameCount(s.total, t.total, ReportValue(out, s, a, v, Total), ReportValue(out, t, b, w, Total));
    SameCount(s.pinned, t.pinned, ReportValue(out, s, a, v, PinnedCount), ReportValue(out, t, b, w, PinnedCount));
    SameCount(s.ok, t.ok, ReportValue(out, s, a, v, VerifiedOk), ReportValue(out, t, b, w, VerifiedOk));
    SameCount(s.failed, t.failed, ReportValue(out, s, a, v, VerificationFailed),
              ReportValue(out, t, b, w, VerificationFailed));
    SameCount(s.unpinned, t.unpinned, ReportValue(out, s, a, v, UnpinnedCount),
              ReportValue(out, t, b, w, UnpinnedCount));
    SameVerdict(out, s, a, v, t, b, w);
    assert ReportValue(out, s, a, v, AbortedBy) == ReportValue(out, t, b, w, AbortedBy);
    assert ReportValue(out, s, a, v, ManifestWritten) == ReportValue(out, t, b, w, ManifestWritten);
  }

  lemma SameCount(m: nat, n: nat, x: Option<Json>, y: Option<Json>)
    requires x == Some(Num(Decimal(m))) && y == Some(Num(Decimal(n))) && x == y
    ensures m == n
  {
    DecimalInjective(m, n);
  }

  lemma SameVerdict(out: Output, s: Summary, a: Option<Text>, v: bool, t: Summary, b: Option<Text>, w: bool)
    requires ReportValue(out, s, a, v, ManifestCode) == ReportValue(out, t, b, w, ManifestCode)
    ensures s.manifest == t.manifest
  {
    if s.manifest.Some? {
      VerdictCodesDiffer(s.manifest.value, t.manifest.value);
    }
  }

  /** The printed report, when signed, verifies under the signer's key and holds every key of the unsigned one
      under its own value. */
  lemma PrintedSummaryVerifies(run: Run, out: Output, feed: seq<Step>, keys: V.Registry, printed: map<Text, Json>)
    requires out.summarySigner.Some? && EndOf(run, out, feed).printed == Some(printed)
    requires var signer, ts := out.summarySigner.value.signer, out.summarySigner.value.ts;
             && signer.keyId in keys && CalendarTs(ts)
             && (forall message: Bytes :: |signer.sign(message)| == 64)
             && forall message: Bytes :: run.env.accepts(keys[signer.keyId].publicKey, message, signer.sign(message))
    ensures M.SummaryVerdictOf(run.env, keys, Obj(printed)) == M.Matches
    ensures var report := Report(out, SummaryOf(run, feed), AbortOf(feed), EndOf(run, out, feed).written.Some?);
            forall k :: k in report && k != M.SummaryKid() && k != M.SummaryTs() && k != M.SummarySig() ==>
              k in printed && printed[k] == report[k]
  {
    var report := Report(out, SummaryOf(run, feed), AbortOf(feed), EndOf(run, out, feed).written.Some?);
    var s := out.summarySigner.value;
    M.SignedSummaryVerifies(run.env, keys, s.signer, report, s.ts);
  }
}
