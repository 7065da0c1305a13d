/** What the printed report of an audit shows, signed or not, counted from the walked records. */
module PrintedReport {
  import opened Common
  import opened JsonText
  import opened Attestation
  import opened Adapter
  import opened Audit
  import M = Manifest
  import V = Verifier

  // ---- which records are counted ----

  function PinnedOnes(rs: seq<Record>): set<nat> {
    set i: nat | i < |rs| && rs[i].field.Pinned?
  }

  function UnpinnedOnes(rs: seq<Record>): set<nat> {
    set i: nat | i < |rs| && rs[i].field.Unpinned?
  }

  predicate IsAccepted(run: Run, r: Record) {
    VerifyRecord(run.env, run.keys, run.legacy, r, run.policy) == V.Accepted
  }

  function VerifiedOnes(run: Run, rs: seq<Record>): set<nat> {
    set i: nat | i < |rs| && !rs[i].field.Unpinned? && IsAccepted(run, rs[i])
  }

  function RejectedOnes(run: Run, rs: seq<Record>): set<nat> {
    set i: nat | i < |rs| && !IsAccepted(run, rs[i])
  }

  lemma OneMore(a: set<nat>, b: set<nat>, n: nat, counted: bool)
    requires n !in a && b == if counted then a + {n} else a
    ensures |b| == |a| + Bit(counted)
  {
  }

  lemma PinnedSnoc(rs: seq<Record>, r: Record)
    ensures |PinnedOnes(rs + [r])| == |PinnedOnes(rs)| + Bit(r.field.Pinned?)
  {
    var n, all, counted := |rs|, rs + [r], r.field.Pinned?;
    assert forall i: nat :: i < n ==> all[i] == rs[i];
    assert PinnedOnes(all) == if counted then PinnedOnes(rs) + {n} else PinnedOnes(rs);
    OneMore(PinnedOnes(rs), PinnedOnes(all), n, counted);
  }

  lemma UnpinnedSnoc(rs: seq<Record>, r: Record)
    ensures |UnpinnedOnes(rs + [r])| == |UnpinnedOnes(rs)| + Bit(r.field.Unpinned?)
  {
    var n, all, counted := |rs|, rs + [r], r.field.Unpinned?;
    assert forall i: nat :: i < n ==> all[i] == rs[i];
    assert UnpinnedOnes(all) == if counted then UnpinnedOnes(rs) + {n} else UnpinnedOnes(rs);
    OneMore(UnpinnedOnes(rs), UnpinnedOnes(all), n, counted);
  }

  lemma VerifiedSnoc(run: Run, rs: seq<Record>, r: Record)
    ensures |VerifiedOnes(run, rs + [r])| == |VerifiedOnes(run, rs)| + Bit(!r.field.Unpinned? && IsAccepted(run, r))
  {
    var n, all, counted := |rs|, rs + [r], !r.field.Unpinned? && IsAccepted(run, r);
    assert forall i: nat :: i < n ==> all[i] == rs[i];
    assert VerifiedOnes(run, all) == if counted then VerifiedOnes(run, rs) + {n} else VerifiedOnes(run, rs);
    OneMore(VerifiedOnes(run, rs), VerifiedOnes(run, all), n, counted);
  }

  lemma RejectedSnoc(run: Run, rs: seq<Record>, r: Record)
    ensures |RejectedOnes(run, rs + [r])| == |RejectedOnes(run, rs)| + Bit(!IsAccepted(run, r))
  {
    var n, all, counted := |rs|, rs + [r], !IsAccepted(run, r);
    assert forall i: nat :: i < n ==> all[i] == rs[i];
    assert RejectedOnes(run, all) == if counted then RejectedOnes(run, rs) + {n} else RejectedOnes(run, rs);
    OneMore(RejectedOnes(run, rs), RejectedOnes(run, all), n, counted);
  }

  predicate CountsAre(run: Run, rs: seq<Record>, t: Tally) {
    && t.total == |rs| && t.pinned == |PinnedOnes(rs)| && t.unpinned == |UnpinnedOnes(rs)|
    && t.ok == |VerifiedOnes(run, rs)| && t.bad == |RejectedOnes(run, rs)|
  }

  lemma MarkMeans(run: Run, r: Record)
    ensures var m := MarkOf(run, r);
            && m.pinned == r.field.Pinned? && m.unpinned == r.field.Unpinned?
            && m.ok == (!r.field.Unpinned? && IsAccepted(run, r)) && m.bad == !IsAccepted(run, r)
  {
  }

  /** The counters count the records of their kinds. */
  lemma {:induction false} CountsMean(run: Run, rs: seq<Record>)
    ensures CountsAre(run, rs, TallyOf(run, rs))
  {
    if rs == [] {
      NoneCounted(run);
    } else {
      var n := |rs| - 1;
      var front, r := rs[..n], rs[n];
      CountsMean(run, front);
      assert rs == front + [r];
      TallySnoc(MarkFor(run), front, r);
      CountsSnoc(run, front, r);
    }
  }

  lemma NoneCounted(run: Run)
    ensures PinnedOnes([]) == {} && UnpinnedOnes([]) == {} && VerifiedOnes(run, []) == {} && RejectedOnes(run, []) == {}
  {
  }

  lemma CountsSnoc(run: Run, front: seq<Record>, r: Record)
    requires CountsAre(run, front, TallyOf(run, front))
    ensures CountsAre(run, front + [r], Plus(TallyOf(run, front), MarkOf(run, r)))
  {
    MarkMeans(run, r);
    PinnedSnoc(front, r);
    UnpinnedSnoc(front, r);
    VerifiedSnoc(run, front, r);
    RejectedSnoc(run, front, r);
  }

  // ---- what signing keeps ----

  predicate IsSealName(k: Text) {
    k == Ascii("summary_kid") || k == Ascii("summary_ts") || k == Ascii("summary_sig")
  }

  /** Signing leaves every key but its own three as it is. */
  lemma SealKeeps(out: Output, report: map<Text, Json>, printed: map<Text, Json>, k: Text)
    requires Sealed(out, report) == Some(printed) && !IsSealName(k)
    ensures (k in printed <==> k in report) && (k in report ==> printed[k] == report[k])
  {
  }

  lemma OwnNamesKept(f: ReportField)
    ensures !IsSealName(ReportName(f))
  {
    ReportNameLength(f);
    assert ReportName(VerifiedOk)[0] == 'v' as int;
  }

  /** What the printed report shows under a key of its own. */
  lemma PrintedAt(
    out: Output, s: Summary, abort: Option<Text>, written: bool, printed: map<Text, Json>, f: ReportField)
    requires LabelApart(out) && Sealed(out, Report(out, s, abort, written)) == Some(printed)
    ensures var v := ReportValue(out, s, abort, written, f);
            if v.None? then ReportName(f) !in printed
            else ReportName(f) in printed && printed[ReportName(f)] == v.value
  {
    OwnNamesKept(f);
    assert ReportName(f) != out.labelField;
    ReportAt(out, s, abort, written, f);
    SealKeeps(out, Report(out, s, abort, written), printed, ReportName(f));
  }

  // ---- the report ----

  predicate ShowsCount(printed: map<Text, Json>, name: Text, n: nat) {
    name in printed && printed[name] == Num(Decimal(n))
  }

  predicate ShowsText(printed: map<Text, Json>, name: Text, value: Option<Text>) {
    if value.None? then name !in printed else name in printed && printed[name] == Str(value.value)
  }

  /** The codes of the verdicts on a manifest. */
  predicate IsCodeOf(v: M.ManifestVerdict, code: Text) {
    && (v == M.Matches ==> code == Ascii("ok"))
    && (v == M.Fails(M.ParseError) ==> code == Ascii("parse_error"))
    && (v == M.Fails(M.UnknownKey) ==> code == Ascii("unknown_key"))
    && (v == M.Fails(M.SignatureInvalid) ==> code == Ascii("signature_invalid"))
    && (v == M.Fails(M.CollectionMismatch) ==> code == Ascii("collection_mismatch"))
    && (v == M.Fails(M.CountMismatch) ==> code == Ascii("count_mismatch"))
    && (v == M.Fails(M.RootMismatch) ==> code == Ascii("root_mismatch"))
  }

  lemma CodeIs(v: M.ManifestVerdict)
    ensures IsCodeOf(v, VerdictCode(v))
  {
  }

  /** The verdict on the manifest the run was given. */
  ghost function VerdictIn(run: Run, rs: seq<Record>): M.ManifestVerdict
    requires run.manifest.Some?
  {
    M.ManifestVerdictOf(run.env, run.manifestKeys, run.manifest.value, EntriesOf(rs), run.policy.collectionId)
  }

  /** What was not verified: the records rejected, an abort, a manifest that does not match. */
  ghost function Failures(run: Run, feed: seq<Step>): nat {
    |RejectedOnes(run, Walked(feed))| + Bit(Aborts(feed))
    + Bit(run.manifest.Some? && VerdictIn(run, Walked(feed)) != M.Matches)
  }

  ghost predicate ShowsCounts(run: Run, feed: seq<Step>, printed: map<Text, Json>) {
    var rs := Walked(feed);
    && ShowsCount(printed, Ascii("total"), |rs|)
    && ShowsCount(printed, Ascii("pinned"), |PinnedOnes(rs)|)
    && ShowsCount(printed, Ascii("unpinned"), |UnpinnedOnes(rs)|)
    && ShowsCount(printed, Ascii("verified_ok"), |VerifiedOnes(run, rs)|)
    && ShowsCount(printed, Ascii("verification_failed"), Failures(run, feed))
  }

  lemma SummaryCounts(run: Run, feed: seq<Step>)
    ensures var s, rs := SummaryOf(run, feed), Walked(feed);
            && s.total == |rs| && s.pinned == |PinnedOnes(rs)| && s.unpinned == |UnpinnedOnes(rs)|
            && s.ok == |VerifiedOnes(run, rs)| && s.failed == Failures(run, feed)
            && (s.manifest.Some? <==> run.manifest.Some?)
            && (run.manifest.Some? ==> s.manifest == Some(VerdictIn(run, rs)))
  {
    CountsMean(run, Walked(feed));
  }

  /** What is printed, without the label and the seal. */
  ghost predicate IsPrinted(out: Output, s: Summary, abort: Option<Text>, written: bool, printed: map<Text, Json>) {
    forall f: ReportField ::
      var v := ReportValue(out, s, abort, written, f);
      if v.None? then ReportName(f) !in printed else ReportName(f) in printed && printed[ReportName(f)] == v.value
  }

  lemma AllPrinted(out: Output, s: Summary, abort: Option<Text>, written: bool, printed: map<Text, Json>)
    requires LabelApart(out) && Sealed(out, Report(out, s, abort, written)) == Some(printed)
    ensures IsPrinted(out, s, abort, written, printed)
  {
    forall f: ReportField
      ensures var v := ReportValue(out, s, abort, written, f);
              if v.None? then ReportName(f) !in printed
              else ReportName(f) in printed && printed[ReportName(f)] == v.value
    {
      PrintedAt(out, s, abort, written, printed, f);
    }
  }

  lemma CountAt(out: Output, s: Summary, abort: Option<Text>, written: bool,
    printed: map<Text, Json>, f: ReportField, n: nat)
    requires IsPrinted(out, s, abort, written, printed)
    requires ReportValue(out, s, abort, written, f) == Some(Num(Decimal(n)))
    ensures ShowsCount(printed, ReportName(f), n)
  {
  }

  lemma TextAt(out: Output, s: Summary, abort: Option<Text>, written: bool,
    printed: map<Text, Json>, f: ReportField, t: Option<Text>)
    requires IsPrinted(out, s, abort, written, printed)
    requires ReportValue(out, s, abort, written, f) == if t.None? then None else Some(Str(t.value))
    ensures ShowsText(printed, ReportName(f), t)
  {
  }

  lemma CountShown(out: Output, s: Summary, abort: Option<Text>, written: bool, printed: map<Text, Json>)
    requires IsPrinted(out, s, abort, written, printed)
    ensures ShowsCount(printed, Ascii("total"), s.total) && ShowsCount(printed, Ascii("pinned"), s.pinned)
    ensures ShowsCount(printed, Ascii("unpinned"), s.unpinned) && ShowsCount(printed, Ascii("verified_ok"), s.ok)
    ensures ShowsCount(printed, Ascii("verification_failed"), s.failed)
  {
    CountAt(out, s, abort, written, printed, Total, s.total);
    CountAt(out, s, abort, written, printed, PinnedCount, s.pinned);
    CountAt(out, s, abort, written, printed, UnpinnedCount, s.unpinned);
    CountAt(out, s, abort, written, printed, VerifiedOk, s.ok);
    CountAt(out, s, abort, written, printed, VerificationFailed, s.failed);
  }

  lemma TextsShown(out: Output, s: Summary, abort: Option<Text>, written: bool, printed: map<Text, Json>)
    requires IsPrinted(out, s, abort, written, printed)
    ensures ShowsText(printed, Ascii("aborted"), abort)
    ensures ShowsText(printed, Ascii("manifest"),
                      if s.manifest.Some? then Some(VerdictCode(s.manifest.value)) else None)
    ensures ShowsText(printed, Ascii("manifest_written"), if written then Some(out.path) else None)
  {
    TextAt(out, s, abort, written, printed, AbortedBy, abort);
    TextAt(out, s, abort, written, printed, ManifestCode,
           if s.manifest.Some? then Some(VerdictCode(s.manifest.value)) else None);
    TextAt(out, s, abort, written, printed, ManifestWritten, if written then Some(out.path) else None);
  }

  lemma PrintedIsSealed(run: Run, out: Output, feed: seq<Step>, printed: map<Text, Json>)
    requires EndOf(run, out, feed).printed == Some(printed)
    ensures Sealed(out, Report(out, SummaryOf(run, feed), AbortOf(feed), out.writeManifest.Some?)) == Some(printed)
    ensures EndOf(run, out, feed).exit == Some(if SummaryOf(run, feed).failed > 0 then 1 else 0)
  {
  }

  /** Main result. The printed report, signed or not, shows how many records were walked, how many of them have a pin
      and how many none, how many were verified and how much was not; the exception that ended the walk; the code of
      the verdict on the manifest; the path of the manifest written; and the exit code tells whether all was. */
  lemma PrintedShows(run: Run, out: Output, feed: seq<Step>, printed: map<Text, Json>)
    requires LabelApart(out) && EndOf(run, out, feed).printed == Some(printed)
    ensures ShowsCounts(run, feed, printed)
    ensures ShowsText(printed, Ascii("aborted"), AbortOf(feed)) && (AbortOf(feed).Some? <==> Aborts(feed))
    ensures Ascii("manifest") in printed <==> run.manifest.Some?
    ensures run.manifest.Some? ==>
              printed[Ascii("manifest")].Str? && IsCodeOf(VerdictIn(run, Walked(feed)), printed[Ascii("manifest")].s)
    ensures ShowsText(printed, Ascii("manifest_written"), if out.writeManifest.Some? then Some(out.path) else None)
    ensures EndOf(run, out, feed).exit == Some(if Failures(run, feed) > 0 then 1 else 0)
  {
    var s := SummaryOf(run, feed);
    PrintedIsSealed(run, out, feed, printed);
    SummaryCounts(run, feed);
    AllPrinted(out, s, AbortOf(feed), out.writeManifest.Some?, printed);
    CountShown(out, s, AbortOf(feed), out.writeManifest.Some?, printed);
    TextsShown(out, s, AbortOf(feed), out.writeManifest.Some?, printed);
    if run.manifest.Some? {
      CodeIs(VerdictIn(run, Walked(feed)));
    }
  }

  /** The label is shown, unless signing takes its key. */
  lemma LabelShown(run: Run, out: Output, feed: seq<Step>, printed: map<Text, Json>)
    requires LabelApart(out) && EndOf(run, out, feed).printed == Some(printed) && !IsSealName(out.labelField)
    ensures ShowsText(printed, out.labelField, Some(out.labelValue))
  {
    var report := Report(out, SummaryOf(run, feed), AbortOf(feed), out.writeManifest.Some?);
    PrintedIsSealed(run, out, feed, printed);
    LabelInReport(out, SummaryOf(run, feed), AbortOf(feed), out.writeManifest.Some?);
    SealKeeps(out, report, printed, out.labelField);
  }

  lemma LabelInReport(out: Output, s: Summary, abort: Option<Text>, written: bool)
    requires LabelApart(out)
    ensures ShowsText(Report(out, s, abort, written), out.labelField, Some(out.labelValue))
  {
    forall k | k in ReportFields(out, s, abort, written)
      ensures k != out.labelField
    {
      var f :| f in REPORT_FIELDS && ReportName(f) == k;
    }
  }

  /** A signed report names its signer and the time and carries the signature over everything else. */
  lemma SealShown(run: Run, out: Output, feed: seq<Step>, printed: map<Text, Json>)
    requires EndOf(run, out, feed).printed == Some(printed) && out.summarySigner.Some?
    ensures var seal := out.summarySigner.value;
            && ShowsText(printed, Ascii("summary_kid"), Some(seal.signer.keyId))
            && ShowsText(printed, Ascii("summary_ts"), Some(seal.ts))
            && M.SummaryBytes(printed - {Ascii("summary_sig")}).Some?
            && ShowsText(printed, Ascii("summary_sig"),
                         Some(M.Base64Url.Encode(
                                seal.signer.sign(M.SummaryBytes(printed - {Ascii("summary_sig")}).value))))
  {
    var seal := out.summarySigner.value;
    var report := Report(out, SummaryOf(run, feed), AbortOf(feed), out.writeManifest.Some?);
    PrintedIsSealed(run, out, feed, printed);
    M.SignedSummaryShows(seal.signer, report, seal.ts);
  }
}
