/** The honest side of the protocol: what pipelines sign and store verifies, record by record and as a
    whole collection, after any history of the store. */
module Honest {
  import opened Common
  import opened VectorHash
  import opened Attestation
  import opened Adapter
  import opened Merkle
  import opened Signing
  import opened SignedBytes
  import opened Audit
  import opened Protocol
  import SizeGuard
  import StoredText
  import M = Manifest
  import V = Verifier

  lemma RunSnoc(w: World, moves: seq<Move>, m: Move)
    requires IsRun(w, moves) && Allowed(w, RunTo(w, moves), m)
    ensures IsRun(w, moves + [m]) && RunTo(w, moves + [m]) == After(w, RunTo(w, moves), m)
  {
    assert (moves + [m])[..|moves|] == moves;
  }

  /** The signature verifies on the message under this key and under no other. */
  ghost predicate OnlySigner(env: V.Env, sig: Bytes, key: Bytes, message: Bytes) {
    forall k: Bytes :: env.accepts(k, message, sig) <==> k == key
  }

  /** What an ingestion pipeline does for one record: pin it and store the pin with the record, as its JSON text or
      as its dict. */
  datatype Ingest = Ingest(
    id: Text, kid: Text, req: Request, made: Made, sig: Bytes, asText: bool, metadata: map<Text, Text>)

  function PinOf(i: Ingest): Pin { Pin(i.made.header, i.sig) }

  function RowOf(i: Ingest, stamp: int): Row {
    Row(if i.asText then TextField(StoredText.ToJson(PinOf(i))) else DictField(ToDict(PinOf(i)).members),
        i.req.vector, i.metadata, stamp)
  }

  /** `Signer.pin` succeeded under a registered key with a signature no other key accepts, and the pin meets the
      wire-format rules (signers do not enforce the size caps or the shape of `model_hash`). */
  ghost predicate CanIngest(w: World, keys: V.Registry, i: Ingest) {
    && IsPinnedBy(w, i) && FitsTheWire(w, PinOf(i)) && FitsTheForm(w, i) && IsSignedUnder(w, keys, i)
  }

  predicate IsPinnedBy(w: World, i: Ingest) {
    w.env.nfc(i.kid) == i.kid && PinHeaderOf(w.env, i.kid, i.req) == Some(i.made)
  }

  ghost predicate IsSignedUnder(w: World, keys: V.Registry, i: Ingest) {
    && i.kid in keys && |i.sig| == SIG_LEN && Canonicalize(w.env.nfc, i.made.header).Some?
    && OnlySigner(w.env, i.sig, keys[i.kid].publicKey, Canonicalize(w.env.nfc, i.made.header).value)
  }

  ghost predicate FitsTheWire(w: World, pin: Pin) {
    MeetsRules(w.env.nfc, pin, false)
  }

  /** A text is read back by `json.loads` and is within the cap of `from_json`. */
  ghost predicate FitsTheForm(w: World, i: Ingest) {
    i.asText ==> StoredText.IsJsonLoads(w.loads) && |StoredText.ToJson(PinOf(i))| <= MAX_PIN_JSON_BYTES
  }

  /** The policy asks nothing that the record and its pin do not have. */
  predicate PolicyFits(w: World, policy: Policy, i: Ingest) {
    PolicyHolds(w.env, i.made.header, Record(i.id, i.req.vector, Pinned(PinOf(i)), i.metadata), policy)
  }

  /** The stored pin parses to the pin. */
  lemma StoredPinParses(w: World, keys: V.Registry, i: Ingest, stamp: int)
    requires CanIngest(w, keys, i)
    ensures RecordOf(w, i.id, RowOf(i, stamp)).field == Pinned(PinOf(i))
  {
    if i.asText {
      StoredText.TextParsesBackIff(w.env.nfc, w.loads, PinOf(i), false);
      StoredText.TextStarts(PinOf(i));
      StoredTextParses(w.env.nfc, w.loads, StoredText.ToJson(PinOf(i)), PinOf(i));
    } else {
      DictIsNotEmpty(PinOf(i));
      SizeGuard.ParsesBackIff(w.env.nfc, PinOf(i), false);
      StoredDictParses(w.env.nfc, w.loads, ToDict(PinOf(i)), PinOf(i));
    }
  }

  lemma DictIsNotEmpty(pin: Pin)
    ensures ToDict(pin).members != map[]
  {
    assert Sig in PinFields(pin) && Name(Sig) in ToDict(pin).members;
  }

  lemma MadeHeader(w: World, i: Ingest)
    requires IsIdempotent(w.env.nfc) && IsPinnedBy(w, i)
    ensures i.made.header.v == 2 && i.made.header.kid == i.kid && i.made.header.ts == i.req.ts
  {
    SignedHeaders(w.env, i.kid, i.req);
  }

  lemma StoredRecordIs(w: World, keys: V.Registry, i: Ingest, stamp: int)
    requires CanIngest(w, keys, i)
    ensures RecordOf(w, i.id, RowOf(i, stamp)) == Record(i.id, i.req.vector, Pinned(PinOf(i)), i.metadata)
  {
    StoredPinParses(w, keys, i, stamp);
  }

  lemma OwnPinAuthentic(w: World, keys: V.Registry, legacy: bool, i: Ingest)
    requires i.made.header.v == 2 && i.made.header.kid == i.kid && IsSignedUnder(w, keys, i)
    ensures V.Authentic(w.env, keys, legacy, PinOf(i), None)
            <==> V.WindowOk(w.env, keys[i.kid], i.made.header.ts, None)
  {
    SignedPinAuthentic(w.env, keys, legacy, PinOf(i));
  }

  lemma SignedPinAuthentic(env: V.Env, keys: V.Registry, legacy: bool, pin: Pin)
    requires pin.header.v == 2 && |pin.sig| == SIG_LEN && pin.header.kid in keys
    requires Canonicalize(env.nfc, pin.header).Some?
    requires env.accepts(keys[pin.header.kid].publicKey, Canonicalize(env.nfc, pin.header).value, pin.sig)
    ensures V.Authentic(env, keys, legacy, pin, None)
            <==> V.WindowOk(env, keys[pin.header.kid], pin.header.ts, None)
  {
  }

  /** A record as the pipeline stored it is accepted exactly when its vector is no wider than the dtype it was
      pinned under, the key's window admits the pin, and the policy fits. */
  lemma StoredRecordAccepted(w: World, keys: V.Registry, legacy: bool, policy: Policy, i: Ingest, stamp: int)
    requires IsIdempotent(w.env.nfc) && CanIngest(w, keys, i)
    ensures VerifyRecord(w.env, keys, legacy, RecordOf(w, i.id, RowOf(i, stamp)), policy) == V.Accepted
            <==> && !IsWiderThan(i.req.vector, TargetFormat(i.req).value)
                 && V.WindowOk(w.env, keys[i.kid], i.req.ts, None) && PolicyFits(w, policy, i)
  {
    StoredRecordIs(w, keys, i, stamp);
    MadeHeader(w, i);
    OwnPinAuthentic(w, keys, legacy, i);
    PinnedVectorMatches(w.env, i.kid, i.req);
    AcceptedRecord(w.env, keys, legacy, RecordOf(w, i.id, RowOf(i, stamp)), policy);
  }

  /** The two steps of one ingestion, in any state. */
  function Steps(keys: V.Registry, i: Ingest, stamp: int): seq<Move> {
    [Sign(EventOf(keys, i)), Write(i.id, RowOf(i, stamp))]
  }

  function EventOf(keys: V.Registry, i: Ingest): Event {
    PinEvent(if i.kid in keys then keys[i.kid].publicKey else [], i.made)
  }

  lemma EventSigned(w: World, keys: V.Registry, i: Ingest)
    requires CanIngest(w, keys, i)
    ensures CanHappen(w, EventOf(keys, i)) && EventBytes(w, EventOf(keys, i)) == Canonicalize(w.env.nfc, i.made.header)
  {
    BytesAre(w.env.nfc, PinMessage(i.made.header));
    assert PinHeaderOf(w.env, w.env.nfc(i.kid), i.req) == Some(i.made);
  }

  /** What signing leaves: the signature in the log, the clock and the store as they were. */
  lemma AfterSigning(w: World, s: State, e: Event)
    requires EventBytes(w, e).Some? && TimesOrdered(w, s)
    ensures var t := After(w, s, Sign(e));
            t.clock == s.clock && t.store == s.store && InLog(t.log, e.key, EventBytes(w, e).value, t.clock)
  {
  }

  lemma OwnRowUnforged(w: World, keys: V.Registry, i: Ingest, log: Log, time: int)
    requires IsIdempotent(w.env.nfc) && CanIngest(w, keys, i)
    requires InLog(log, keys[i.kid].publicKey, Canonicalize(w.env.nfc, i.made.header).value, time)
    ensures Unforged(w, log, RowOf(i, time).raw, time)
  {
    StoredPinParses(w, keys, i, time);
    MadeHeader(w, i);
  }

  lemma SignThenWrite(w: World, keys: V.Registry, i: Ingest, s: State)
    requires IsIdempotent(w.env.nfc) && CanIngest(w, keys, i) && TimesOrdered(w, s)
    ensures Allowed(w, s, Sign(EventOf(keys, i)))
    ensures var t := After(w, s, Sign(EventOf(keys, i)));
            && t.clock == s.clock && t.store == s.store && Allowed(w, t, Write(i.id, RowOf(i, s.clock)))
  {
    EventSigned(w, keys, i);
    AfterSigning(w, s, EventOf(keys, i));
    OwnRowUnforged(w, keys, i, After(w, s, Sign(EventOf(keys, i))).log, s.clock);
  }

  lemma RunTwo(w: World, moves: seq<Move>, a: Move, b: Move)
    requires IsRun(w, moves) && Allowed(w, RunTo(w, moves), a) && Allowed(w, After(w, RunTo(w, moves), a), b)
    ensures IsRun(w, moves + [a, b]) && RunTo(w, moves + [a, b]) == After(w, After(w, RunTo(w, moves), a), b)
  {
    RunSnoc(w, moves, a);
    RunSnoc(w, moves + [a], b);
    TwoSnocs(moves, a, b);
  }

  lemma TwoSnocs<T>(s: seq<T>, a: T, b: T)
    ensures s + [a] + [b] == s + [a, b]
  {
  }

  lemma AfterWriting(w: World, s: State, id: Text, row: Row)
    ensures var t := After(w, s, Write(id, row)); t.clock == s.clock && t.store == s.store[id := row]
  {
  }

  lemma TimesInRuns(w: World, moves: seq<Move>)
    requires IsIdempotent(w.env.nfc) && IsRun(w, moves)
    ensures TimesOrdered(w, RunTo(w, moves))
  {
    RunKeepsInv(w, moves);
  }

  /** One ingestion after any run is a run, and leaves the row in the store. */
  lemma IngestOne(w: World, keys: V.Registry, moves: seq<Move>, i: Ingest)
    requires IsIdempotent(w.env.nfc) && IsRun(w, moves) && CanIngest(w, keys, i)
    ensures var s := RunTo(w, moves);
            var all := moves + Steps(keys, i, s.clock);
            && IsRun(w, all) && RunTo(w, all).clock == s.clock
            && RunTo(w, all).store == s.store[i.id := RowOf(i, s.clock)]
  {
    var s := RunTo(w, moves);
    TimesInRuns(w, moves);
    SignThenWrite(w, keys, i, s);
    RunTwo(w, moves, Sign(EventOf(keys, i)), Write(i.id, RowOf(i, s.clock)));
    AfterWriting(w, After(w, s, Sign(EventOf(keys, i))), i.id, RowOf(i, s.clock));
  }

  /** Sign a pin, store it, verify it, after any run: the stored record is accepted exactly when its vector is no
      wider than its dtype, the key's window admits the pin and the policy fits. */
  lemma HonestPathAccepts(
    w: World, moves: seq<Move>, keys: V.Registry, legacy: bool, policy: Policy, i: Ingest)
    requires IsIdempotent(w.env.nfc) && IsRun(w, moves) && CanIngest(w, keys, i)
    ensures var all := moves + Steps(keys, i, RunTo(w, moves).clock);
            && IsRun(w, all) && i.id in RunTo(w, all).store
            && (VerifyRecord(w.env, keys, legacy, RecordOf(w, i.id, RunTo(w, all).store[i.id]), policy) == V.Accepted
                <==> !IsWiderThan(i.req.vector, TargetFormat(i.req).value)
                     && V.WindowOk(w.env, keys[i.kid], i.req.ts, None) && PolicyFits(w, policy, i))
  {
    IngestOne(w, keys, moves, i);
    StoredRecordAccepted(w, keys, legacy, policy, i, RunTo(w, moves).clock);
  }

  // ---- an honest collection passes its own audit ----

  ghost predicate All<T>(p: T -> bool, s: seq<T>) {
    s == [] || (All(p, s[..|s| - 1]) && p(s[|s| - 1]))
  }

  lemma {:induction false} AllAt<T>(p: T -> bool, s: seq<T>, k: nat)
    requires All(p, s) && k < |s|
    ensures p(s[k])
  {
    if k < |s| - 1 {
      AllAt(p, s[..|s| - 1], k);
    }
  }

  ghost function Ingestible(w: World, keys: V.Registry): Ingest -> bool {
    i => CanIngest(w, keys, i)
  }

  ghost predicate CanIngestAll(w: World, keys: V.Registry, items: seq<Ingest>) {
    All(Ingestible(w, keys), items)
  }

  ghost predicate DistinctIds(items: seq<Ingest>) {
    forall j, k :: 0 <= j < k < |items| ==> items[j].id != items[k].id
  }

  /** The pipeline's steps for all records. */
  function AllSteps(keys: V.Registry, items: seq<Ingest>, stamp: int): seq<Move> {
    if items == [] then []
    else AllSteps(keys, items[..|items| - 1], stamp) + Steps(keys, items[|items| - 1], stamp)
  }

  /** The store holds exactly the records' rows. */
  ghost predicate HoldsExactly(store: map<Text, Row>, items: seq<Ingest>, stamp: int) {
    && (forall k :: 0 <= k < |items| ==> items[k].id in store && store[items[k].id] == RowOf(items[k], stamp))
    && (forall id :: id in store ==> exists k :: 0 <= k < |items| && items[k].id == id)
  }

  lemma HoldsOneMore(store: map<Text, Row>, items: seq<Ingest>, i: Ingest, stamp: int)
    requires HoldsExactly(store, items, stamp) && DistinctIds(items + [i])
    ensures HoldsExactly(store[i.id := RowOf(i, stamp)], items + [i], stamp)
  {
    var all, after := items + [i], store[i.id := RowOf(i, stamp)];
    forall k | 0 <= k < |all|
      ensures all[k].id in after && after[all[k].id] == RowOf(all[k], stamp)
    {
      assert k < |items| ==> all[k] == items[k] && all[k].id != all[|items|].id;
    }
    forall id | id in after
      ensures exists k :: 0 <= k < |all| && all[k].id == id
    {
      if id == i.id {
        assert all[|items|].id == id;
      } else {
        var k :| 0 <= k < |items| && items[k].id == id;
        assert all[k].id == id;
      }
    }
  }

  /** The pipeline's steps after a run are a run, take no time and leave just the records in the store. */
  ghost predicate Ingested(w: World, keys: V.Registry, moves: seq<Move>, items: seq<Ingest>) {
    var stamp := RunTo(w, moves).clock;
    var all := moves + AllSteps(keys, items, stamp);
    IsRun(w, all) && RunTo(w, all).clock == stamp && HoldsExactly(RunTo(w, all).store, items, stamp)
  }

  /** Ingesting records after any run that leaves the store empty is a run, and the store then holds them. */
  lemma {:induction false} IngestAll(w: World, keys: V.Registry, moves: seq<Move>, items: seq<Ingest>)
    requires IsIdempotent(w.env.nfc) && IsRun(w, moves) && RunTo(w, moves).store == map[]
    requires CanIngestAll(w, keys, items) && DistinctIds(items)
    ensures Ingested(w, keys, moves, items)
  {
    if items == [] {
      IngestNone(w, keys, moves);
    } else {
      var n := |items| - 1;
      DistinctFront(items);
      IngestAll(w, keys, moves, items[..n]);
      IngestLast(w, keys, moves, items[..n], items[n]);
    }
  }

  lemma DistinctFront(items: seq<Ingest>)
    requires DistinctIds(items) && items != []
    ensures DistinctIds(items[..|items| - 1]) && items == items[..|items| - 1] + [items[|items| - 1]]
  {
  }

  lemma IngestNone(w: World, keys: V.Registry, moves: seq<Move>)
    requires IsRun(w, moves) && RunTo(w, moves).store == map[]
    ensures Ingested(w, keys, moves, [])
  {
    assert moves + [] == moves;
  }

  lemma IngestLast(w: World, keys: V.Registry, moves: seq<Move>, front: seq<Ingest>, i: Ingest)
    requires IsIdempotent(w.env.nfc) && CanIngest(w, keys, i) && DistinctIds(front + [i])
    requires Ingested(w, keys, moves, front)
    ensures Ingested(w, keys, moves, front + [i])
  {
    var stamp := RunTo(w, moves).clock;
    var before := moves + AllSteps(keys, front, stamp);
    IngestOne(w, keys, before, i);
    HoldsOneMore(RunTo(w, before).store, front, i, stamp);
    AllStepsSnoc(keys, front, i, stamp);
    Assoc(moves, AllSteps(keys, front, stamp), Steps(keys, i, stamp));
  }

  lemma AllStepsSnoc(keys: V.Registry, front: seq<Ingest>, i: Ingest, stamp: int)
    ensures AllSteps(keys, front + [i], stamp) == AllSteps(keys, front, stamp) + Steps(keys, i, stamp)
  {
    assert (front + [i])[..|front|] == front;
  }

  function RecordsOf(w: World, items: seq<Ingest>, stamp: int): (rs: seq<Record>)
    ensures |rs| == |items|
  {
    if items == [] then []
    else [RecordOf(w, items[0].id, RowOf(items[0], stamp))] + RecordsOf(w, items[1..], stamp)
  }

  lemma {:induction false} RecordAt(w: World, items: seq<Ingest>, stamp: int, k: nat)
    requires k < |items|
    ensures RecordsOf(w, items, stamp)[k] == RecordOf(w, items[k].id, RowOf(items[k], stamp))
  {
    if k > 0 {
      RecordAt(w, items[1..], stamp, k - 1);
    }
  }

  /** The walk of a store that yields the records one by one. */
  function FeedOf(rs: seq<Record>): (feed: seq<Step>) {
    if rs == [] then [] else [Yield(rs[0])] + FeedOf(rs[1..])
  }

  lemma {:induction false} WalkedAll(rs: seq<Record>)
    ensures Walked(FeedOf(rs)) == rs && AbortOf(FeedOf(rs)) == None
  {
    if rs != [] {
      WalkedAll(rs[1..]);
      assert FeedOf(rs)[1..] == FeedOf(rs[1..]);
    }
  }

  lemma FeedWalksStore(w: World, s: State, items: seq<Ingest>, stamp: int)
    requires HoldsExactly(s.store, items, stamp)
    ensures WalksStore(w, s, FeedOf(RecordsOf(w, items, stamp)))
  {
    WalkedAll(RecordsOf(w, items, stamp));
    RecordsAreRows(w, s, items, stamp);
  }

  lemma RecordsAreRows(w: World, s: State, items: seq<Ingest>, stamp: int)
    requires HoldsExactly(s.store, items, stamp)
    ensures AreTheRows(w, s, RecordsOf(w, items, stamp))
  {
    var rs := RecordsOf(w, items, stamp);
    forall k | 0 <= k < |rs|
      ensures IsRow(w, s, rs[k])
    {
      RecordAt(w, items, stamp, k);
    }
    forall id | id in s.store
      ensures exists k :: 0 <= k < |rs| && rs[k].id == id
    {
      var k := RecordWith(w, s, items, stamp, id);
    }
  }

  lemma RecordWith(w: World, s: State, items: seq<Ingest>, stamp: int, id: Text) returns (k: nat)
    requires HoldsExactly(s.store, items, stamp) && id in s.store
    ensures k < |items| && RecordsOf(w, items, stamp)[k].id == id
  {
    k :| 0 <= k < |items| && items[k].id == id;
    RecordAt(w, items, stamp, k);
  }

  /** The record's own part of an audit without failures. */
  ghost predicate GoodRecord(w: World, run: Run, i: Ingest) {
    && TargetFormat(i.req).Some? && !IsWiderThan(i.req.vector, TargetFormat(i.req).value)
    && i.kid in run.keys && V.WindowOk(w.env, run.keys[i.kid], i.req.ts, None) && PolicyFits(w, run.policy, i)
  }

  ghost predicate AllGood(w: World, run: Run, items: seq<Ingest>) {
    forall k :: 0 <= k < |items| ==> GoodRecord(w, run, items[k])
  }

  lemma GoodRecordPasses(w: World, run: Run, i: Ingest, stamp: int)
    requires IsIdempotent(w.env.nfc) && run.env == w.env && CanIngest(w, run.keys, i) && GoodRecord(w, run, i)
    ensures Passes(run, RecordOf(w, i.id, RowOf(i, stamp))) && RecordOf(w, i.id, RowOf(i, stamp)).field.Pinned?
  {
    StoredRecordAccepted(w, run.keys, run.legacy, run.policy, i, stamp);
    StoredPinParses(w, run.keys, i, stamp);
  }

  /** Every record is pinned and passes. */
  lemma AllAccepted(w: World, run: Run, items: seq<Ingest>, stamp: int)
    requires IsIdempotent(w.env.nfc) && run.env == w.env && CanIngestAll(w, run.keys, items) && AllGood(w, run, items)
    ensures AllPass(run, RecordsOf(w, items, stamp)) && AllPinned(RecordsOf(w, items, stamp))
  {
    var rs := RecordsOf(w, items, stamp);
    forall k | 0 <= k < |rs|
      ensures Passes(run, rs[k]) && rs[k].field.Pinned?
    {
      RecordAt(w, items, stamp, k);
      AllAt(Ingestible(w, run.keys), items, k);
      GoodRecordPasses(w, run, items[k], stamp);
    }
  }

  ghost predicate AllPinned(rs: seq<Record>) {
    forall k :: 0 <= k < |rs| ==> rs[k].field.Pinned?
  }

  lemma {:induction false} NoneUnpinned(run: Run, rs: seq<Record>)
    requires AllPinned(rs)
    ensures TallyOf(run, rs).unpinned == 0
  {
    if rs != [] {
      NoneUnpinned(run, rs[..|rs| - 1]);
      assert !MarkFor(run)(rs[|rs| - 1]).unpinned;
    }
  }

  /** The manifest an honest builder made of the walked records, under a signature that verifies. */
  ghost predicate HonestManifest(w: World, run: Run, entries: seq<Entry>, collectionId: Text, ts: Text) {
    && run.manifest.Some? && run.manifest.value.kid in run.manifestKeys
    && UnsignedManifest(w, run.manifest.value.kid, collectionId, entries, ts) == Some(run.manifest.value.(sig := []))
    && M.ManifestBytes(run.manifest.value).Some?
    && w.env.accepts(run.manifestKeys[run.manifest.value.kid].publicKey,
                     M.ManifestBytes(run.manifest.value).value, run.manifest.value.sig)
    && (run.policy.collectionId.Some? ==> run.policy.collectionId.value == collectionId)
  }

  lemma HonestManifestMatches(w: World, run: Run, rs: seq<Record>, collectionId: Text, ts: Text)
    requires run.env == w.env && HonestManifest(w, run, EntriesOf(rs), collectionId, ts)
    ensures ManifestOutcome(run, rs) == Some(M.Matches)
  {
    var m := run.manifest.value;
    var built := M.BuiltMeans(w.env, M.Signer(m.kid, message => []), collectionId, EntriesOf(rs), ts);
    M.MatchesMeans(w.env, run.manifestKeys, m, EntriesOf(rs), run.policy.collectionId);
  }

  function SigningOf(run: Run, entries: seq<Entry>): Move
    requires run.manifest.Some? && run.manifest.value.kid in run.manifestKeys
  {
    var m := run.manifest.value;
    Sign(ManifestEvent(run.manifestKeys[m.kid].publicKey, m.(sig := []), entries))
  }

  lemma ManifestSigningAllowed(
    w: World, s: State, run: Run, entries: seq<Entry>, collectionId: Text, ts: Text)
    requires NulFreeHashes(entries) && HonestManifest(w, run, entries, collectionId, ts)
    ensures Allowed(w, s, SigningOf(run, entries)) && After(w, s, SigningOf(run, entries)).store == s.store
  {
    var m := run.manifest.value;
    M.SigIsUnsigned(m, []);
    BytesAre(w.env.nfc, ManifestMessage(m.(sig := [])));
  }

  lemma SignAfterIngest(
    w: World, stored: seq<Move>, run: Run, items: seq<Ingest>, stamp: int, collectionId: Text, ts: Text)
    requires IsRun(w, stored) && HoldsExactly(RunTo(w, stored).store, items, stamp)
    requires HonestManifest(w, run, EntriesOf(RecordsOf(w, items, stamp)), collectionId, ts)
    ensures var all := stored + [SigningOf(run, EntriesOf(RecordsOf(w, items, stamp)))];
            IsRun(w, all) && WalksStore(w, RunTo(w, all), FeedOf(RecordsOf(w, items, stamp)))
  {
    var s, rs := RunTo(w, stored), RecordsOf(w, items, stamp);
    StoredAreNulFree(w, s, items, stamp);
    ManifestSigningAllowed(w, s, run, EntriesOf(rs), collectionId, ts);
    RunSnoc(w, stored, SigningOf(run, EntriesOf(rs)));
    FeedWalksStore(w, After(w, s, SigningOf(run, EntriesOf(rs))), items, stamp);
  }

  lemma StoredAreNulFree(w: World, s: State, items: seq<Ingest>, stamp: int)
    requires HoldsExactly(s.store, items, stamp)
    ensures NulFreeHashes(EntriesOf(RecordsOf(w, items, stamp)))
  {
    var rs := RecordsOf(w, items, stamp);
    RecordsAreRows(w, s, items, stamp);
    StoreRowsAreParsed(w, s, rs);
    WalkedHashesAreNulFree(w.env.nfc, rs);
  }

  /** The audit's own part. */
  lemma CollectionPasses(w: World, run: Run, items: seq<Ingest>, stamp: int, collectionId: Text, ts: Text)
    requires IsIdempotent(w.env.nfc) && run.env == w.env && CanIngestAll(w, run.keys, items) && AllGood(w, run, items)
    requires HonestManifest(w, run, EntriesOf(RecordsOf(w, items, stamp)), collectionId, ts)
    ensures var feed := FeedOf(RecordsOf(w, items, stamp));
            SummaryOf(run, feed).failed == 0 && SummaryOf(run, feed).ok == |items|
  {
    var rs := RecordsOf(w, items, stamp);
    WalkedAll(rs);
    AllAccepted(w, run, items, stamp);
    HonestManifestMatches(w, run, rs, collectionId, ts);
    NoneUnpinned(run, rs);
    CleanAudit(run, FeedOf(rs));
  }

  /** An audit whose records are pinned and pass and whose manifest matches verifies every one. */
  lemma CleanAudit(run: Run, feed: seq<Step>)
    requires AllPass(run, Walked(feed)) && !Aborts(feed) && ManifestOutcome(run, Walked(feed)) == Some(M.Matches)
    requires TallyOf(run, Walked(feed)).unpinned == 0
    ensures SummaryOf(run, feed).failed == 0 && SummaryOf(run, feed).ok == |Walked(feed)|
  {
    ExitZeroIff(run, feed);
    Conservation(run, feed);
  }

  /** The steps of the whole pipeline: every record, then the manifest. */
  function Pipeline(run: Run, items: seq<Ingest>, rs: seq<Record>, stamp: int): seq<Move>
    requires run.manifest.Some? && run.manifest.value.kid in run.manifestKeys
  {
    AllSteps(run.keys, items, stamp) + [SigningOf(run, EntriesOf(rs))]
  }

  lemma PipelineRuns(
    w: World, moves: seq<Move>, run: Run, items: seq<Ingest>, stamp: int, collectionId: Text, ts: Text)
    requires Ingested(w, run.keys, moves, items) && stamp == RunTo(w, moves).clock
    requires HonestManifest(w, run, EntriesOf(RecordsOf(w, items, stamp)), collectionId, ts)
    ensures var rs := RecordsOf(w, items, stamp);
            var all := moves + Pipeline(run, items, rs, stamp);
            IsRun(w, all) && WalksStore(w, RunTo(w, all), FeedOf(rs))
  {
    var signing := SigningOf(run, EntriesOf(RecordsOf(w, items, stamp)));
    SignAfterIngest(w, moves + AllSteps(run.keys, items, stamp), run, items, stamp, collectionId, ts);
    Assoc(moves, AllSteps(run.keys, items, stamp), [signing]);
  }

  /** The honest collection. After any run that leaves the store empty, pinning and storing records with distinct
      ids and then signing the manifest of the collection is a run; and an audit of the whole store against that
      manifest has no failure and verifies every record, provided each record's own part is good: a vector no
      wider than its dtype, a window that admits its pin and a policy that fits. */
  lemma HonestCollectionPasses(
    w: World, moves: seq<Move>, run: Run, items: seq<Ingest>, stamp: int, collectionId: Text, ts: Text)
    requires IsIdempotent(w.env.nfc) && IsRun(w, moves) && RunTo(w, moves).store == map[] && run.env == w.env
    requires stamp == RunTo(w, moves).clock
    requires CanIngestAll(w, run.keys, items) && DistinctIds(items) && AllGood(w, run, items)
    requires HonestManifest(w, run, EntriesOf(RecordsOf(w, items, stamp)), collectionId, ts)
    ensures var rs := RecordsOf(w, items, stamp);
            var all := moves + Pipeline(run, items, rs, stamp);
            && IsRun(w, all) && WalksStore(w, RunTo(w, all), FeedOf(rs))
            && SummaryOf(run, FeedOf(rs)).failed == 0 && SummaryOf(run, FeedOf(rs)).ok == |items|
  {
    IngestAll(w, run.keys, moves, items);
    PipelineRuns(w, moves, run, items, stamp, collectionId, ts);
    CollectionPasses(w, run, items, stamp, collectionId, ts);
  }
}
