/** The system over whole runs: honest signing of pins, manifests and summaries interleaved with
    arbitrary rewrites of the store, key leaks and signatures made with leaked keys.

    Ed25519 is a log of signed (key, message) pairs with the time each was first signed: nobody can
    write down a verifying signature on a message that is not in the log. */
module Protocol {
  import opened Common
  import opened JsonText
  import opened Hashing
  import opened VectorHash
  import opened Attestation
  import opened Adapter
  import opened Merkle
  import opened Signing
  import opened SignedBytes
  import opened Audit
  import M = Manifest
  import V = Verifier

  // ---- the state ----

  /** What a key holder did. */
  datatype Event =
    | PinEvent(key: Bytes, made: Made)
    | LegacyEvent(key: Bytes, header: PinHeader)
    | ManifestEvent(key: Bytes, manifest: M.CollectionManifest, entries: seq<Entry>)
    | SummaryEvent(key: Bytes, body: map<Text, Json>)

  function MessageOf(e: Event): Message {
    match e
    case PinEvent(_, made) => PinMessage(made.header)
    case LegacyEvent(_, h) => LegacyMessage(h)
    case ManifestEvent(_, m, _) => ManifestMessage(m)
    case SummaryEvent(_, body) => SummaryMessage(body)
  }

  /** A stored row, and the time the store wrote it by its own clock. */
  datatype Row = Row(raw: RawField, vector: Vector, metadata: map<Text, Text>, stamp: int)

  type Log = map<(Bytes, Bytes), int>

  datatype State = State(
    log: Log, history: set<Event>, leakedAt: map<Bytes, int>, clock: int, store: map<Text, Row>)

  /** What stays fixed over a run: the outside functions and the JSON parser of the pin field. */
  datatype World = World(env: V.Env, loads: Loader)

  const START: State := State(map[], {}, map[], 0, map[])

  // ---- the steps ----

  datatype Move =
    | Sign(event: Event)
    | Write(id: Text, row: Row)
    | Rewrite(id: Text, vector: Vector, metadata: map<Text, Text>)
    | Delete(id: Text)
    | Leak(key: Bytes)
    | Forge(key: Bytes, message: Bytes)
    | Tick(elapsed: nat)

  /** The manifest `build_manifest` signs, without its signature. */
  ghost function UnsignedManifest(w: World, kid: Text, collectionId: Text, entries: seq<Entry>, ts: Text)
    : Option<M.CollectionManifest>
  {
    M.BuildManifest(w.env, M.Signer(kid, message => []), collectionId, entries, ts)
  }

  /** The events honest code can produce: what `Signer.pin` and `build_manifest` sign on some input (with
      vector hashes or empty strings in the entries), any v1 header, any JSON summary. */
  ghost predicate CanHappen(w: World, e: Event) {
    match e
    case PinEvent(_, made) =>
      exists kid: Text, req: Request :: PinHeaderOf(w.env, w.env.nfc(kid), req) == Some(made)
    case LegacyEvent(_, h) => h.v == 1
    case ManifestEvent(_, m, entries) =>
      NulFreeHashes(entries)
      && exists kid: Text, collectionId: Text, ts: Text ::
           UnsignedManifest(w, kid, collectionId, entries, ts) == Some(m)
    case SummaryEvent(_, body) => WellFormed(Python, Obj(body))
  }

  function EventBytes(w: World, e: Event): Option<Bytes> {
    BytesOf(w.env.nfc, MessageOf(e))
  }

  /** A signature is logged once, with the time it was first made. */
  function Logged(s: State, key: Bytes, message: Bytes): State {
    s.(log := if (key, message) in s.log then s.log else s.log[(key, message) := s.clock])
  }

  /** The verifying signatures in a pin field are on logged messages, signed no later than `time`. */
  ghost predicate Unforged(w: World, log: Log, raw: RawField, time: int) {
    var f := ParsePinField(w.env.nfc, w.loads, raw);
    f.Pinned? ==>
      forall key: Bytes, message: Bytes ::
        V.CanonicalFor(w.env, f.pin.header) == Some(message) && w.env.accepts(key, message, f.pin.sig) ==>
          InLog(log, key, message, time)
  }

  predicate InLog(log: Log, key: Bytes, message: Bytes, time: int) {
    (key, message) in log && log[(key, message)] <= time
  }

  /** Whole rows are stamped by the store and hold no forged signature; the vector and the metadata of a row
      can be replaced under its old stamp and pin at any time; only a leaked key signs for others; honest code
      signs what it can and only where canonicalization does not raise. */
  ghost predicate Allowed(w: World, s: State, m: Move) {
    match m
    case Sign(e) => CanHappen(w, e) && EventBytes(w, e).Some?
    case Write(_, row) => row.stamp == s.clock && Unforged(w, s.log, row.raw, s.clock)
    case Rewrite(id, _, _) => id in s.store
    case Forge(key, _) => key in s.leakedAt
    case _ => true
  }

  /** The effect of an allowed step. */
  ghost function After(w: World, s: State, m: Move): State {
    match m
    case Sign(e) =>
      if EventBytes(w, e).None? then s
      else Logged(s, e.key, EventBytes(w, e).value).(history := s.history + {e})
    case Write(id, row) => s.(store := s.store[id := row])
    case Rewrite(id, vector, metadata) =>
      if id !in s.store then s
      else s.(store := s.store[id := s.store[id].(vector := vector, metadata := metadata)])
    case Delete(id) => s.(store := s.store - {id})
    case Leak(key) => s.(leakedAt := if key in s.leakedAt then s.leakedAt else s.leakedAt[key := s.clock])
    case Forge(key, message) => Logged(s, key, message)
    case Tick(elapsed) => s.(clock := s.clock + elapsed)
  }

  /** The state after a run, and whether every step of it was allowed. */
  ghost function RunTo(w: World, moves: seq<Move>): State {
    if moves == [] then START else After(w, RunTo(w, moves[..|moves| - 1]), moves[|moves| - 1])
  }

  ghost predicate IsRun(w: World, moves: seq<Move>) {
    moves != [] ==>
      IsRun(w, moves[..|moves| - 1]) && Allowed(w, RunTo(w, moves[..|moves| - 1]), moves[|moves| - 1])
  }

  // ---- the invariant ----

  /** A logged message was signed by its holder, or at or after the time its key leaked. */
  ghost predicate Accounted(w: World, s: State, key: Bytes, message: Bytes) {
    || (key in s.leakedAt && (key, message) in s.log && s.leakedAt[key] <= s.log[(key, message)])
    || exists e :: e in s.history && e.key == key && EventBytes(w, e) == Some(message)
  }

  ghost predicate LogAccounted(w: World, s: State) {
    forall key: Bytes, message: Bytes :: (key, message) in s.log ==> Accounted(w, s, key, message)
  }

  /** What holds of an event because an honest signer made it. */
  ghost predicate IsHonest(w: World, e: Event) {
    match e
    case PinEvent(_, made) => IsMade(w.env, made)
    case LegacyEvent(_, _) => true
    case ManifestEvent(_, m, entries) =>
      NulFreeHashes(entries) && MerkleRootOf(w.env.sha, entries) == Ok(m.merkleRoot) && m.count == |entries|
    case SummaryEvent(_, body) => WellFormed(Python, Obj(body))
  }

  ghost predicate HistoryHonest(w: World, s: State) {
    forall e :: e in s.history ==> IsHonest(w, e)
  }

  /** No time lies in the future, and no row holds a signature made after the row was written. */
  ghost predicate TimesOrdered(w: World, s: State) {
    && (forall p :: p in s.log ==> s.log[p] <= s.clock)
    && (forall key :: key in s.leakedAt ==> s.leakedAt[key] <= s.clock)
    && (forall id :: id in s.store ==> s.store[id].stamp <= s.clock)
  }

  ghost predicate RowsUnforged(w: World, s: State) {
    forall id :: id in s.store ==> Unforged(w, s.log, s.store[id].raw, s.store[id].stamp)
  }

  ghost predicate Inv(w: World, s: State) {
    LogAccounted(w, s) && HistoryHonest(w, s) && TimesOrdered(w, s) && RowsUnforged(w, s)
  }

  // ---- every step keeps it ----

  /** The log only grows, and keeps first times. */
  ghost predicate Extends(s: State, t: State) {
    && (forall p :: p in s.log ==> p in t.log && t.log[p] == s.log[p])
    && s.history <= t.history
    && (forall key :: key in s.leakedAt ==> key in t.leakedAt && t.leakedAt[key] == s.leakedAt[key])
  }

  lemma AccountedStays(w: World, s: State, t: State, key: Bytes, message: Bytes)
    requires Extends(s, t) && Accounted(w, s, key, message)
    ensures Accounted(w, t, key, message)
  {
  }

  lemma UnforgedStays(w: World, s: State, t: State, raw: RawField, time: int)
    requires Extends(s, t) && Unforged(w, s.log, raw, time)
    ensures Unforged(w, t.log, raw, time)
  {
  }

  lemma StepExtends(w: World, s: State, m: Move)
    ensures Extends(s, After(w, s, m))
  {
  }

  /** What a step adds to the log is accounted for. */
  lemma NewEntriesAccounted(w: World, s: State, m: Move, key: Bytes, message: Bytes)
    requires TimesOrdered(w, s) && Allowed(w, s, m)
    requires (key, message) in After(w, s, m).log && (key, message) !in s.log
    ensures Accounted(w, After(w, s, m), key, message)
  {
    var t := After(w, s, m);
    if m.Forge? {
      assert t.log[(key, message)] == s.clock && key in t.leakedAt;
    } else {
      assert m.Sign? && m.event in t.history;
    }
  }

  lemma StepKeepsLog(w: World, s: State, m: Move)
    requires LogAccounted(w, s) && TimesOrdered(w, s) && Allowed(w, s, m)
    ensures LogAccounted(w, After(w, s, m))
  {
    var t := After(w, s, m);
    StepExtends(w, s, m);
    forall key: Bytes, message: Bytes | (key, message) in t.log
      ensures Accounted(w, t, key, message)
    {
      if (key, message) in s.log {
        AccountedStays(w, s, t, key, message);
      } else {
        NewEntriesAccounted(w, s, m, key, message);
      }
    }
  }

  lemma HonestEvents(w: World, e: Event)
    requires IsIdempotent(w.env.nfc) && CanHappen(w, e)
    ensures IsHonest(w, e)
  {
    match e
    case PinEvent(_, made) =>
      var kid: Text, req: Request :| PinHeaderOf(w.env, w.env.nfc(kid), req) == Some(made);
      SignedHeaders(w.env, w.env.nfc(kid), req);
    case ManifestEvent(_, m, entries) =>
      var kid: Text, collectionId: Text, ts: Text :| UnsignedManifest(w, kid, collectionId, entries, ts) == Some(m);
      var built := M.BuiltMeans(w.env, M.Signer(kid, message => []), collectionId, entries, ts);
    case _ =>
  }

  lemma StepKeepsHistory(w: World, s: State, m: Move)
    requires IsIdempotent(w.env.nfc) && HistoryHonest(w, s) && Allowed(w, s, m)
    ensures HistoryHonest(w, After(w, s, m))
  {
    if m.Sign? {
      HonestEvents(w, m.event);
    }
  }

  lemma StepKeepsTimes(w: World, s: State, m: Move)
    requires TimesOrdered(w, s) && Allowed(w, s, m)
    ensures TimesOrdered(w, After(w, s, m))
  {
  }

  lemma StepKeepsRows(w: World, s: State, m: Move)
    requires RowsUnforged(w, s) && Allowed(w, s, m)
    ensures RowsUnforged(w, After(w, s, m))
  {
    var t := After(w, s, m);
    StepExtends(w, s, m);
    forall id | id in t.store
      ensures Unforged(w, t.log, t.store[id].raw, t.store[id].stamp)
    {
      if m.Write? && id == m.id {
        assert t.store[id] == m.row && t.log == s.log;
      } else {
        assert id in s.store && t.store[id].raw == s.store[id].raw && t.store[id].stamp == s.store[id].stamp;
        UnforgedStays(w, s, t, s.store[id].raw, s.store[id].stamp);
      }
    }
  }

  /** Every reachable state satisfies the invariant. */
  lemma {:induction false} RunKeepsInv(w: World, moves: seq<Move>)
    requires IsIdempotent(w.env.nfc) && IsRun(w, moves)
    ensures Inv(w, RunTo(w, moves))
  {
    if moves != [] {
      var front, m := moves[..|moves| - 1], moves[|moves| - 1];
      RunKeepsInv(w, front);
      var s := RunTo(w, front);
      StepKeepsLog(w, s, m);
      StepKeepsHistory(w, s, m);
      StepKeepsTimes(w, s, m);
      StepKeepsRows(w, s, m);
    }
  }

  // ---- safety ----

  function RecordOf(w: World, id: Text, row: Row): Record {
    Record(id, row.vector, ParsePinField(w.env.nfc, w.loads, row.raw), row.metadata)
  }

  /** The holder of `key` really signed this header as a pin. */
  ghost predicate SignedAsPin(s: State, key: Bytes, h: PinHeader, made: Made) {
    PinEvent(key, made) in s.history && made.header == h
  }

  lemma EventIsMessage(w: World, e: Event)
    requires IsHonest(w, e)
    ensures IsMessage(MessageOf(e))
  {
  }

  /** An event whose signed bytes are those of a normalized v2 header is a pin event with that header. */
  lemma BytesNameTheEvent(w: World, e: Event, h: PinHeader)
    requires IsHonest(w, e) && IsNormalized(w.env.nfc, h)
    requires Canonicalize(w.env.nfc, h).Some? && EventBytes(w, e) == Canonicalize(w.env.nfc, h)
    ensures e.PinEvent? && e.made.header == h
  {
    var nfc := w.env.nfc;
    BytesAre(nfc, PinMessage(h));
    EventIsMessage(w, e);
    SignedBytesDecodable(nfc, PinMessage(h), MessageOf(e));
    NormalizedIdentity(nfc, h);
    NormalizedIdentity(nfc, e.made.header);
  }

  /** A verifying signature in a row that was written before its key leaked is the holder's own. */
  lemma RowSignatureIsHonest(w: World, s: State, row: Row, key: Bytes) returns (made: Made)
    requires Inv(w, s) && Unforged(w, s.log, row.raw, row.stamp)
    requires ParsePinField(w.env.nfc, w.loads, row.raw).Pinned?
    requires var pin := ParsePinField(w.env.nfc, w.loads, row.raw).pin;
             var message := V.CanonicalFor(w.env, pin.header);
             message.Some? && w.env.accepts(key, message.value, pin.sig)
    requires key in s.leakedAt ==> row.stamp < s.leakedAt[key]
    ensures SignedAsPin(s, key, ParsePinField(w.env.nfc, w.loads, row.raw).pin.header, made)
    ensures IsMade(w.env, made)
  {
    var pin := ParsePinField(w.env.nfc, w.loads, row.raw).pin;
    ParsedField(w.env.nfc, w.loads, row.raw);
    var d: Json :| FromDict(w.env.nfc, d, false) == Some(pin);
    ParsedIsNormalized(w.env.nfc, d, pin);
    var message := V.CanonicalFor(w.env, pin.header).value;
    assert InLog(s.log, key, message, row.stamp);
    assert Accounted(w, s, key, message);
    var e :| e in s.history && e.key == key && EventBytes(w, e) == Some(message);
    BytesNameTheEvent(w, e, pin.header);
    made := e.made;
    assert e == PinEvent(key, made);
  }

  /** The stored vector's canonical bytes are the signed ones, or the two have one digest. */
  ghost predicate CarriesSignedBytes(env: V.Env, v: Vector, made: Made) {
    FormatOf(made.header.vecDtype).Some?
    && var bytes := CanonicalVectorBytes(v, FormatOf(made.header.vecDtype).value);
       bytes.Some? && (bytes.value == made.vectorBytes || CollisionIn(env.sha, {made.vectorBytes, bytes.value}))
  }

  lemma MatchingVectorIsSigned(env: V.Env, made: Made, v: Vector)
    requires IsMade(env, made) && V.VectorMatches(env, made.header, v)
    ensures CarriesSignedBytes(env, v, made)
  {
    HashBytesBinding(env.sha, made.vectorBytes, CanonicalVectorBytes(v, FormatOf(made.header.vecDtype).value).value);
  }

  /** Safety over every run. A row that `verify_record` accepts as pinned under a key that has not leaked
      carries a header the holder of that key really signed as a pin; its stored vector has the signed
      canonical bytes (or a collision is exhibited); and a bound record id is the record's. */
  lemma Safety(w: World, moves: seq<Move>, keys: V.Registry, legacy: bool, policy: Policy, id: Text)
    returns (made: Made)
    requires IsIdempotent(w.env.nfc) && IsRun(w, moves) && id in RunTo(w, moves).store
    requires RecordOf(w, id, RunTo(w, moves).store[id]).field.Pinned?
    requires VerifyRecord(w.env, keys, legacy, RecordOf(w, id, RunTo(w, moves).store[id]), policy) == V.Accepted
    requires var h := RecordOf(w, id, RunTo(w, moves).store[id]).field.pin.header;
             h.kid in keys ==> keys[h.kid].publicKey !in RunTo(w, moves).leakedAt
    ensures var r := RecordOf(w, id, RunTo(w, moves).store[id]);
            var h := r.field.pin.header;
            && h.kid in keys && SignedAsPin(RunTo(w, moves), keys[h.kid].publicKey, h, made)
            && CarriesSignedBytes(w.env, r.vector, made)
            && (policy.enforceRecordId && V.RecordIdKey() in h.extra ==> h.extra[V.RecordIdKey()] == id)
  {
    var s := RunTo(w, moves);
    var r := RecordOf(w, id, s.store[id]);
    RunKeepsInv(w, moves);
    AcceptedRecord(w.env, keys, legacy, r, policy);
    made := RowSignatureIsHonest(w, s, s.store[id], keys[r.field.pin.header.kid].publicKey);
    MatchingVectorIsSigned(w.env, made, r.vector);
  }

  // ---- revocation ----

  /** Revocation over runs. When a row is judged at the time the store stamped it and its key's
      `valid_until` is no later than the key's leak, an accepted pin was written before the leak and is one
      the holder really signed, whatever `ts` it claims and even though the key has leaked since. */
  lemma Revocation(w: World, moves: seq<Move>, keys: V.Registry, legacy: bool, id: Text, want: V.Wanted)
    returns (made: Made)
    requires IsIdempotent(w.env.nfc) && IsRun(w, moves) && id in RunTo(w, moves).store
    requires RecordOf(w, id, RunTo(w, moves).store[id]).field.Pinned?
    requires want.trustedTime == Some(V.Aware(RunTo(w, moves).store[id].stamp))
    requires V.VerifyWith(w.env, keys, legacy, RecordOf(w, id, RunTo(w, moves).store[id]).field.pin, want) == V.Accepted
    requires var h := RecordOf(w, id, RunTo(w, moves).store[id]).field.pin.header;
             h.kid in keys && keys[h.kid].publicKey in RunTo(w, moves).leakedAt ==>
               keys[h.kid].validUntil.Some?
               && keys[h.kid].validUntil.value <= RunTo(w, moves).leakedAt[keys[h.kid].publicKey]
    ensures var s := RunTo(w, moves);
            var h := RecordOf(w, id, s.store[id]).field.pin.header;
            && h.kid in keys
            && (keys[h.kid].publicKey in s.leakedAt ==> s.store[id].stamp < s.leakedAt[keys[h.kid].publicKey])
            && SignedAsPin(s, keys[h.kid].publicKey, h, made)
  {
    var s := RunTo(w, moves);
    var pin := RecordOf(w, id, s.store[id]).field.pin;
    RunKeepsInv(w, moves);
    V.AcceptedMeans(w.env, keys, legacy, pin, want);
    made := RowSignatureIsHonest(w, s, s.store[id], keys[pin.header.kid].publicKey);
  }

  // ---- audits over runs ----

  /** The record is what the store holds under its id. */
  ghost predicate IsRow(w: World, s: State, r: Record) {
    r.id in s.store && r == RecordOf(w, r.id, s.store[r.id])
  }

  /** Every record is a row, and every row is among the records. */
  ghost predicate AreTheRows(w: World, s: State, rs: seq<Record>) {
    && (forall i :: 0 <= i < |rs| ==> IsRow(w, s, rs[i]))
    && (forall id :: id in s.store ==> exists i :: 0 <= i < |rs| && rs[i].id == id)
  }

  /** The feed walks the whole store: every row is yielded, and every yielded record is a row. */
  ghost predicate WalksStore(w: World, s: State, feed: seq<Step>) {
    AreTheRows(w, s, Walked(feed))
  }

  ghost function StoreEntries(w: World, s: State): set<Entry> {
    set id | id in s.store :: EntryOf(RecordOf(w, id, s.store[id]))
  }

  lemma WalkedIsStored(w: World, s: State, rs: seq<Record>, i: nat)
    requires AreTheRows(w, s, rs) && i < |rs|
    ensures EntriesOf(rs)[i] in StoreEntries(w, s)
  {
    assert IsRow(w, s, rs[i]);
    EntryAt(rs, i);
  }

  lemma RowIsWalked(w: World, s: State, rs: seq<Record>, id: Text) returns (i: nat)
    requires AreTheRows(w, s, rs) && id in s.store
    ensures i < |rs| && rs[i] == RecordOf(w, id, s.store[id])
  {
    i :| 0 <= i < |rs| && rs[i].id == id;
    assert IsRow(w, s, rs[i]);
  }

  lemma StoredIsWalked(w: World, s: State, rs: seq<Record>, id: Text)
    requires AreTheRows(w, s, rs) && id in s.store
    ensures EntryOf(RecordOf(w, id, s.store[id])) in EntriesOf(rs)
  {
    var i := RowIsWalked(w, s, rs, id);
    EntryAt(rs, i);
  }

  lemma WalkedEntriesAreTheStore(w: World, s: State, rs: seq<Record>)
    requires AreTheRows(w, s, rs)
    ensures Elements(EntriesOf(rs)) == StoreEntries(w, s)
  {
    var es := EntriesOf(rs);
    forall i | 0 <= i < |es|
      ensures es[i] in StoreEntries(w, s)
    {
      WalkedIsStored(w, s, rs, i);
    }
    forall id | id in s.store
      ensures EntryOf(RecordOf(w, id, s.store[id])) in es
    {
      StoredIsWalked(w, s, rs, id);
    }
  }

  /** No forged signature on a manifest the auditor is handed. */
  ghost predicate UnforgedMessage(w: World, s: State, bytes: Option<Bytes>, sig: Bytes) {
    forall key: Bytes, message: Bytes ::
      bytes == Some(message) && w.env.accepts(key, message, sig) ==> InLog(s.log, key, message, s.clock)
  }

  /** A verifying signature on a message under a key that has not leaked comes from an event of the holder
      with the same content. */
  lemma MessageIsHonest(w: World, s: State, key: Bytes, m: Message, sig: Bytes) returns (e: Event)
    requires Inv(w, s) && IsMessage(m) && key !in s.leakedAt
    requires UnforgedMessage(w, s, BytesOf(w.env.nfc, m), sig)
    requires BytesOf(w.env.nfc, m).Some? && w.env.accepts(key, BytesOf(w.env.nfc, m).value, sig)
    ensures e in s.history && e.key == key && IsHonest(w, e) && SameContent(w.env.nfc, m, MessageOf(e))
  {
    var message := BytesOf(w.env.nfc, m).value;
    assert InLog(s.log, key, message, s.clock);
    assert Accounted(w, s, key, message);
    e :| e in s.history && e.key == key && EventBytes(w, e) == Some(message);
    EventIsMessage(w, e);
    SignedBytesDecodable(w.env.nfc, m, MessageOf(e));
  }

  /** Audit soundness over every run. If an audit of the whole store exits 0 against any manifest that
      verifies under a key that has not leaked, then the holder of that key signed that manifest for some
      record set, and the store is now exactly that set: nothing deleted, added, renamed, stripped or
      re-pinned to another hash, and every pinned vector has the hash committed for its id; or two strings
      with one digest are among those hashed for the two trees. */
  lemma AuditOverRuns(w: World, moves: seq<Move>, run: Run, feed: seq<Step>) returns (e: Event)
    requires IsIdempotent(w.env.nfc) && IsRun(w, moves) && run.env == w.env && run.manifest.Some?
    requires UnforgedMessage(w, RunTo(w, moves), M.ManifestBytes(run.manifest.value), run.manifest.value.sig)
    requires run.manifest.value.kid in run.manifestKeys ==>
               run.manifestKeys[run.manifest.value.kid].publicKey !in RunTo(w, moves).leakedAt
    requires WalksStore(w, RunTo(w, moves), feed) && SummaryOf(run, feed).failed == 0
    ensures var s := RunTo(w, moves);
            && e in s.history && e.ManifestEvent? && e.manifest == run.manifest.value.(sig := e.manifest.sig)
            && run.manifest.value.kid in run.manifestKeys && e.key == run.manifestKeys[run.manifest.value.kid].publicKey
            && (|| CollisionIn(w.env.sha, HashedStrings(w.env.sha, e.entries)
                                          + HashedStrings(w.env.sha, EntriesOf(Walked(feed))))
                || (StoreEntries(w, s) == Elements(e.entries)
                    && forall id :: id in s.store ==> IsCommitted(w.env, RecordOf(w, id, s.store[id]), e.entries)))
  {
    var s, rs := RunTo(w, moves), Walked(feed);
    RunKeepsInv(w, moves);
    ExitZeroIff(run, feed);
    e := MatchedManifestIsHonest(w, s, run, rs);
    StoreRowsAreParsed(w, s, rs);
    WalkedHashesAreNulFree(w.env.nfc, rs);
    MerkleBinding(w.env.sha, e.entries, EntriesOf(rs));
    if Elements(e.entries) == Elements(EntriesOf(rs)) {
      StoreIsCommitted(w, s, run, rs, e.entries);
    }
  }

  /** A manifest that matches under a key that has not leaked is one the holder signed. */
  lemma MatchedManifestIsHonest(w: World, s: State, run: Run, rs: seq<Record>) returns (e: Event)
    requires IsIdempotent(w.env.nfc) && Inv(w, s) && run.env == w.env && run.manifest.Some?
    requires ManifestOutcome(run, rs) == Some(M.Matches)
    requires UnforgedMessage(w, s, M.ManifestBytes(run.manifest.value), run.manifest.value.sig)
    requires run.manifest.value.kid in run.manifestKeys ==>
               run.manifestKeys[run.manifest.value.kid].publicKey !in s.leakedAt
    ensures run.manifest.value.kid in run.manifestKeys && e.key == run.manifestKeys[run.manifest.value.kid].publicKey
    ensures e in s.history && e.ManifestEvent? && e.manifest == run.manifest.value.(sig := e.manifest.sig)
    ensures NulFreeHashes(e.entries) && MerkleRootOf(w.env.sha, e.entries) == Ok(e.manifest.merkleRoot)
    ensures MerkleRootOf(w.env.sha, EntriesOf(rs)) == Ok(e.manifest.merkleRoot)
  {
    var m := run.manifest.value;
    M.MatchesMeans(w.env, run.manifestKeys, m, EntriesOf(rs), run.policy.collectionId);
    BytesAre(w.env.nfc, ManifestMessage(m));
    e := MessageIsHonest(w, s, run.manifestKeys[m.kid].publicKey, ManifestMessage(m), m.sig);
  }

  lemma StoreIsCommitted(w: World, s: State, run: Run, rs: seq<Record>, committed: seq<Entry>)
    requires run.env == w.env && AreTheRows(w, s, rs) && AllPass(run, rs)
    requires Elements(EntriesOf(rs)) == Elements(committed)
    ensures StoreEntries(w, s) == Elements(committed)
    ensures forall id :: id in s.store ==> IsCommitted(w.env, RecordOf(w, id, s.store[id]), committed)
  {
    WalkedEntriesAreTheStore(w, s, rs);
    forall id | id in s.store
      ensures IsCommitted(w.env, RecordOf(w, id, s.store[id]), committed)
    {
      var i := RowIsWalked(w, s, rs, id);
      PassedIsCommitted(run, rs, committed, i);
    }
  }

  lemma StoreRowsAreParsed(w: World, s: State, rs: seq<Record>)
    requires AreTheRows(w, s, rs)
    ensures forall i :: 0 <= i < |rs| ==> IsParsed(w.env.nfc, rs[i])
  {
    forall i | 0 <= i < |rs|
      ensures IsParsed(w.env.nfc, rs[i])
    {
      assert IsRow(w, s, rs[i]);
      ParsedField(w.env.nfc, w.loads, s.store[rs[i].id].raw);
    }
  }

  /** A summary that verifies under a key that has not leaked is, key for key, one its holder signed. */
  lemma SummaryOverRuns(w: World, moves: seq<Move>, keys: V.Registry, summary: map<Text, Json>) returns (e: Event)
    requires IsIdempotent(w.env.nfc) && IsRun(w, moves) && WellFormed(Python, Obj(summary))
    requires M.SummaryVerdictOf(w.env, keys, Obj(summary)) == M.Matches
    requires UnforgedMessage(w, RunTo(w, moves), M.SummaryBytes(M.SummaryBody(summary)), M.SummarySigOf(summary).value)
    requires M.SummarySigner(summary) in keys ==> keys[M.SummarySigner(summary)].publicKey !in RunTo(w, moves).leakedAt
    ensures e in RunTo(w, moves).history && e.SummaryEvent? && e.body == M.SummaryBody(summary)
    ensures M.SummarySigner(summary) in keys && e.key == keys[M.SummarySigner(summary)].publicKey
  {
    RunKeepsInv(w, moves);
    M.SummaryMatchMeans(w.env, keys, summary);
    e := SummaryIsHonest(w, RunTo(w, moves), keys[M.SummarySigner(summary)].publicKey, M.SummaryBody(summary),
                         M.SummarySigOf(summary).value);
  }

  lemma SummaryIsHonest(w: World, s: State, key: Bytes, body: map<Text, Json>, sig: Bytes) returns (e: Event)
    requires Inv(w, s) && WellFormed(Python, Obj(body)) && key !in s.leakedAt
    requires UnforgedMessage(w, s, M.SummaryBytes(body), sig)
    requires M.SummaryBytes(body).Some? && w.env.accepts(key, M.SummaryBytes(body).value, sig)
    ensures e in s.history && e.key == key && e.SummaryEvent? && e.body == body
  {
    BytesAre(w.env.nfc, SummaryMessage(body));
    e := MessageIsHonest(w, s, key, SummaryMessage(body), sig);
  }

  /** Any id registered with the same entry verifies a v1 pin alike. */
  lemma LegacyKidFree(env: V.Env, keys: V.Registry, pin: Pin, want: V.Wanted, kid: Text)
    requires pin.header.v == 1 && V.VerifyWith(env, keys, true, pin, want) == V.Accepted
    requires pin.header.kid in keys && kid in keys && keys[kid] == keys[pin.header.kid]
    ensures V.VerifyWith(env, keys, true, pin.(header := pin.header.(kid := kid)), want) == V.Accepted
  {
    LegacyKidUnsigned(pin.header, kid);
    V.AcceptedMeans(env, keys, true, pin, want);
    V.AcceptedMeans(env, keys, true, pin.(header := pin.header.(kid := kid)), want);
  }

  /** Under a legacy verifier an accepted v1 pin was signed by the holder of the registered key, up to
      `kid`, of which the signature says nothing. */
  lemma LegacyOverRuns(w: World, moves: seq<Move>, keys: V.Registry, pin: Pin, want: V.Wanted) returns (e: Event)
    requires IsIdempotent(w.env.nfc) && IsRun(w, moves) && pin.header.v == 1
    requires V.VerifyWith(w.env, keys, true, pin, want) == V.Accepted
    requires UnforgedMessage(w, RunTo(w, moves), CanonicalizeV1(pin.header), pin.sig)
    requires pin.header.kid in keys ==> keys[pin.header.kid].publicKey !in RunTo(w, moves).leakedAt
    ensures pin.header.kid in keys && e in RunTo(w, moves).history && e.key == keys[pin.header.kid].publicKey
    ensures e.LegacyEvent? && e.header == pin.header.(kid := e.header.kid)
  {
    RunKeepsInv(w, moves);
    V.AcceptedMeans(w.env, keys, true, pin, want);
    BytesAre(w.env.nfc, LegacyMessage(pin.header));
    e := MessageIsHonest(w, RunTo(w, moves), keys[pin.header.kid].publicKey, LegacyMessage(pin.header), pin.sig);
  }
}
