# VectorPin, verified model

VectorPin signs a small header (a "pin") for each stored embedding and later checks pins, collections and
audit reports against a store that anyone may have rewritten. This project models the parts of VectorPin
that carry that guarantee, in all three ports where they differ, and proves what they promise.

The hash is an arbitrary function to 32 bytes: results end in "or here are two different strings with one
digest", and the two strings are always among those the code actually hashed. Ed25519 is a log of signed
(key, message) pairs with the time each was first signed: a verifying signature can be written down only once
its message is in the log. NFC is an arbitrary function, assumed idempotent where signing needs it. The JSON
loader of the Python port is an arbitrary partial function, and `json.loads` where an honest pipeline stores text;
the timestamp parser of the key window is an arbitrary partial function.

| file | what it holds |
|---|---|
| `Common.dfy`, `Utf.dfy`, `JsonText.dfy`, `Hashing.dfy` | bytes, text and order; UTF-8 and UTF-16; canonical JSON printing and parsing; the hash and its printed form |
| `Utf8Decoder.dfy`, `JsonLexemes.dfy`, `ShortestJson.dfy` | the encodings against their standards: UTF-8 by RFC 3629, JSON characters and numbers by RFC 8259, canonical JSON as the shortest text |
| `Merkle.dfy`, `SharedRoots.dfy`, `Manifest.dfy`, `StoredManifest.dfy` | the Merkle root, signed manifests and their files, signed audit summaries |
| `Civil.dfy`, `Timestamps.dfy` | civil-date arithmetic and the strict timestamp |
| `Base64Url.dfy` | the strict codec |
| `Rounding.dfy`, `Floats.dfy`, `VectorHash.dfy` | IEEE 754 conversion on bit patterns, canonical vector bytes, the precision rule |
| `Attestation.dfy`, `SizeGuard.dfy`, `Encodable.dfy`, `RustCanonical.dfy`, `TsCanonical.dfy`, `TsPins.dfy`, `PortParsers.dfy`, `StoredText.dfy`, `PinRules.dfy` | pins: parsing, printing and canonical bytes in the three ports, where the parsers part, Python's text form, and the rules of the wire format |
| `RawText.dfy`, `TsLiterals.dfy`, `EscapedKeys.dfy` | JSON text with keys as spelled, and what the raw-text check for number literals sees and misses |
| `SignedBytes.dfy`, `SignedForm.dfy` | unique decodability of everything that is signed, and what a reader finds in it |
| `Verifier.dfy`, `Signing.dfy`, `Adapter.dfy`, `Audit.dfy`, `PrintedReport.dfy` | verifying, signing, records and policies, the audit loop and its report |
| `Protocol.dfy`, `Honest.dfy` | the system over whole runs: what nobody can fake, and what honest use achieves |

Points where the code differs from what its comments or documentation lead one to expect; the model follows
the code:

- `civil_to_unix` is described as the inverse of `unix_to_ymdhms`. Its `era` line is one era too low for a
  shifted year below 0 unless that year is 399 modulo 400, and the result is then exactly one day early
  (`Civil.CivilToUnixCounts`, `Civil.EraLineFails`). Parsed timestamps never get there: their shifted year
  is at least -1.
- The TypeScript printer and parser undo each other except that `extra: {}` is printed as if absent
  (`TsPins.RoundTrip`, `TsPins.EmptyExtraIsLost`).
- The Merkle leaf string of a record is ambiguous exactly when its id or its hash holds a NUL character
  (`Merkle.AmbiguousIffNul`). Roots always bind the set of leaf strings (`Merkle.LeafStringsBound`); they bind
  the set of records when the hashes are NUL-free, which every parsed pin and the empty string are
  (`Merkle.MerkleBinding`), or when one of the two collections is NUL-free (`Merkle.CleanCollectionBound`), and
  without that a collection can share its root with another (`Merkle.NulMakesLeavesAmbiguous`), even with one of
  another count (`Merkle.CountNotBound`). `SharedRoots.SharedIff` says, from its sorted list, exactly which
  collections do.
- TypeScript and Python are said to sign the same bytes. They do exactly when the `extra` keys have one order by
  UTF-16 unit and by code point (`TsCanonical.PortsSignAlikeIff`); the Rust port always agrees with Python
  (`RustCanonical.CanonicalBody`).
- The verdict on manifests and summaries ignores the key's validity window (`Manifest.WindowPlaysNoPart`,
  `Manifest.WindowPlaysNoPartInSummaries`).
- The comment at typescript/src/attestation.ts:109-115 takes the raw-text check to see every literal of `v`
  and `vec_dim`. It sees exactly those whose key is written without an escape (`EscapedKeys.CaughtIff`,
  `EscapedKeys.AcceptedIff`): a text without a backslash is always caught (`EscapedKeys.IntegerUnlessEscaped`), a
  key written with an escape never is (`EscapedKeys.EscapedKeyIsMissed`), and every v2 pin has an accepted text
  with a literal that Python refuses (`EscapedKeys.EscapedPinAccepted`).
- A pin of one port is said to verify on the others (README.md:120). `PortParsers.PortsParseAlike` says exactly
  which dicts the Python and the TypeScript parser do not accept alike.
- `from_json` caps the escaped text that `to_json` prints, six characters for each UTF-16 unit beyond ASCII, so a pin
  that keeps every cap of its own can be too long for the text form (`StoredText.TextParsesBackIff`,
  `StoredText.LongPinIsRefusedAsText`).
- Signers do not enforce the caps or check `model_hash`, so not every signed pin parses
  (`Signing.SignedPinCanBeRefused`); `Signing.SignedPinParsesIff` says which do.

## Model

| member | source | states |
|---|---|---|
| `Protocol.Safety` | src/vectorpin/adapters/base.py:234-288 | Over every run of honest signing, arbitrary rewrites (of whole rows, or of vectors and metadata under an old stamp and pin), leaks and signatures by leaked keys: a stored row accepted as pinned under a key that has not leaked carries a header the holder of that `kid` really signed as a pin, its vector has the signed canonical bytes or a collision is exhibited, and a bound `vectorpin.record_id` is the row's id |
| `Protocol.Revocation` | src/vectorpin/verifier.py:345-385 | When a row is judged at the store's own stamp and the key's `valid_until` is no later than its leak, an accepted pin was stamped before the leak and was really signed by the holder, whatever `ts` it claims |
| `Protocol.AuditOverRuns` | src/vectorpin/cli.py:233-334 | An audit of the whole store that exits 0 against any manifest verifying under an unleaked key: the holder signed that manifest for some record set, the store is exactly that set, and every pinned vector has the hash committed for its id; or a collision among the hashed strings |
| `Protocol.SummaryOverRuns` | src/vectorpin/manifest.py:360-391 | Any JSON summary, `NaN` and `Infinity` included, that verifies under an unleaked key is, key for key, one its holder signed |
| `Protocol.LegacyOverRuns` | src/vectorpin/verifier.py:503-540 | An accepted v1 pin was signed as a v1 pin by the holder of the registered key, with every header field but `kid` |
| `Protocol.LegacyKidFree` | src/vectorpin/attestation.py:530-559 | Under a legacy verifier any other id registered with the same entry verifies the same v1 signature: `kid` is not bound |
| `Protocol.RunKeepsInv` | src/vectorpin/signer.py:133-256 | Every reachable state: each logged message was signed by its holder or after its key leaked, honest events are what the signing functions produce, and no row holds a signature made after it was written |
| `Protocol.RowSignatureIsHonest` | src/vectorpin/verifier.py:387-395 | A verifying signature in a row written before its key leaked comes from a pin event of the holder with that very header, and never from a manifest, summary or v1 message |
| `Protocol.MessageIsHonest` | src/vectorpin/manifest.py:299-310 | A verifying signature on any message under an unleaked key comes from an event of the holder with the same content |
| `Honest.HonestPathAccepts` | src/vectorpin/signer.py:144-256 | After any run, signing a pin and storing it, as a dict or as its JSON text, is again a run, and the stored record is accepted iff its vector is no wider than the pinned dtype, the key's window admits the pin and the policy fits, for every policy and every pin that meets the wire-format rules and, as text, the cap |
| `Honest.HonestCollectionPasses` | src/vectorpin/cli.py:233-334 | After any run that leaves the store empty, pinning and storing any number of records with distinct ids, each as a dict or as JSON text, and signing their manifest is a run, and the audit of the whole store against that manifest has no failure and verifies every record |
| `Honest.StoredRecordAccepted` | src/vectorpin/adapters/base.py:234-288 | The exact condition under which a record is accepted as its pipeline stored it, as a dict or as JSON text |
| `Audit.AuditLoop` | src/vectorpin/cli.py:202-334 | The walk, the manifest comparison, the manifest written, the report signed and printed, and the exit code are those of the specification function of the feed; where building the manifest or signing the report raises, what was done before stands |
| `PrintedReport.PrintedShows` | src/vectorpin/cli.py:233-334 | In every report that is printed, signed or not, `total` is the number of records walked, `pinned` and `unpinned` those with a pin and without a pin field, `verified_ok` those with the field that verify, `verification_failed` the rejected records plus one for an abort and one for a manifest that does not match; `aborted` shows the exception iff there was one, `manifest` the code of the verdict iff a manifest was given, `manifest_written` the path iff one was written; the exit code is 1 iff something failed |
| `PrintedReport.LabelShown` | src/vectorpin/cli.py:299-306 | The label is shown under its key |
| `PrintedReport.SealShown` | src/vectorpin/cli.py:330-333 | A signed report shows the signer's id, the time and the signature over everything else |
| `StoredManifest.EndMeans` | src/vectorpin/cli.py:323-334 | The manifest is written iff one is asked for and can be built, whatever becomes of the report; the report is printed iff no manifest failed and, when it is signed, it has bytes to sign; there is an exit code iff it is printed |
| `StoredManifest.WrittenShows` | src/vectorpin/cli.py:323-328 | The manifest written names the policy's collection, or the label where that is absent or empty, counts the walked records, spells the digest of their tree, and carries the signer's id, time and signature |
| `StoredManifest.EntriesMean` | src/vectorpin/cli.py:253-255 | Each walked record is entered with the hash of its pin, and with the empty one when it has no pin or one that does not parse |
| `Audit.Walk` | src/vectorpin/cli.py:233-297 | The walk stops at the first raise and yields the tally and the (id, hash) entries of exactly the records before it |
| `Audit.CountRecord` | src/vectorpin/cli.py:253-297 | One record moves the counters as its kind and verdict say |
| `Audit.Conservation` | src/vectorpin/cli.py:299-334 | verified_ok + verification_failed = total - (unpinned if allowed) + abort + manifest failure; total - pinned - unpinned is the number of malformed pins |
| `Audit.ExitZeroIff` | src/vectorpin/cli.py:334 | No failure iff every walked record verified or was an allowed unpinned one, the walk did not abort and the manifest, if any, matched |
| `Audit.CommandExitsZeroIff` | src/vectorpin/cli.py:299-334 | The command ends with 0 iff moreover the manifest to write could be built and the report could be signed |
| `Audit.WrittenManifestMatches` | src/vectorpin/cli.py:323-328 | The manifest a run writes matches what that run walked, in any order |
| `Audit.SecondAuditSound` | src/vectorpin/cli.py:299-328 | When a second audit has no failure against the manifest a first one wrote, the two walked the same set of (id, hash) and every pinned vector has the hash the first recorded, or a collision; whether the first audit passed does not matter |
| `StoredManifest.SecondAuditFromFile` | src/vectorpin/cli.py:323-348 | The same when the second audit reads the file the first one wrote, through `to_json`, `json.loads` and `from_json`: whatever manifest it reads is the one written |
| `Audit.ReportInjective` | src/vectorpin/cli.py:299-327 | Equal reports are reports of equal counts, of the same abort and of the same manifest verdict |
| `Audit.PrintedSummaryVerifies` | src/vectorpin/cli.py:330-333 | The signed report verifies and shows every key of the unsigned one under its own value |
| `Audit.OrderFree` | src/vectorpin/cli.py:237-334 | Walking the same records in any order gives the same counters, manifest verdict and exit code |
| `Audit.AuditSound` | src/vectorpin/cli.py:233-334 | Exit 0 against the manifest built from a record set: the walked set of (id, hash) is that set and every pinned vector has its committed hash, or a collision |
| `Audit.WalkedIsCommitted` | src/vectorpin/manifest.py:284-333 | Records that match a built manifest are the records it was built from, or a collision |
| `Adapter.VerifyRecordStepwise` | src/vectorpin/adapters/base.py:234-288 | The keyword arguments filled step by step give the verdict of the specification |
| `Adapter.AcceptedRecord` | src/vectorpin/adapters/base.py:258-288 | A pinned record is accepted iff its pin is authentic at its own `ts`, its stored vector matches and the policy holds: source text, model, collection and tenant ids, bound record id |
| `Adapter.ParsedField` | src/vectorpin/adapters/base.py:67-90 | A record is unpinned iff the field is absent; a blank text or an empty object is malformed; a pinned one went through the strict dict parser |
| `Adapter.ParsedTextIff` | src/vectorpin/adapters/base.py:80-83 | A text field gives a pin iff it is not blank, has a UTF-8 form of at most 65536 bytes and loads as a dict that the strict parser reads as that pin |
| `Verifier.AcceptedMeans` | src/vectorpin/verifier.py:312-500 | A pin is accepted iff version, signature length, key, window, signature and every supplied ground truth agree |
| `Verifier.EarlyErrorMeans` | src/vectorpin/verifier.py:312-395 | UNSUPPORTED_VERSION, UNKNOWN_KEY, KEY_EXPIRED and SIGNATURE_INVALID are each reported iff their own check is the first to fail |
| `Verifier.ContentErrorMeans` | src/vectorpin/verifier.py:397-500 | SOURCE_MISMATCH, SHAPE_MISMATCH, VECTOR_TAMPERED, MODEL_MISMATCH, RECORD_, COLLECTION_ and TENANT_MISMATCH are each reported iff the pin is authentic, every earlier check passes and its own fails |
| `Verifier.ReplayMeans` | src/vectorpin/verifier.py:473-500 | An expected record, collection or tenant id must be bound in `extra` under its own reserved key; an absent key does not match; the first that does not is the error |
| `Verifier.ParseErrorMeans` | src/vectorpin/verifier.py:277-297 | PARSE_ERROR is reported iff the window raises on a zone-less time, the header has no canonical bytes, or an authentic pin meets a source without a UTF-8 form or a vector that cannot be hashed |
| `Verifier.NewlineNeverMatches` | src/vectorpin/attestation.py:83 | A parsed pin whose vector or source hash ends in a newline matches no vector or no source |
| `Verifier.OnePinOneVector` | src/vectorpin/verifier.py:414-456 | Two finite vectors of one native width that verify against one pin are bit-for-bit identical, or a collision |
| `Verifier.OnePinOneStoredVector` | src/vectorpin/adapters/base.py:93-136 | Two finite stored arrays of one format that, read with one declared native dtype, match one pin are bit-for-bit identical, or a collision |
| `Verifier.Verifier.AddKey` | src/vectorpin/verifier.py:196-212 | The registry gains or replaces exactly this id; a given bound overrides the entry's own; every other id keeps its public key, and every pin under another id its verdict |
| `Verifier.Verifier.constructor` | src/vectorpin/verifier.py:185-194 | The registry and the legacy switch are the ones given |
| `Manifest.MatchesMeans` | src/vectorpin/manifest.py:284-333 | A manifest matches iff its signature verifies under its key and collection, count and Merkle root are the signed ones |
| `Manifest.FailsMeans` | src/vectorpin/manifest.py:284-337 | Each error is reported iff its own check is the first to fail; exceptions are PARSE_ERROR |
| `Manifest.VerifyManifest` | src/vectorpin/manifest.py:284-337 | The early-return procedure, with the key lookup and the Merkle loop inside, computes the specified verdict |
| `Manifest.VerdictOrderFree` | src/vectorpin/manifest.py:318-325 | The verdict does not depend on the order of the entries |
| `Manifest.OneManifestOneSet` | src/vectorpin/manifest.py:284-333 | Two record sets that match one manifest are the same set, or a collision |
| `Manifest.WindowPlaysNoPart` | src/vectorpin/manifest.py:284-333 | The verdict on a manifest depends on the registered public key alone, not on the key's window |
| `Manifest.WindowPlaysNoPartInSummaries` | src/vectorpin/manifest.py:360-391 | So does the verdict on a summary |
| `Manifest.BuiltManifestMatches` | src/vectorpin/manifest.py:245-281 | What `make_manifest` builds, root, checks and signature, matches every listing of the records it was built from |
| `StoredManifest.BuildsIff` | src/vectorpin/manifest.py:245-281 | A manifest can be built iff no id repeats, every string has a UTF-8 form, the collection id passes the field rules and the time is a calendar one |
| `StoredManifest.DictReadsBack` | src/vectorpin/manifest.py:187-243 | Reading the printed dict of a manifest gives that manifest if it meets the rules, and nothing otherwise |
| `StoredManifest.ParsedIff` | src/vectorpin/manifest.py:198-239 | Any dict is read as a manifest iff it has no unknown member, carries the manifest's fields and the manifest meets the rules |
| `StoredManifest.BuiltFileReads` | src/vectorpin/manifest.py:195-243 | The file of a built manifest reads back as it iff the key id passes the field rules, the signature has 64 bytes and the text is within the cap; otherwise nothing is read |
| `Manifest.SignedDictInjective` | src/vectorpin/manifest.py:177-188 | The signed dict determines every manifest field but the signature |
| `Manifest.SignedSummaryVerifies` | src/vectorpin/manifest.py:345-391 | A freshly signed summary verifies and keeps every key of the report |
| `Manifest.SummaryVerdictMeans` | src/vectorpin/manifest.py:360-391 | A summary without the three fields, a calendar time or a 64-byte signature is a parse error; otherwise the verdict says whether its signer is unknown, its body has no bytes, the signature fails or verifies |
| `Merkle.LeafStringsBound` | src/vectorpin/manifest.py:90-124 | Equal roots of any two accepted collections: the same set of leaf strings, whatever the records hold, whatever the counts and despite odd-level duplication, or two different strings hashed for the trees collide |
| `Merkle.MerkleBinding` | src/vectorpin/manifest.py:90-124 | Equal roots of two accepted collections with NUL-free hashes: the same set of (id, hash) pairs, or such a collision |
| `Merkle.AmbiguousIffNul` | src/vectorpin/manifest.py:90-93 | A record shares its leaf string with a different record iff its id or its hash holds a NUL |
| `Merkle.LeafListsBound` | src/vectorpin/manifest.py:96-124 | When the leaf strings of each collection are pairwise different, equal roots mean equal lists of leaf strings, hence equal counts |
| `Merkle.NulFreeListsBound` | src/vectorpin/manifest.py:96-124 | With NUL-free hashes equal roots mean equal sorted lists of records, hence equal counts, or such a collision |
| `Merkle.CleanCollectionBound` | src/vectorpin/manifest.py:90-124 | One collection without a NUL in its ids and hashes is enough: an equal root binds its set of records against every other accepted collection, or such a collision |
| `Merkle.CountNotBound` | src/vectorpin/manifest.py:96-124 | Without that condition the count is not bound: every accepted collection of three or more records, odd in number, whose record of greatest id has a NUL in its hash shares its root, under every hash function, with an accepted collection of one record more |
| `Merkle.CountNotBoundSample` | src/vectorpin/manifest.py:96-124 | Such collections exist: three records and four with one root under every hash function |
| `Merkle.NulMakesLeavesAmbiguous` | src/vectorpin/manifest.py:90-93 | Every accepted one-record collection with a NUL in its id or hash has the root of a different one-record collection, under every hash function |
| `SharedRoots.SharedIff` | src/vectorpin/manifest.py:96-124 | For every accepted collection: another one has its tree iff in its sorted list one record alone can be read otherwise between its neighbours' ids, or the list can be continued by other readings of its own leaf strings that leave the tree as it is, or a shorter beginning of it has the same tree |
| `SharedRoots.SameTreeSameRoot` | src/vectorpin/manifest.py:112-124 | Accepted collections with one tree of leaf strings share their root under every hash function |
| `SharedRoots.SameRootSameTree` | src/vectorpin/manifest.py:112-124 | Accepted collections that share their root under any one hash function have one tree, or two of the strings hashed collide |
| `SharedRoots.OddGrowsIff` | src/vectorpin/manifest.py:117-119 | An odd sorted list of three or more records can be continued without changing its tree iff the hash of its last record holds a NUL |
| `Merkle.MerkleRoot` | src/vectorpin/manifest.py:96-124 | The sort, the adjacent-id check, the leaf list and the padding loop compute the specified root or the specified error, and terminate |
| `Merkle.RootSpells` | src/vectorpin/manifest.py:110-124 | A root string is `sha256:` and 64 digits that, read in pairs, are the digest of the sorted records' tree |
| `Merkle.SmallTrees` | src/vectorpin/manifest.py:90-124 | Byte by byte, the digest of the tree of one, two and three records: prefix 0, id, NUL, hash for a leaf; prefix 1 and two digests for a node; the last of three doubled |
| `Merkle.RootDefinedIff` | src/vectorpin/manifest.py:110-116 | A collection has a root iff no id repeats and every string has a UTF-8 form; a repeated id is reported first |
| `Hashing.HashBytesSpells` | src/vectorpin/hash.py:163-165 | The digits of every hash string are the digest of the hashed bytes, the higher digit of each byte first |
| `Hashing.HashStringsAreDigests` | src/vectorpin/attestation.py:83 | The strings of the demanded shape are exactly the printed forms of digests |
| `Merkle.LoopIsTree` | src/vectorpin/manifest.py:116-124 | The level loop computes the root of the recursive tree of least height |
| `Merkle.MerkleRootOrderFree` | src/vectorpin/manifest.py:107-116 | Any order of the same entries gives the same root or the same error |
| `Merkle.AdjacentCheckIsUniqueness` | src/vectorpin/manifest.py:107-110 | On the sorted list the adjacent check finds every repeated id |
| `Merkle.LeafInputInjective` | src/vectorpin/manifest.py:90-93 | With NUL-free hashes the leaf string determines the record, even when ids hold NUL |
| `Merkle.DistinctParents` | src/vectorpin/manifest.py:117-123 | Without a collision distinct nodes have distinct parents, the duplicated last node included |
| `Merkle.PaddingIsUnambiguous` | src/vectorpin/manifest.py:118-119 | On distinct levels the duplicated last node can be told from a real one |
| `SignedBytes.SignedBytesDecodable` | src/vectorpin/attestation.py:277-314 | Equal signed bytes mean one message kind and the same content: all header fields of v2 pins after normalization, all but `kid` for v1, all signed manifest fields, the whole summary body |
| `SignedBytes.KindsNeverCoincide` | src/vectorpin/manifest.py:51-53 | v2 pin bytes, manifest bytes, audit-summary bytes and untagged v1 bytes never coincide across kinds |
| `SignedBytes.ParsedPinBytesDecodable` | src/vectorpin/attestation.py:255-314 | For pins the strict parser accepts, the signed bytes determine every header field |
| `SignedBytes.LegacyKidUnsigned` | src/vectorpin/attestation.py:530-559 | v1 bytes do not depend on `kid` |
| `SignedBytes.BytesAre` | src/vectorpin/manifest.py:130-188 | The four kinds' bytes are the ones the package's own functions sign |
| `SignedForm.PinBytesShow` | src/vectorpin/attestation.py:277-314 | A decoder written from section 4 of RFC 3629 reads the bytes after the tag `vectorpin/v2` and NUL as JSON text whose members, under their wire names, are the fields of the normalized header, and no other |
| `SignedForm.LegacyBytesShow` | src/vectorpin/attestation.py:530-559 | A v1 pin's bytes are such text without a tag, of the header as it is, without `kid` |
| `SignedForm.ManifestBytesShow` | src/vectorpin/manifest.py:177-188 | A manifest's bytes are its tag and such text, with every field under its own name |
| `SignedForm.SummaryBytesShow` | src/vectorpin/manifest.py:345-357 | A summary's bytes are its tag and such text of its body |
| `SignedForm.NormalizedMeans` | src/vectorpin/attestation.py:290-306 | Normalization changes `kid`, `model`, `ts` and the keys and values of `extra`, and nothing else; of several keys with one normal form the greatest counts |
| `Utf8Decoder.DecodesIff` | src/vectorpin/attestation.py:308-314 | By the byte ranges of RFC 3629 bytes decode to a text iff the text has no surrogate and they are its encoding |
| `ShortestJson.PrintIsShortest` | src/vectorpin/attestation.py:308-313 | No text that `json.loads` reads as a value is shorter than its canonical JSON: no space, no member twice, no needless escape |
| `Encodable.ParsedPinCanonicalizes` | src/vectorpin/attestation.py:343-513 | Canonicalizing a pin the parser accepted never raises, on the strict and on the legacy path |
| `Encodable.ParsedPinNeverAborts` | src/vectorpin/verifier.py:277-297 | Verifying a parsed pin reports PARSE_ERROR iff the window raises on a zone-less time, or the pin is authentic and the caller's source has no UTF-8 form or its vector, of the right shape, is not finite: nothing in the pin makes it abort |
| `Encodable.PrintFree` | src/vectorpin/attestation.py:308-314 | Canonical JSON of strings that have a UTF-8 form has one |
| `Attestation.PrintedPinParses` | src/vectorpin/attestation.py:334-353 | from_dict(to_dict(p)) = p for every pin the parser accepts, size guard included |
| `SizeGuard.ParsesBackIff` | src/vectorpin/attestation.py:334-513 | A pin, parsed or not, survives to_dict and from_dict iff it meets the wire-format rules (version, string caps and safety, dtype, dimension, hash shapes, timestamp, `extra` bounds, signature length) |
| `SizeGuard.GuardDecidesNothing` | src/vectorpin/attestation.py:205-226 | The total-size guard of the dict path refuses only dicts that a rule for a single field refuses too: without it the parser gives the same result for every dict |
| `StoredText.TextParsesBackIff` | src/vectorpin/attestation.py:339-341 | from_json(to_json(p)) = p iff p meets the wire-format rules and its text, in which all but ASCII is escaped, is within the cap of from_json; surrogate pairs in escapes are joined on reading |
| `StoredText.AcceptedPinAsText` | src/vectorpin/attestation.py:515-524 | A pin the dict parser accepts comes back from its own text when that is within the cap, and is refused otherwise |
| `StoredText.LongPinIsRefusedAsText` | src/vectorpin/attestation.py:515-524 | A pin that the dict parser accepts and whose own text from_json refuses: 32 `extra` values of 341 euro signs |
| `Attestation.ParsedMeetsRules` | src/vectorpin/attestation.py:343-513 | Every pin the parser accepts meets those rules, a hash string with the final newline that Python's `$` lets through included |
| `PinRules.DictIff` | src/vectorpin/attestation.py:344-514 | Any JSON value is read as a pin iff it is a dict without unknown members that carries the pin's fields (`null` for an absent model hash, an empty `extra` for an absent one) and the pin follows the rules, written out with their limits and ranges |
| `Attestation.PrintedFits` | src/vectorpin/attestation.py:205-226 | Printing a parsed pin never grows it past the size guard it passed |
| `Attestation.HeaderFieldsInjective` | src/vectorpin/attestation.py:255-275 | The header dict determines the header, although an empty `extra` and an absent `model_hash` are not written |
| `Attestation.NormalizedIdentity` | src/vectorpin/attestation.py:288-306 | Canonicalization changes nothing in a header whose strings are in normal form, key collisions included |
| `Attestation.ParsedIsNormalized` | src/vectorpin/attestation.py:381-484 | Every string canonicalization would normalize is already in normal form in a parsed v2 pin |
| `Attestation.FillExtra` | src/vectorpin/attestation.py:451-484 | The loop, in any iteration order, returns the sanitized map iff every entry passes |
| `Attestation.CheckDictSize` | src/vectorpin/attestation.py:205-226 | The running total with its early exit decides whether the sum over all keys and values is within the cap, in any iteration order |
| `RustCanonical.CanonicalBody` | rust/vectorpin/src/attestation.rs:122-165 | Push, sort by bytes, insert: the Rust body is the text the Python port prints, for every header |
| `RustCanonical.KeyOrderAgrees` | rust/vectorpin/src/attestation.rs:144-161 | A listing sorted by UTF-8 bytes is the listing sorted by code point |
| `RustCanonical.SortAndInsert` | rust/vectorpin/src/attestation.rs:151-160 | The stable sort and the insertions give strictly increasing keys and keep, for each key, the value that came last |
| `TsCanonical.PortsSignAlikeIff` | typescript/src/attestation.ts:201-230 | For every header of well-formed strings in normal form, TypeScript and Python sign the same bytes iff the UTF-16 order of the `extra` keys is their code-point order |
| `TsCanonical.OrdersDifferIff` | typescript/src/attestation.ts:219-224 | Two keys are ordered differently iff where they first differ one has a code point from U+E000 to U+FFFF and the other one beyond U+FFFF |
| `TsCanonical.PortsCanDisagree` | typescript/src/attestation.ts:219-224 | A header the two ports sign differently: `extra` with the keys U+E000 and U+10000 |
| `TsCanonical.TsText` | typescript/src/attestation.ts:564-587 | What the recursive sorted printer returns is Python's text with the `extra` keys in code-unit order |
| `TsPins.RoundTrip` | typescript/src/attestation.ts:266-301 | pinFromJSON(pinToJSON(p)) = p for an accepted pin iff the text fits 65,536 bytes and `extra` was not given as an empty object |
| `TsPins.DictRoundTrip` | typescript/src/attestation.ts:270-475 | pinFromDict(pinToDict(p)) is p with `extra` absent when it is empty |
| `TsPins.EmptyExtraIsLost` | typescript/src/attestation.ts:183-189 | A concrete accepted pin that the round trip changes: `extra` given as `{}` comes back absent |
| `TsPins.NeverFiresOnPrinted` | typescript/src/attestation.ts:116 | The raw-text literal check never fires on printed integers and strings, whatever the strings hold |
| `TsLiterals.FiresIff` | typescript/src/attestation.ts:116 | On every JSON text the regular expression matches iff somewhere in it, dropped duplicates included, a member whose key is spelled as one of the two names, or ends with an escaped quote and one of them, has a number not written as an integer |
| `RawText.ParseIsRaw` | typescript/src/attestation.ts:293-301 | The reading of a text with its keys as spelled denotes what `JSON.parse` returns, and exists iff it does |
| `EscapedKeys.AcceptedIff` | typescript/src/attestation.ts:283-301 | `pinFromJSON` accepts the text of a pin, no key repeated, iff it fits the cap and every literal of `v` and `vec_dim` is written as an integer or stands under a key written with an escape |
| `EscapedKeys.CaughtIff` | typescript/src/attestation.ts:109-116 | On such a text the check fires iff some literal of the two fields is not written as an integer and its key is written without an escape |
| `EscapedKeys.MissedIsEscaped` | typescript/src/attestation.ts:109-116 | On every JSON object text, duplicates and unknown fields included: a literal of the two fields that is not written as an integer and passes the check belongs to a key written with an escape |
| `EscapedKeys.IntegerUnlessEscaped` | typescript/src/attestation.ts:109-116 | In a text without a backslash every number that passes the check under one of the two keys is written as an integer |
| `EscapedKeys.EscapedKeyIsMissed` | typescript/src/attestation.ts:109-116 | The smallest text the check misses: the key written as backslash, `u0076`, the literal `2.0` |
| `EscapedKeys.EscapedPinAccepted` | typescript/src/attestation.ts:283-301 | Every accepted v2 pin has such a text, which within the cap TypeScript accepts as that pin, while the Python parser refuses the dict it holds |
| `PortParsers.PortsParseAlike` | typescript/src/attestation.ts:303-475 | On every dict of well-formed strings: one that Python accepts TypeScript accepts iff `extra` has no reserved key and no hash ends in a newline; one that TypeScript accepts Python accepts iff both numbers are written as integers, a v2 year is at least 1 and a v1 timestamp has no control or bidi character; and both read the same pin |
| `TsPins.Sanitize` | typescript/src/attestation.ts:412-448 | The loop, in any key order, returns the sanitized map iff every entry passes |
| `JsonText.ParsePrint` | typescript/src/attestation.ts:564-587 | JSON.parse after the canonical printer is the identity on every value, lone surrogates included; so is json.loads after json.dumps with `ensure_ascii=False`, `NaN` and `Infinity` included, and after json.dumps with escapes when no string holds a high surrogate before a low one |
| `JsonText.DialectsQuoteAlike` | typescript/src/attestation.ts:573 | Python and JavaScript print a string alike when it holds no lone surrogate, which JavaScript escapes and Python does not |
| `JsonText.PrintInjective` | typescript/src/attestation.ts:564-587 | In either dialect canonical JSON text determines the value, whatever keys and strings it holds |
| `Utf.Utf8PreservesOrder` | rust/vectorpin/src/attestation.rs:144-161 | UTF-8 byte order is code-point order |
| `Utf.NoLoneSurrogates` | typescript/src/hash.ts:72-87 | The unit loop accepts exactly the UTF-16 encodings of surrogate-free texts |
| `Utf.UnitScanIsCodePointScan` | typescript/src/attestation.ts:484-499 | On such an encoding the unit scan accepts iff Python's code-point scan accepts the text |
| `Utf.ByteCapsAgree` | typescript/src/attestation.ts:501-508 | The length pre-checks on units and on code points never change the byte-cap verdict |
| `Base64Url.EncodeNoPad` | typescript/src/attestation.ts:608-631 | The packing loop and its tail compute the RFC 4648 grouping |
| `Base64Url.DecodeStrict` | typescript/src/attestation.ts:644-675 | Returns the bytes that the string canonically encodes, and fails iff there are none, although the accumulator wraps at 32 bits |
| `Base64Url.AlphabetIs` | typescript/src/attestation.ts:594-601 | The symbols and their values are those of table 2 of RFC 4648 and nothing else is one |
| `Base64Url.DecodeEncode` | typescript/src/attestation.ts:608-675 | decode(encode(b)) = b for all bytes |
| `Base64Url.EncodeDecode` | typescript/src/attestation.ts:608-675 | Every accepted string is the encoding of what it decodes to; a string is accepted iff it is the encoding of some bytes |
| `Base64Url.ShiftIn` | typescript/src/attestation.ts:662 | After a wrapping shift the low bits of the accumulator are still exact |
| `Base64Url.PortsDecodeAlike` | src/vectorpin/attestation.py:120-137 | Python's re-encode test and TypeScript's trailing-bits test accept the same strings and decode them alike |
| `Civil.CivilToUnixCounts` | rust/vectorpin/src/verifier.rs:522-542 | For every civil date-time the formula gives the naive count of seconds, and exactly one day less when the shifted year is below 0 and not 399 modulo 400 |
| `Civil.EraLineFails` | rust/vectorpin/src/verifier.rs:529 | The era line fails at 1 March of year -2 |
| `Civil.CivilToUnixDefined` | rust/vectorpin/src/verifier.rs:522-542 | No checked step fails for years within 2 * 10^11 of zero |
| `Civil.RoundTripFromFields` | rust/vectorpin/src/signer.rs:226-245 | unix_to_ymdhms(civil_to_unix(f)) = f for every civil date-time with year at least 0 whose day number fits 32 bits |
| `Civil.RoundTripFromSeconds` | rust/vectorpin/src/verifier.rs:522-542 | civil_to_unix(unix_to_ymdhms(t)) = t for every second from 0000-01-01 on whose day number fits |
| `Civil.YearBlockDefined` | rust/vectorpin/src/signer.rs:236-239 | None of the u32 subtractions underflows |
| `Civil.SecondsAdvance` | rust/vectorpin/src/verifier.rs:522-542 | The count is strictly increasing in the fields |
| `Timestamps.ParseNumber` | rust/vectorpin/src/attestation.rs:361-370 | The checked u32 loop computes the decimal value and fails iff a unit is not a digit |
| `Timestamps.ParseTs` | rust/vectorpin/src/attestation.rs:349-391 | Accepts exactly the shaped, calendar-valid timestamps, with their fields |
| `Timestamps.ParsedSecondsAreCounted` | rust/vectorpin/src/verifier.rs:517-520 | On parsed input no checked step fails and the result is the naive count |
| `Timestamps.TextOrderIsTimeOrder` | rust/vectorpin/src/verifier.rs:517-542 | Byte order of accepted `ts` strings is exactly order of instants |
| `Timestamps.PortsAcceptTheSameTimestamps` | typescript/src/attestation.ts:516-529 | The Rust parser on UTF-8 and the TypeScript check on UTF-16 accept the same texts |
| `Timestamps.FormatThenParse` | rust/vectorpin/src/signer.rs:216-224 | A formatted instant of year 0 to 9999 parses back to its fields |
| `Timestamps.ClockRoundTrip` | rust/vectorpin/src/signer.rs:216-245 | For every second from the epoch to the end of year 9999, formatting and parsing give it back, with no overflow on the way |
| `Rounding.RoundIsNearest` | src/vectorpin/hash.py:98-113 | The rounding behind a cast picks a nearest magnitude, the even one on a tie |
| `Floats.WidenExact` | src/vectorpin/hash.py:83-95 | Widening a finite element is exact |
| `Floats.WidenInjective` | src/vectorpin/hash.py:83-95 | Widening is injective on finite bit patterns, signed zeros and subnormals included |
| `Floats.NarrowWiden` | src/vectorpin/adapters/base.py:124-130 | narrow(widen(x)) = x for every finite pattern and the infinities |
| `Floats.NarrowIsNearest` | src/vectorpin/adapters/base.py:124 | A conversion that stays finite (`Floats.ConvertMeans` says when) gives a nearest value, ties to even |
| `Floats.ConvertMeans` | src/vectorpin/hash.py:98-113 | Conversion keeps sign, NaN and infinity; a finite number stays finite iff it is below the middle between the largest finite number and the next power of two, and becomes infinity otherwise |
| `VectorHash.OneValue` | src/vectorpin/hash.py:42-47 | 1.0 has one value in every format, so the four scales agree |
| `Floats.RoundTripsIffRepresentable` | src/vectorpin/adapters/base.py:124-130 | The array_equal round trip passes iff the element is the widening of some narrow number, and then gives back its very bits |
| `Floats.ManyDoublesNarrowAlike` | src/vectorpin/adapters/base.py:124-130 | At least 2^28 doubles narrow to each normal single |
| `VectorHash.PrecisionRuleSuffices` | src/vectorpin/hash.py:83-113 | Two finite vectors of one width that the precision rule lets through and that hash alike are identical, or a collision |
| `VectorHash.PrecisionRuleNeeded` | src/vectorpin/hash.py:83-95 | Without the rule a single-precision pin is matched by every double vector that widens the pinned elements and moves each normal one by less than 2^28 steps, all elements at once; different moves are different vectors |
| `VectorHash.NarrowedExactlyOrRefused` | src/vectorpin/adapters/base.py:117-133 | Input wider than the declared dtype is returned iff every element is representable there, and widening the result gives back the delivered bits |
| `VectorHash.StoreReadInjective` | src/vectorpin/adapters/base.py:93-133 | Two finite arrays of one format that come out alike are identical, whatever native dtype is declared |
| `VectorHash.StoreReadMeans` | src/vectorpin/adapters/base.py:93-136 | Reading gives the array itself where no dtype is declared, a plain sequence as doubles, and else the conversion of every element to the declared dtype; it is refused iff the array is wider and some element is not representable, or it is not one-dimensional |
| `VectorHash.NativeNeverRounds` | src/vectorpin/hash.py:58-80 | The inferred dtype is never narrower than the array and keeps distinct arrays distinct |
| `VectorHash.NativeFormatMeans` | src/vectorpin/hash.py:58-80 | `f32` is the dtype of exactly the half and single arrays, `f64` of the double ones; all others have none |
| `VectorHash.NotWiderMeans` | src/vectorpin/hash.py:83-95 | A dtype carries exactly the float arrays of its own format and the narrower ones |
| `VectorHash.CanonicalBytesMean` | src/vectorpin/hash.py:98-113 | A reader of the canonical bytes finds one element for each given one, in order, its conversion; only arrays that are not one-dimensional have none |
| `VectorHash.FromIntMeans` | src/vectorpin/adapters/base.py:121-122 | An integer becomes a nearest number, ties to even, with its sign, and infinity iff it is at or above that middle |
| `VectorHash.OneIs` | src/vectorpin/hash.py:42-47 | The integer 1 has the patterns 3f800000 and 3ff0000000000000 |
| `VectorHash.UnpackPack` | src/vectorpin/hash.py:98-113 | A reader of little-endian IEEE 754 numbers finds in the canonical bytes exactly the cast elements, bit for bit |
| `VectorHash.PackInjective` | src/vectorpin/hash.py:98-113 | The canonical bytes determine the cast elements |
| `VectorHash.LeBytes` | rust/vectorpin/src/hash.rs:182-196 | The extending loop computes the packed little-endian elements |
| `VectorHash.CanonicalBytesRust` | rust/vectorpin/src/hash.rs:165-180 | For each of the four pairs of slice type and dtype a reader of the bytes finds one element per scalar: the scalar's own bits when the types agree, else its conversion; the bytes are the ones Python makes of the same array |
| `VectorHash.CanonicalBytesTs` | typescript/src/hash.ts:40-58 | The DataView loop fills the buffer with bytes in which a reader finds the conversion of every element, and which are Python's; an empty vector is refused |
| `Signing.SignedHeaders` | src/vectorpin/signer.py:187-256 | A signed header is in normal form and carries the hashes of the signed vector bytes and source, and the given model, time and model hash |
| `Signing.PinnedBytes` | src/vectorpin/signer.py:187-256 | Whatever the width of the vector, a reader of the hashed bytes finds under the header's dtype as many elements as the header says, each the conversion of the vector's own (a nearest number with its sign for an integer), and a store that keeps just those elements verifies against the header |
| `Signing.SignsIff` | src/vectorpin/signer.py:187-246 | A request is signed iff its vector is one-dimensional, not empty and stays finite under the dtype given or its own, and its model, source, `extra` and time are fit; the header names that dtype |
| `Signing.ExtraIsLast` | src/vectorpin/signer.py:224-233 | Under each normal form `extra` holds the normal form of the value given last for it |
| `Signing.NormalizeExtra` | src/vectorpin/signer.py:224-233 | The loop fills the normalized map, later items replacing earlier ones, and raises iff some string is unsafe |
| `Signing.PinnedVectorMatches` | src/vectorpin/signer.py:193-206 | The pinned vector matches its own header iff it is a float vector no wider than the dtype it was pinned under |
| `Signing.DefaultDtypeMatches` | src/vectorpin/signer.py:193-194 | With the default dtype it always matches |
| `Signing.SignedPinParsesIff` | src/vectorpin/signer.py:144-256 | A signed pin survives to_dict and from_dict iff its strings and `extra` are within the caps, its dimension is, its `model_hash` has the hash shape, its timestamp is a calendar one of years 1 to 9999 and its signature has 64 bytes: signing guarantees every other rule |
| `Signing.SignedPinCanBeRefused` | src/vectorpin/signer.py:187-256 | So signing does not guarantee parsing: whatever can be signed can be signed with an empty `model_hash`, and then the parser refuses the pin |
| `Signing.HonestPinVerifies` | src/vectorpin/signer.py:144-256 | Against what was pinned, for a vector no wider than its dtype, a pin signed by a registered key is accepted iff the key's window admits it, at any trusted time or none |

## Left out

- SHA-256, Ed25519 and Unicode NFC themselves: parameters, as described above.
- The vector-store adapters, network and SQL guards, detectors, benchmarks, key files, PEM loading, argument
  parsing, `detail` texts and stderr output: client plumbing.
- The Rust and TypeScript `verify` and manifest code: the verifier is modelled from the Python reference; error
  codes differ between ports (a wrong-length `sig` is SIGNATURE_INVALID in Python and a parse error elsewhere).
- Byte equality of `to_json` across ports (Python escapes non-ASCII there). TypeScript strings are modelled as code
  units. TypeScript's v1 canonicalization is not modelled.
- JavaScript `Date` and regular-expression engines: the one pattern that matters is written out.
- The order in which a parser reports one of several faults: parsers return a pin or nothing.
- The indented text of the printed report, which is modelled as a value; the warning about pins without a record id.
- Audit.ReportInjective: the label of the report is taken to be none of its other keys, as in every caller.
- A `vector` argument that is not an array (SHAPE_MISMATCH), and key material that is not 32 bytes.
- NaN payloads: conversion gives the quiet NaN. No result depends on them, since NaN is refused everywhere it
  could be hashed by the verifier.
- Long doubles are taken as binary128, which holds every 80-bit extended value. Element types other than floats
  and integers, and the contents of arrays that are not one-dimensional, are not modelled; both are refused.
- `as i32` in `unix_to_ymdhms` wraps where the model has no result: seconds whose day number does not fit.
- Base64Url.ReadSymbols: the loop is stated against a fold over the symbols, whose meaning is `Base64Url.RunDecodes`.
- Rust's and Python's window parsers: `instant` stands for any of them; equality of ports is stated for timestamp
  acceptance between Rust and TypeScript, and in `PortParsers` for Python, whose `strptime` starts at year 1.
- PortParsers.PortsParseAlike: dicts that hold a lone surrogate are left out, since the two languages count and cut
  them differently; what doubles make of an integer literal beyond 2^53 or below zero is only assumed to be no
  version and no dimension.
