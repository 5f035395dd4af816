# Núcleo: proofs about the log, its witness and its store

Núcleo is an append-only transparency log. Each record is a block whose canonical header is
hashed and signed; the blocks are the leaves of a Merkle tree; the log signs checkpoints of that
tree; and an independent witness cosigns a checkpoint only if it extends the last one it
cosigned. This project models those algorithms and state machines in Dafny and proves what the
system promises with them.

    dafny verify dfyconfig.toml

## How the model is built

- **Hashes.** SHA-256 is a parameter: any function from byte strings to 32 bytes. Where an
  argument needs that two inputs with one hash are equal, the conclusion ends in
  `|| CollisionIn(h, inputs)`, with `inputs` a finite set of byte strings that the parties named in
  the statement actually hashed (`Hashing.dfy`). No injectivity is assumed anywhere.
- **Signatures in notes** are ideal: a signature is the pair of the key that made it and the
  message it was made on, so a key verifies exactly what its owner signed (`Notes.dfy`). The
  signatures of blocks and of erasures are a parameter (`Blocks.Env`), of which only `Faithful`
  asks anything: that an owner's signatures verify, that RFC 3339 texts are ASCII, and that
  decoding canonical bytes gives back what was encoded.
- **Encryption** is symbolic: a sealed value opens only under its own key and associated data
  (`Vault.dfy`). Argon2id is a parameter.
- **Text** is bytes. Base64, hexadecimal, decimal, UTF-8, the canonical JSON of headers, the
  checkpoint body, the add-checkpoint request, the receipt, the `payload_cid` of an erasure and the
  strict JSON reader are all modelled byte by byte.
- **Objects the source updates in place** are classes with the same fields (`Witness.Witness`,
  `LogLock.Log`, `LogSync.StoreLog`, `Store.Store`, `Vault.MetaStore`, `Estricto.Reader`), and the
  source's loops are loops. Each method is proved equal to a specification function, and the
  theorems are about that function. Transactions commit whole or change nothing.
- **Decisions are said twice.** What a specification function decides branch by branch is stated again
  as one condition on its inputs, in both directions, in `WitnessDecisions`, `LogSyncMeaning`,
  `BlockMeaning`, `OpeningMeaning`, `ProofNoteMeaning`, `ReconcileMeaning`, `FindingsMeaning` and the
  lemmas named `…Exact`.
- **Whole runs** are sequences of atomic steps: `WitnessRun` interleaves requests whose checks and
  whose use of the memory are separate steps, with failed signatures, failed commits, lost answers
  and restarts; `LogLockRun` has crashes between persisting and returning; `SystemRun` adds a
  network that answers anything it can and a local ledger that may be edited at will; `VaultRun`
  tears the three reads of a change of passphrase apart.

| file | what it is about |
|---|---|
| `Bytes`, `Text`, `Decimal`, `Hex`, `Base64`, `Utf8`, `Hashing` | shared vocabulary |
| `Encodings` | the spellings the standards fix, and the bytes of a header as they stand in the file |
| `Merkle`, `MerkleVerify`, `MerkleStandard` | roots, proofs, the bit-arithmetic loops that check them, and the forms of RFC 6962 |
| `CheckpointFormat`, `WitnessProtocol`, `Notes` | wire formats and signed notes |
| `Witness`, `WitnessDecisions`, `WitnessRun`, `WitnessConsent` | the witness, what each of its answers means, and its runs |
| `LogLock`, `LogLockRun` | the log's durable anti-rollback lock |
| `LogSync`, `LogSyncMeaning`, `HonestSync`, `ReplayedSync`, `SystemRun` | synchronising with the witness, over any network, an honest one, and one that replays |
| `Jcs`, `JcsOrder`, `JcsSearch`, `Blocks`, `BlockMeaning` | canonical headers, the order of their members, the signer by substring search, chains, and what each check of a block means |
| `Store`, `StoreRun`, `Integrity`, `SignedRows`, `Opening`, `OpeningMeaning`, `OpeningAppended` | transactional append, the fast opening, and what an opened ledger says |
| `ProofNote`, `ProofNoteMeaning`, `ProofNoteOrder`, `Receipts`, `ReceiptRun`, `ReceiptBlock` | notes under a policy, receipts, and the blocks they stand for |
| `Erasure`, `Reconcile`, `ReconcileMeaning`, `FindingsMeaning` | authorised erasure and reconciliation |
| `Vault`, `VaultRun` | change of passphrase |
| `EstrictoGrammar`, `EstrictoStrings`, `Estricto`, `EstrictoPrint` | the strict JSON reader |
| `ClaveAcceso` | the modulo-11 check digit |

## Findings

Four promises of the source do not hold for every input; each is proved with the exact condition
under which it does, and with the inputs for which it fails.

- **Headers whose text is not UTF-8.** `Validate` accepts a tenant that is not valid UTF-8, and
  `encoding/json` replaces the bad bytes before the header is hashed, so two valid headers that
  differ there have one hash (`Blocks.InvalidTextIsLost`). Canonical bytes are equal exactly when
  the headers are equal after that replacement (`Blocks.CanonicalExact`).
- **The provable time.** `VerifyNote` uses Go's zero instant to mean "none yet". A timestamp of
  2^63 or more wraps to a negative one, and one of them, 2^64 - 62135596800, is the zero instant
  (`ProofNoteOrder.ZeroInstantIsOneStamp`). A note with that timestamp in one cosignature and 1 in
  another is accepted with one provable time or the other, by the order of its lines
  (`ProofNoteOrder.OneNoteTwoTimes`). The time of an accepted note is the same in every order of its
  lines exactly when no cosignature at the zero instant is the earliest beside a later one
  (`ProofNoteOrder.TimeByOrderExact`), which timestamps below 2^63 always meet
  (`ProofNote.NoWrapNoAmbivalence`).
- **A note with a hundred lines.** The witness cosigns a note that already has a hundred signature
  lines, which makes a hundred and one, and such a note cannot be opened again
  (`HonestSync.HundredLinesAreLost`). The note that answers a request opens exactly when the request
  has fewer than a hundred different lines besides the witness's own, all the log's lines counting
  as one (`HonestSync.CosignedOpensExactly`). Over any run what is remembered opens exactly when it
  has at most a hundred lines (`HonestSync.MemoryOpensExactly`), so without requests of a hundred
  lines it always opens (`HonestSync.MemoryAlwaysSound`).
- **One receipt, one text.** The comment on `Parse` in `proof.go` wants two receipts with the same
  data to have the same bytes, but the base64 decoder skips a carriage return in a node line
  (`Receipts.ReturnIsLost`). What `Format` writes is exactly what `Parse` reads without a carriage
  return before the note (`Receipts.FormatExact`). `internal/receipt/format.go` closes the gap by
  comparing with what it would write again.

`SyncWithWitness` accepts any verified cosignature of the current size and root, an old one that the
network kept included. What it proves is therefore about the instant at which the witness signed:
`SystemRun.AttestedLedgerIsOnTheChain` says it for everything cosigned before and after it.

## Model

| member | source | states |
|---|---|---|
| Merkle.RootInjective | internal/ledger/merkle.go:58-68 | Two lists of leaves of any sizes with one root are the same list, or the hash collided on something hashed in one of the two trees |
| Merkle.InclusionComplete | internal/ledger/merkle.go:91-101 | Folding the generated inclusion path from the leaf gives the root, and the path has one node for each side the split gives |
| Merkle.InclusionSound | internal/ledger/merkle.go:91-101 | A path that folds to the root of a list starts at that list's leaf and is the generated path, or a collision is exhibited |
| Merkle.ConsistencyComplete | internal/ledger/merkle.go:103-117 | Folding the generated consistency path gives both the old root and the new one |
| Merkle.ConsistencySound | internal/ledger/merkle.go:103-117 | A path that folds to the new root folds to the root of the prefix, and is the generated one, or a collision is exhibited |
| Merkle.SidesBound | internal/ledger/merkle.go:48-54 | From the largest subtree that ends an old size, at most e siblings lead to the root of a tree of at most 2^e leaves |
| Merkle.ConsistencyProofFits | internal/witness/protocol.go:26 | For trees of up to 2^53 leaves a consistency proof has at most 54 nodes, so it fits the 63 lines of the request |
| MerkleVerify.SidesBothWays | internal/ledger/merkle.go:121-147 | The sides the loop derives from the bits of the leaf index and the last index are the sides of the recursive split at the largest power of two |
| MerkleVerify.LargestPowerOfTwoBelow | internal/ledger/merkle.go:48-54 | The doubling loop finds the split point of the recursive definition |
| MerkleVerify.VerifyInclusion | internal/ledger/merkle.go:121-147 | The loop over fn, sn and r gives the verdict of the recursive definition on every input, malformed ones included |
| MerkleVerify.VerifyConsistency | internal/ledger/merkle.go:151-212 | The loop over fn, sn, fr and sr gives the verdict of the recursive definition on every input, powers of two and equal sizes included |
| MerkleVerify.ClimbBoth | internal/ledger/merkle.go:177-212 | From the last subtree of the old tree, the loop recomputes both roots as the recursive definition folds them |
| MerkleVerify.InclusionExact | internal/ledger/merkle.go:121-147 | Against the root of a list, VerifyInclusion accepts a leaf and a proof exactly when the leaf is at that index and the proof is the generated one, or a collision is exhibited |
| MerkleVerify.ConsistencyExact | internal/ledger/merkle.go:151-212 | Against the root of a list, VerifyConsistency accepts exactly the root of the prefix with the generated proof, or a collision is exhibited |
| MerkleStandard.RootOfParts | internal/ledger/merkle.go:31-68 | The root of a list cut after the largest power of two below its length is the hash of a one byte, the root of the left part and the root of the right one |
| MerkleStandard.HasCut | internal/ledger/merkle.go:46-54 | Every list of two leaves or more has such a cut |
| MerkleStandard.LeftAuditPaths | internal/ledger/merkle.go:71-101 | Over seven leaves, the audit paths of the first and the fourth are those of RFC 6962, section 2.1.3, node by node |
| MerkleStandard.RightAuditPaths | internal/ledger/merkle.go:71-101 | And those of the fifth and the last |
| MerkleStandard.ConsistencyProofs | internal/ledger/merkle.go:79-117 | And the consistency proofs from three, four and six leaves |
| CheckpointFormat.FormatExact | internal/checkpoint/checkpoint.go:70-127 | A text parses to a checkpoint exactly when it is what that checkpoint formats to: one byte form per value, both ways |
| Base64.ParseLineExact | internal/witness/protocol.go:131-141 | Strict decoding, the length and re-encoding together accept a node line exactly when it is the one spelling of 32 bytes, although the decoder skips carriage returns |
| Encodings.Base64Digit | internal/witness/protocol.go:49-77 | The symbols of node lines are those of table 1 of RFC 4648 |
| Encodings.Base64Vectors | internal/witness/protocol.go:49-77 | And short values are written as section 10 of RFC 4648 writes them |
| Encodings.Base64Longer | internal/witness/protocol.go:49-77 | And so is its longest example |
| Decimal.ParseExact | internal/witness/protocol.go:150-167 | A size parses exactly from its canonical decimal digits |
| Encodings.DecimalAt | internal/witness/protocol.go:49-77 | A number ends in its last decimal digit, after the number that the others are |
| WitnessProtocol.UnmarshalOfMarshal | internal/witness/protocol.go:49-145 | Every request that can be sent is read back as it was |
| WitnessProtocol.MarshalOfUnmarshal | internal/witness/protocol.go:49-145 | Every accepted body is the one spelling of the request it gives, up to the last byte |
| WitnessProtocol.MarshalAddCheckpoint | internal/witness/protocol.go:49-77 | The loop that writes the buffer produces the specified bytes, and refuses the same requests |
| WitnessProtocol.UnmarshalAddCheckpoint | internal/witness/protocol.go:80-145 | The loop over the proof lines reads what the specification reads, and refuses the same bodies |
| Notes.CosignedMessageInjective | internal/witness/cosignature.go:53-62 | A cosigned message is about one instant and one text |
| Notes.OpenSound | internal/checkpoint/checkpoint.go:165-175 | Every signature an opened note reports verifies under the one verifier of its key, and is a line of the note |
| Notes.OpenExact | internal/checkpoint/checkpoint.go:165-175 | A note opens under one key exactly when it has at most a hundred lines, one of them of that key, and the first of those verifies over the note's text |
| Witness.Witness.AddLog | internal/witness/witness.go:134-146 | The log becomes active under its key; a retired origin is refused and nothing else changes |
| Witness.Witness.RetireLog | internal/witness/witness.go:161-184 | An origin is retired only with the key its remembered note is signed by; the memory is untouched |
| Witness.Witness.Cosign | internal/witness/witness.go:249-340 | The new memory and clock and the answer are those of the specification for both entry points, of which WitnessDecisions.CosignExact and RunDecides say what each answer means; on any refusal, failed signature or failed commit the memory is unchanged |
| Witness.CheckLive | internal/witness/witness.go:344-397 | The extension check with the real consistency loop decides as its specification |
| WitnessDecisions.ExtensionExact | internal/witness/witness.go:344-397 | A checkpoint may follow what is remembered exactly when it is not smaller, nothing is proved from the empty tree, the root is the same at the same size, and a consistency proof leads from one to the other in between |
| WitnessDecisions.AdmissionExact | internal/witness/witness.go:249-302 | A request reaches the memory exactly when its body can be read, its log is active and not retired, that log's key signed it and it does not declare more than it brings; otherwise the first of these that fails names the error |
| WitnessDecisions.AdvanceExact | internal/witness/witness.go:304-340 | With a memory of size m: a conflict exactly when another size than m was declared, and it tells m; a note exactly when the declared size agrees, the checkpoint follows, the clock has not gone back and the commit succeeds; and what each answer leaves in the memory and the clock |
| WitnessDecisions.CosignExact | internal/witness/witness.go:249-340 | The same for a whole request, from its bytes to the note: cosigned exactly when it is admissible, declares what is remembered, extends it and can be signed and persisted; a conflict exactly when it is admissible and declares another size, and then nothing changes |
| WitnessDecisions.RunDecides | internal/witness/witness.go:304-340 | After any run, a request whose turn comes gets a note, and changes memory or history, only if the size it declared is the one remembered at that step; it gets a conflict exactly when it declared another one |
| WitnessDecisions.ClockForward | internal/witness/cosignature.go:107-137 | Over any run without a restart the clock never goes back, and every note persisted has an instant between the clock before and the clock after |
| WitnessDecisions.AddExact | internal/witness/witness.go:134-146 | A log is added exactly when it has not been retired, under the key given, and nothing else changes |
| WitnessDecisions.RetireExact | internal/witness/witness.go:161-184 | An origin is retired exactly when it is not active and the key given signed what is remembered of it, if anything is |
| WitnessDecisions.RetiredIsNotActive | internal/witness/witness.go:134-184 | In any run no retired origin is active |
| WitnessRun.RunKeeps | internal/witness/witness.go:249-340 | Over every interleaving of checks, attempts, failed signatures and commits and restarts, each origin's history is a chain of checkpoints each verified against the one before, the memory is its end, and everything handed out is in it |
| WitnessRun.CosignedNotesAgree | internal/witness/witness.go:344-397 | In any run, of two lists of leaves with roots cosigned for one origin the larger begins with the smaller, or a collision is exhibited |
| WitnessRun.PrefixOfLater | internal/witness/witness.go:344-397 | A list with a cosigned root has as prefix a list with each root cosigned before it, across any number of consistency proofs |
| WitnessRun.NeverForgets | internal/witness/state.go:62-71 | Whatever happens next, the remembered size of an origin never shrinks and its history only grows |
| WitnessRun.HandedIsPersisted | internal/witness/state.go:133-164 | A note is handed out only by a step that leaves exactly that note in the memory |
| WitnessConsent.OnlyWhatWasAsked | internal/witness/witness.go:249-340 | Over every run, each note the witness cosigned for an origin has a text that a log registered for that origin had signed in a request, and ends with the witness's own cosignature of it; active and retired logs never overlap |
| LogLock.Log.Bind | internal/checkpoint/log.go:92-119 | After binding, the lock is the larger of what was in memory and what was durable, or nothing changed |
| LogLock.Log.Sign | internal/checkpoint/log.go:134-158 | The lock, the durable note and the result are those of the specification, for a write that happens, fails, or fails after happening |
| LogLock.BindExact | internal/checkpoint/log.go:92-119 | Binding succeeds exactly when the durable note, if any, is a checkpoint of this log; the lock is then at least as large as both, and what was in memory at equal sizes |
| LogLock.SignExact | internal/checkpoint/log.go:134-174 | A checkpoint is signed exactly when the lock allows it, it can be written and the note reaches the disk; a rollback is refused exactly when the size goes back or the root of one size changes; otherwise lock and note stay, but for a write that happened and was reported as failed |
| LogLockRun.NeverContradictsItself | internal/checkpoint/log.go:163-174 | Over any run of signatures, crashes (also between persisting and returning), rebinding and edits of the ledger, the notes returned have non-decreasing sizes, and one root per size |
| LogLockRun.SignedRootsArePrefixes | internal/logsync/adapter.go:85-100 | Over an append-only ledger every root ever returned is the root of a prefix of the final leaves |
| LogSync.Client.AddCheckpoint | internal/witness/client.go:134-174 | Only a note whose cosignature verified comes back as a success |
| LogSync.StoreLog.SignCheckpoint | internal/logsync/adapter.go:85-100 | The checkpoint signed is that of the first leaves on disk, through the lock; a size beyond the leaves is an error that signs nothing |
| LogSync.StoreLog.RecordCosigned | internal/logsync/adapter.go:110-123 | The first cosigned note for a size is kept, another for the same size changes nothing and is no error; a note that cannot be read is |
| LogSync.SyncWithWitness | internal/logsync/logsync.go:109-189 | The procedure leaves the lock, the table of notes and the result that the specification says, and sends the request it says; the five rows of LogSyncMeaning below say what these are |
| LogSyncMeaning.RemoteExact | internal/logsync/logsync.go:225-243 | The witness is taken to remember x exactly when a verified note of its own about this log says x, or it has none and x is 0 |
| LogSyncMeaning.SentExact | internal/logsync/logsync.go:109-146 | With x known, a request is sent exactly when x is not more than there is on disk, the log may sign, and the proof fits; and it is the log's signed checkpoint of all its leaves with the consistency proof from x |
| LogSyncMeaning.RollbackExact | internal/logsync/logsync.go:125-163 | Over any network, a rollback of n against x is reported exactly when n is what there is on disk, x is more, and either a verified note of the witness says x or a request was sent and answered with a conflict of x |
| LogSyncMeaning.AttestedExact | internal/logsync/logsync.go:165-214 | Over any network, success is exactly a request that was sent and a reply whose cosignature verifies, at the instant reported, on the checkpoint of the leaves on disk |
| LogSyncMeaning.LeavesBehind | internal/logsync/adapter.go:85-123 | The leaves stay; every cosigned note that was there stays, the first of its size; one is added, for the size on disk, exactly when attested; and the lock is on what was sent |
| HonestSync.RequestIs | internal/logsync/logsync.go:109-189 | The request built for what the witness remembers carries the consistency proof from that size, and never more than the 63 lines of the wire format |
| HonestSync.ExtensionExact | internal/witness/witness.go:344-397 | The witness accepts the log's request exactly when its remembered root is the root of the log's prefix of that size, or a collision is exhibited |
| HonestSync.HonestSyncExact | internal/logsync/logsync.go:109-189 | With an honest, reachable witness that remembers (m, r): attested exactly when m is at most n and r is the root of the first m leaves, a rollback error exactly when m exceeds n, a plain error otherwise, up to collisions |
| ReplayedSync.ReplayExact | internal/logsync/logsync.go:148-163 | With a replayed note of the witness of size k, or none, and an honest witness that remembers another size m: the rollback of k is reported if k is more than there is on disk, the rollback of m if m is, a plain error otherwise, and success never |
| HonestSync.CosignedOpensExactly | internal/witness/witness.go:304-340 | The note that answers a request, and is then remembered, opens under the witness's key exactly when the request has fewer than a hundred different lines besides the witness's own, the log's counting as one |
| HonestSync.HundredLinesAreLost | internal/witness/witness.go:304-340 | A first request with a hundred well-formed lines, one of them the log's, is cosigned, and what is then remembered cannot be opened |
| HonestSync.MemoryOpensExactly | internal/witness/client.go:89-109 | Over any run, every note the witness remembers opens under its key exactly when it has at most a hundred lines |
| HonestSync.MemoryAlwaysSound | internal/witness/witness.go:304-340 | Over any run without requests of a hundred lines, what the witness remembers is a note of its own that a client can open |
| SystemRun.AttestedWasCosigned | internal/logsync/logsync.go:197-211 | A successful synchronisation holds a cosignature the witness made, and had persisted, for this origin, size and root |
| SystemRun.AttestedLedgerIsOnTheChain | internal/logsync/logsync.go:109-211 | In every run, whatever the network replays and whatever is done to the local files, the attested leaves have as prefixes the leaves of everything cosigned before that instant and are a prefix of those cosigned after it, or a collision is exhibited |
| Utf8.CoercedIsValid | internal/jcs/jcs.go:42 | What encoding/json makes of any string is valid UTF-8 |
| Utf8.ValidIsKept | internal/jcs/jcs.go:42 | Valid UTF-8 passes encoding/json unchanged |
| Jcs.EncodeString | internal/jcs/jcs.go:128-159 | Code point by code point, the buffer ends as the quoted escaped string, exactly for valid UTF-8 |
| Jcs.Encode | internal/jcs/jcs.go:62-111 | The loop over the members writes the canonical object, the empty one included, exactly when every string is valid |
| Jcs.BodyUnique | internal/jcs/jcs.go:128-159 | An encoded string ends where it seems to and determines its content, whatever follows it |
| Jcs.ObjectUnique | internal/jcs/jcs.go:62-111 | One text, one list of members, of any length |
| JcsOrder.LessUtf16 | internal/jcs/jcs.go:116-125 | The loop decides by the first UTF-16 code unit in which the names differ, or by which ends first |
| JcsOrder.UnitsUnique | internal/jcs/jcs.go:116-118 | Valid names with the same code units are the same name |
| JcsOrder.LessIsTotal | internal/jcs/jcs.go:116-125 | Two valid names are in order one way exactly when they differ, and never both ways |
| JcsOrder.OneOrder | internal/jcs/jcs.go:92 | A set of names has one sorted order, so the text of an object does not depend on how the sort goes about it |
| JcsSearch.QuotesAreEscaped | internal/store/integrity.go:686-694 | A quote inside an encoded string always follows a backslash |
| JcsSearch.MatchIffMember | internal/store/integrity.go:686-694 | The quoted name, colon and quote occur in the encoded members exactly where a member of that name with a string value starts |
| JcsSearch.HexMemberExact | internal/store/integrity.go:696-715 | The search gives a member's value exactly when it is 64 lower-case hexadecimal digits, whatever the other members hold |
| Hex.EncodeOfDecode | internal/store/checkpoints.go:98-104 | Only lower-case text comes back from what it decodes to |
| Blocks.CanonicalExact | internal/ledger/block.go:159-165 | Two headers have the same canonical bytes exactly when they agree after the replacement of invalid UTF-8 |
| Blocks.CanonicalInjective | internal/ledger/block.go:159-165 | Well-encoded headers with the same canonical bytes are the same header |
| Blocks.InvalidTextIsLost | internal/ledger/block.go:104-137 | From any valid header, two different valid headers with the same canonical bytes |
| Blocks.MembersAreSorted | internal/jcs/jcs.go:92 | The order in which the header's members are written is that of lessUTF16 |
| Blocks.SignerOfExact | internal/store/integrity.go:696-715 | On the canonical bytes of any header the search reads signer_pubkey itself, and reads it exactly when it is 64 lower-case hexadecimal digits |
| Blocks.SealVerifies | internal/ledger/block.go:180-209 | Every block Seal issues, Verify accepts, with the same header |
| Blocks.NewHeaderLinks | internal/ledger/block.go:72-101 | The next header links to the verified block it was made from exactly when the clock did not go back, and never fails in another way |
| Blocks.LeafDataInjective | internal/ledger/block.go:358-385 | A leaf determines the hash and the signature it holds |
| BlockMeaning.ValidateExact | internal/ledger/block.go:104-137 | A header is valid exactly when its index is safe, its digests and its key are 64 hexadecimal digits, tenant and type are not blank, the tenant has no control characters, exactly block 0 points at genesis, and its time is a UTC time |
| BlockMeaning.VerifyExact | internal/ledger/block.go:212-240 | A block verifies exactly when its header is valid, its hash is that of the canonical header, and its 64-byte signature verifies over that hash under the header's own 32-byte signer; and which failure gives which error |
| BlockMeaning.LinkExact | internal/ledger/block.go:243-265 | A block follows another exactly when its index is the next, it points at its hash, and neither time is unreadable or goes back |
| BlockMeaning.NewHeaderExact | internal/ledger/block.go:72-101 | A header is made exactly when the key has its size and the result is valid; and what every field of it holds |
| BlockMeaning.SealExact | internal/ledger/block.go:180-209 | A block is issued exactly for a valid header without a fraction of a second whose signer is the key's; and it is that header, its hash and the signature over it |
| Encodings.HeaderLayout | internal/ledger/block.go:159-165 | The bytes that are hashed, signed and stored for a header, member by member in their order, each field under its own name |
| Encodings.HexAt | internal/ledger/block.go:310-313 | Each byte is two lower-case hexadecimal digits, the high one first |
| Encodings.Escapes | internal/jcs/jcs.go:128-159 | Each character of a string is escaped as RFC 8785, section 3.2.2.2, says, and no other is |
| Encodings.SurrogatesSortLow | internal/jcs/jcs.go:113-126 | A name beyond U+FFFF comes before U+E000: the order is of UTF-16 code units, not of code points |
| Blocks.VerifyChainMeaning | internal/ledger/block.go:270-295 | VerifyChain accepts exactly the non-empty chains from index 0 in which every block verifies, links to the one before and has the expected signer; what verifying and linking are is BlockMeaning.VerifyExact and LinkExact |
| Blocks.IndexIsPosition | internal/ledger/block.go:243-265 | In a chain every block's index is its position |
| Blocks.SameLastSameChain | internal/ledger/block.go:270-295 | Two accepted chains with the same last hash have the same length, hashes and headers throughout, or the hash collided on two of their headers |
| Blocks.SameHeadersExactly | internal/ledger/block.go:270-295 | With well-encoded fields the headers of those chains are identical |
| Blocks.VerifyCoerced | internal/store/blocks.go:155-166 | A verified block still verifies after its header has been stored and decoded again |
| Store.Store.AppendRecord | internal/store/record.go:44-106 | All the tables change together as the specification says, or nothing changes, whether the record is refused or the driver fails; SignedRows.AppendNeedsSignature says what is asked of the block |
| StoreRun.AppendKeeps | internal/store/record.go:44-125 | One accepted record keeps the ledger a chain of canonical rows in place, and keeps every earlier row |
| StoreRun.AppendExact | internal/store/record.go:44-125 | On a sound ledger a record is accepted exactly when its block is good and follows the last one, as SignedRows.FitsExact says, and its blob, if any, is good, as SignedRows.BlobExact says, and new; only a collision can refuse it otherwise |
| StoreRun.AppendEffects | internal/store/record.go:71-105 | An accepted record adds its row and blob, removes what it erases, applies its deletions before its entries, and touches nothing else |
| StoreRun.RunsAreChains | internal/store/record.go:44-125 | From an empty store any sequence of calls, rejected and failed ones included, leaves rows whose idx is their position and their header's index, and whose decoded blocks VerifyChain accepts |
| SignedRows.AppendNeedsSignature | internal/store/record.go:44-125 | A record is accepted only with a block whose header is valid, whose hash is that of its canonical header and whose signature verifies over it under the header's signer |
| SignedRows.FitsExact | internal/store/record.go:44-125 | What AppendExact asks of the next block of a sound ledger, written out: a valid header, its hash, the signature of its signer over it, the next index, the last hash, and a time that does not go back |
| SignedRows.BlobExact | internal/store/blobs.go:51-62 | What it asks of a blob: a hash of 64 hexadecimal digits, and no other field empty |
| SignedRows.RunsAreSigned | internal/store/record.go:44-125 | Every row that any sequence of calls leaves has the hash of its stored header, and a signature that verifies over that hash under the signer the header names |
| SignedRows.ChainIsSigned | internal/ledger/block.go:270-295 | Every block of a chain that VerifyChain accepts is signed, by its own signer and by the expected one |
| Integrity.Walk | internal/store/integrity.go:547-673 | The loop over leaves, prev, i and signer gives the specified leaves and signer or the specified fault |
| Integrity.WalkMeaning | internal/store/integrity.go:547-673 | walk accepts exactly the tables whose rows are all in place, bound to their hash and of one signer, and whose blocks above the checkpoint verify, as BlockMeaning.VerifyExact says, and link; its leaves and signer do not depend on the checkpoint |
| SignedRows.RowLeafExact | internal/store/integrity.go:577-623 | Every row of an accepted table, below the checkpoint too, stands at its index with the hash of its stored header, a 64-byte signature and a readable signer; its leaf is the raw hash and signature |
| SignedRows.WalkIsSigned | internal/store/integrity.go:577-666 | Every row that a full walk passes, and every row at or above the checkpoint in a fast one, is signed over its stored bytes under its header's signer, which is the signer reported, or two headers collide |
| Integrity.FastOpenRefinesFull | internal/store/integrity.go:547-673 | If the attested root is the root of some table that passed the full walk, the fast opening and the full one accept the same tables with the same leaves and signer, or a collision is exhibited |
| Integrity.VerdictIgnoresCase | internal/store/integrity.go:597-613 | Rows with the same header and the same raw signature get the same verdict, whatever the case of the signature's digits |
| Opening.VerifyLedger | internal/store/integrity.go:314-397 | The whole opening, in either mode, is its specification, of which OpeningMeaning.OpensExactly says when it succeeds and OpenedReports what it then says |
| OpeningMeaning.AttestedExact | internal/store/integrity.go:735-761 | A note is taken as the attested checkpoint exactly when it is the last cosigned one, signed by this log, and promises no more than there is; there is none exactly when no note is cosigned |
| OpeningMeaning.BeforeExact | internal/store/integrity.go:246-272 | What is asked before the table is read: at least one of the policy's witnesses, with keys of their own, and the identity the policy asserts declared by the ledger |
| OpeningMeaning.OpensExactly | internal/store/integrity.go:314-397 | A ledger opens exactly when policy and declared identity admit it, the attested checkpoint is good, every row is, and the last and the attested checkpoint promise the roots of the rows |
| OpeningMeaning.OpenedReports | internal/store/integrity.go:370-397 | What an opened result says: its size and signer, and of the last cosigned note its size; verified exactly when the opener's policy accepts that note, naming exactly the witnesses who signed it, a quorum at least, and the earliest of their instants |
| OpeningMeaning.AttestedIsGreatest | internal/store/checkpoints.go:106-134 | With the checkpoints in order of size, no cosigned checkpoint in the file is larger than the one an opened result reports |
| Opening.FastIsFull | internal/store/integrity.go:306-397 | VerifyIntegrity and VerifyFull open the same ledgers with the same result, policy and checkpoints included, if the attested root is the root of a table that passed the full walk, or a collision is exhibited |
| Opening.VerifiedIsAttested | internal/store/integrity.go:314-397 | An opening that says verified found a stored checkpoint that the opener's policy accepts, with the log's identity the policy asserts, the root of the leaves rebuilt from the rows, and the expected signer |
| OpeningAppended.AppendedLedgerOpens | internal/store/integrity.go:547-673 | A ledger left by AppendRecord under one signer passes the full walk, and the leaves it rebuilds are the blocks' leaf data |
| OpeningAppended.AppendedOpensExactly | internal/store/integrity.go:547-673 | A ledger left by AppendRecord, whatever its signers, passes the full walk exactly when it is empty or all its blocks have one signer in lower case, the one expected if any is |
| OpeningAppended.AppendedFastIsFull | internal/store/integrity.go:306-397 | On a ledger left by AppendRecord both modes open with the same result or not at all, whatever its checkpoints say |
| OpeningAppended.AppendedIsGrounded | internal/store/integrity.go:306-397 | A checkpoint over the leaf data of the first blocks of a ledger left by AppendRecord has the root of a table that passed the full walk |
| OpeningAppended.CheckpointOfAppended | internal/store/integrity.go:306-397 | Any file whose attested checkpoint was made over a prefix of a ledger left by AppendRecord opens with the same result in both modes or not at all, or a collision is exhibited |
| OpeningAppended.RunOpensExactly | internal/store/integrity.go:547-673 | After any sequence of AppendRecord calls from an empty store, rejected and failed ones included, the table passes the full walk exactly when it is empty or of one signer in lower case, the one expected if any is |
| OpeningAppended.RunOpensAlike | internal/store/integrity.go:306-397 | After any such sequence both modes open the ledger with the same result or not at all, whatever the checkpoints and the policy |
| OpeningAppended.CheckpointOfRun | internal/store/integrity.go:306-397 | Whatever became of the file, an attested checkpoint made over a prefix of what such a sequence left makes both modes open it alike, or a collision is exhibited |
| ProofNote.LookupKnown | internal/proof/proof.go:198-215 | Which key a line belongs to does not depend on the order in which the map gives the witnesses |
| ProofNote.ScanMeaning | internal/proof/proof.go:231-261 | The loop refuses exactly when a line of a known key fails, counts each witness once, and sees the log's signature if there is one |
| ProofNote.VerdictExact | internal/proof/proof.go:190-279 | VerifyNote accepts exactly when the policy is usable, the log signed, no line of a known key fails or is ambiguous, the origin is right and a quorum of distinct witnesses signed |
| ProofNote.VerifyNote | internal/proof/proof.go:190-279 | The loop gives the specified verdict, witnesses and time |
| ProofNoteMeaning.PolicyExact | internal/proof/proof.go:408-431 | A policy is refused exactly when its origin, its log key, its quorum or a witness's key is wrong, or two witnesses share a key |
| ProofNoteMeaning.QuorumOfKeys | internal/proof/proof.go:224-270 | An accepted note was signed over its own text by at least a quorum of different keys of the policy's witnesses, so one key under two names counts once |
| ProofNoteMeaning.LogKeySigned | internal/proof/proof.go:190-253 | An accepted note is a checkpoint of the policy's log with a line of the log's key over its own text, and is reported as it reads |
| ProofNoteMeaning.AsideExact | internal/proof/proof.go:262-306 | Of an accepted note, a line of an unknown key is named among the log's extra signatures exactly when it has the log's name and the size of an ML-DSA-44 signature, and among the ignored ones otherwise |
| ProofNote.KnownLinesDecide | internal/proof/proof.go:224-261 | Verdict, witness set and provable time do not change under reordering, repeating or adding lines of unknown keys within the hundred lines |
| ProofNote.EarliestExact | internal/proof/proof.go:258-260 | The time computed is the minimum in every order of the lines exactly when the zero instant is not the earliest of times among which there is a later one |
| ProofNoteOrder.ZeroInstantIsOneStamp | internal/witness/cosignature.go:181-186 | Of all 64-bit timestamps exactly one becomes the zero instant |
| ProofNoteOrder.AmbivalentReorders | internal/proof/proof.go:224-261 | An accepted note that does not meet that condition has the same lines in another order, accepted too, with another provable time |
| ProofNoteOrder.TimeByOrderExact | internal/proof/proof.go:224-261 | The provable time of an accepted note is the same in every order of its lines exactly when that condition is met |
| ProofNoteOrder.OneNoteTwoTimes | internal/proof/proof.go:224-261 | A log's checkpoint with two cosignatures of one witness, accepted with two provable times |
| ProofNote.NoWrapNoAmbivalence | internal/witness/cosignature.go:181-186 | Timestamps below 2^63 always meet that condition |
| Base64.DecodeStrictExact | internal/proof/proof.go:159-162 | A text decodes to a value exactly when, carriage returns and line feeds apart, it is that value's encoding |
| Receipts.FormatExact | internal/proof/proof.go:105-178 | Format writes exactly the texts that Parse reads and that have no carriage return before the note: read back as written, and written back as read |
| Receipts.ReturnIsLost | internal/proof/proof.go:150-165 | A receipt with a node has another text, with a carriage return in it, that Parse reads as the same receipt |
| Receipts.ParseReceipt | internal/proof/proof.go:131-178 | The loop over the node lines reads what the specification reads |
| Receipts.ReceiptExact | internal/proof/proof.go:372-403 | Under an accepted checkpoint of a list, a receipt is valid exactly for the leaf at its index with the generated proof, or a collision is exhibited |
| ReceiptRun.NoteWasPersisted | internal/proof/proof.go:190-279 | Over any run of a witness, an accepted note that names it has the text of a note it persisted for the policy's origin |
| ReceiptRun.ReceiptIsOnTheChain | internal/proof/proof.go:372-403 | Over any run of a witness that a valid receipt names, the leaf is at the receipt's index in every list with a root cosigned then or later, with the generated proof, or a collision is exhibited |
| ReceiptBlock.LeafNamesBlock | internal/ledger/block.go:358-385 | Two verified blocks with the same leaf data have the same hash, header and raw signature, or their canonical headers collide |
| ReceiptBlock.ReceiptNamesBlock | internal/proof/proof.go:372-403 | A valid receipt for a block fixes the hash, header and raw signature of the block at its index in every ledger built by AppendRecord whose root the named witness cosigned then or later, or a collision is exhibited |
| Erasure.EventHashInjective | internal/erasure/erasure.go:43-58 | One event hash stands for one content, or the hash collided on two event payloads |
| Erasure.AuthorizationTextInjective | internal/erasure/autorizacion.go:41-55 | An authorisation is about one log, one content and one limit, even for origins with line feeds in them |
| Erasure.ParseCIDExact | internal/erasure/autorizacion.go:72-87 | A payload_cid parses exactly when it is the one spelling of its limit and signature |
| Erasure.AuthorizeVerifies | internal/erasure/autorizacion.go:60-109 | The holder of the erasure key can issue an authorisation for every payload hash, named log and safe index, and no others; and it is accepted, up to the limit it says |
| Erasure.CheckExact | internal/erasure/autorizacion.go:122-141 | An event is authorised up to a limit exactly when it is an erasure event for that content, sealed after what it covers, carrying the erasure key's signature over log, content and limit |
| Reconcile.SortFindings | internal/reconcile/reconcile.go:359-365 | The insertion sort in place leaves the array as the sorted list of what it held |
| Reconcile.SortedIsSorted | internal/reconcile/reconcile.go:359-372 | That list is in order by index and status, and holds the same findings |
| Reconcile.ClassifyEvents | internal/reconcile/reconcile.go:303-342 | The loop over both maps gives the specified events and findings |
| Reconcile.Reconcile | internal/reconcile/reconcile.go:176-289 | The whole pass returns the specified report, or nothing when the source fails |
| ReconcileMeaning.ClassifyMeans | internal/reconcile/reconcile.go:303-342 | The maps hold exactly the events authorised for a content sealed before them, and there is one finding for each other event, or two contents have colliding event payloads |
| ReconcileMeaning.CoverMeans | internal/reconcile/reconcile.go:348-355 | The event found for a block is the first event of the ledger authorised for its content with a limit at or beyond its index, and none is found exactly when there is none |
| ReconcileMeaning.CoverIsLater | internal/reconcile/reconcile.go:344-347 | An event that covers a block comes after it |
| ReconcileMeaning.ReportMeans | internal/reconcile/reconcile.go:176-289 | The report equals its meaning without maps: altered and extra records, erased or missing contents, unauthorised events, in order, or a collision between event payloads |
| FindingsMeaning.FindingExact | internal/reconcile/reconcile.go:204-276 | The findings of a report are exactly these, field by field: a live record whose hash differs from the one sealed, with both; one that no block stands for; a content that is gone; an event that is not authorised; or two event payloads collide |
| FindingsMeaning.ErasedExact | internal/reconcile/reconcile.go:248-265 | The erasures of a report are exactly those of the contents that are gone, each by the first event authorised for it that reaches it, with the index and the time of both |
| FindingsMeaning.OrderExact | internal/reconcile/reconcile.go:359-372 | The findings are in order of index, and at one index in that of the names of their kinds |
| ReconcileMeaning.Conservation | internal/reconcile/reconcile.go:204-275 | Checked is verified plus altered plus extra; unseen contents are missing plus erased; one finding for each unauthorised event; findings in order |
| Vault.WrapUnwrap | internal/vault/keys.go:162-194 | A wrapped DEK opens exactly under its key for its vault |
| Vault.MetaStore.ReplaceMeta | internal/store/blobs.go:141-180 | All the updates are made, exactly when every expected row still has its value and the driver does not fail; otherwise nothing changes |
| Vault.PrepareRekey | internal/vault/rekey.go:42-117 | The change prepared is the specified one, and nothing is written |
| Vault.PreparedRekey.Commit | internal/vault/rekey.go:130-132 | The prepared rows are stored exactly if what was read is still there |
| Vault.PrepareExact | internal/vault/rekey.go:42-117 | A change is prepared exactly when there is a new passphrase, the old key opens this vault's DEK and the stored parameters derive a key of the right size |
| Vault.RekeyOpens | internal/vault/rekey.go:42-132 | Prepared and committed undisturbed, the new passphrase opens the vault with the DEK the old key opened |
| Vault.CreateWithProfile | internal/vault/keys.go:232-276 | A creation succeeds exactly with an identifier, a passphrase, a known profile, a long enough salt and keys of the right size, if nothing stops its three writes; each row is as it was or as it should be at every point, and success leaves a vault its passphrase opens |
| VaultRun.CommitKeeps | internal/vault/rekey.go:130-132 | A commit takes effect only on the rows it expected and leaves a salt and a wrapped DEK that belong together, for reads torn between other commits |
| VaultRun.AlwaysOpens | internal/vault/rekey.go:42-132 | After any interleaving with crashes the last committed passphrase opens the vault with the original DEK, any other only if it derives the same key, and no two commits expected the same rows |
| Estricto.Reader.TakeSpaces | internal/estricto/estricto.go:94-103 | The cursor stops at the first byte that is not whitespace, in bounds |
| Estricto.Reader.TakeHex4 | internal/estricto/estricto.go:249-259 | Four hexadecimal digits are read and passed, or nothing |
| Estricto.Reader.TakeString | internal/estricto/estricto.go:181-247 | The decoded string and the rest of the text are those of the grammar, surrogate pairs included |
| Estricto.Reader.TakeNumber | internal/estricto/estricto.go:262-296 | The literal and the rest of the text are those of the grammar |
| Estricto.Reader.TakeValue | internal/estricto/estricto.go:159-176 | The value and the rest of the text are those of the grammar; it always terminates |
| Estricto.Reader.TakeObject | internal/estricto/estricto.go:107-157 | The members and the rest of the text are those of the grammar, with the depth limit and the names already seen |
| Estricto.ReadDocument | internal/estricto/estricto.go:43-67 | The document read is that of the grammar, on every input |
| EstrictoStrings.BodyExact | internal/estricto/estricto.go:181-247 | A string is read exactly when it is some spelling of RFC 8259 section 7 closed by a quote, with its surrogates paired, and as what that spelling says |
| EstrictoStrings.Utf8OfScalar | internal/estricto/estricto.go:220-242 | The bytes appended for a code point are its one valid UTF-8 form |
| EstrictoPrint.EncodedIsASpelling | internal/jcs/jcs.go:128-159 | What encodeString writes is one of those spellings, and says the string |
| EstrictoPrint.ReadsBody | internal/jcs/jcs.go:128-159 | What encodeString writes, the strict reader reads back, for every string |
| EstrictoPrint.ReadsNumber | internal/estricto/estricto.go:262-296 | Every number of RFC 8259 section 6 is read whole |
| EstrictoPrint.NumberTaken | internal/estricto/estricto.go:262-296 | Only numbers of that grammar are read |
| EstrictoPrint.DocumentOfPrint | internal/estricto/estricto.go:43-296 | Any printing of a member tree, with any escapes in its strings and any whitespace between the tokens, is read back as that tree |
| EstrictoPrint.DocumentExact | internal/estricto/estricto.go:43-296 | A document is accepted exactly when it is within the size, valid UTF-8, and a printing of a member tree with distinct names at each level within the depth, and it is read as that tree |
| EstrictoPrint.AcceptedIsSound | internal/estricto/estricto.go:43-157 | Every accepted document is within size and depth, valid UTF-8, with distinct decoded names at every level and numbers of the grammar |
| ClaveAcceso.DigitoVerificador | profiles/ecuador/clave.go:130-148 | The loop over suma and peso gives, for any byte string, the digit that DigitOf says for the weighted sum |
| ClaveAcceso.DigitOf | profiles/ecuador/clave.go:140-147 | The digit is at most 9 and brings the sum to a multiple of 11, or is 1 where that would take a ten |
| ClaveAcceso.OneDigit | profiles/ecuador/clave.go:140-147 | No other digit does that |
| ClaveAcceso.Weights | profiles/ecuador/clave.go:130-139 | From the right, the weights are 2 to 7 over and over |
| ClaveAcceso.ReadKeyAddsUp | profiles/ecuador/clave.go:81-117 | In a key that is read, the weighted sum of the first 48 digits and the last digit come to a multiple of 11, but for that one case |
| ClaveAcceso.SubstitutionExact | profiles/ecuador/clave.go:130-148 | One digit written wrong goes unnoticed exactly when the sums before and after have residues 1 and 10, for bases of any length |
| ClaveAcceso.TranspositionExact | profiles/ecuador/clave.go:130-148 | Two neighbouring unequal digits exchanged go unnoticed exactly in the same case |
| ClaveAcceso.ParseExact | profiles/ecuador/clave.go:81-117 | A key parses exactly when it is the printing of well-formed fields with their check digit, which OneDigit makes the only one that ReadKeyAddsUp allows |
| ClaveAcceso.LastDays | profiles/ecuador/clave.go:98-106 | The dates of a key are those of the Gregorian calendar |
| ClaveAcceso.WrongDigitCaught | profiles/ecuador/clave.go:81-117 | A good key with one wrong digit is refused for its check digit, with exactly that exception |

## Left out

- SQLite, its SQL text, WAL and errors: a table is a sequence or a map, and a transaction a step that commits or leaves everything as it was.
- HTTP: routes, status codes and the 64 KiB a request may have (a hundred lines stay within it for names of a few hundred bytes); a network is a function from requests to answers.
- The cryptography itself: SHA-256, Ed25519, ML-DSA, Argon2id, XChaCha20-Poly1305, SLIP-0039 and HMAC are parameters or ideal.
- The split of a note's bytes into text and signature lines, done by golang.org/x/mod, and base64 inside those lines: a note is its text and its list of lines.
- Error texts: where the source distinguishes errors by kind the model does, but not the wording, and the strict reader has one refusal.
- Canonical JSON of anything but flat objects of strings and natural numbers up to 2^53-1; floating point does not occur in headers.
- BlocksWithPayload and BlocksOfType: they rest on SQLite's LIKE, in which the underscore of `payload_hash` is a wildcard, against what the comment in record.go says.
- `checkpoint.Log.AddSigner` and the ML-DSA lines it adds: they only add lines of a key the policies here do not know.
- Several live Log objects on one store, and several processes in one Seal: one attempt is atomic.
- The evidence of recent contact (`ultimoContacto`): it adds fields to a result that is already decided.
- Whether walk implies VerifyChain on an arbitrary table: walk compares the position with the column idx, not with the header's index, so the chain is proved from AppendRecord.
- Blocks.SealVerifies: the clock and time.Parse are a parameter, asked only to accept ASCII texts.
- VaultRun.AlwaysOpens: that salts are never drawn twice is the condition on the run; the two rows are written by nobody else.
- PutBlob, DeleteBlob, PutMeta outside creation, Reserved, ValidarRUC, AsciiIgual, HexClave: single checks or single writes.
- The command line, prose, prompts, file permissions and the JavaScript and PHP verifiers.
