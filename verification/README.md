# BlockchainMini ledger core in Dafny

BlockchainMini is a small proof-of-work ledger written in Swift. A `Block` holds an index,
a timestamp, a text payload, the hash of its predecessor, a nonce and its own hash. The hash
is the lowercase hex rendering of SHA-256 over the UTF-8 bytes of the five fields rendered
and concatenated. Mining increments the nonce until the hash starts with `difficulty` zero
digits. A `Blockchain` starts with a genesis block, appends mined blocks that link to the
latest one, and validates itself by checking every adjacent pair for linkage, hash integrity
and the difficulty prefix.

The model is organised in these modules:

- `Wrappers` and `Bytes` (base.dfy): `Option` and the byte type.
- `Decimal` (decimal.dfy): the rendering of an `Int` in string interpolation, with a parser
  that reads it back.
- `Utf8` (utf8.dfy): UTF-8 encoding of a string, following section 3 of RFC 3629, with a
  strict decoder.
- `Hex` (hex.dfy): the `%02x` rendering of a digest, with a decoder.
- `Blocks` (blocks.dfy): the hash input, `computeHash`, the mining search, block construction
  and the genesis factory.
- `Blockchains` (blockchain.dfy): creation, `latest`, `addBlock`, the validator, and
  properties of every chain built by creation followed by appends.

Some choices follow the code where a conventional reading would differ:

- Swift's `Int` is 64 bits and `nonce += 1` is checked arithmetic. So mining does not run
  forever: it either finds a nonce or traps once the nonce is `Int.max`. Every operation that
  mines returns `Outcome`, which is either `Ok(value)` or `Overflow`. One might expect
  construction always to succeed; the model follows the code and characterises exactly
  when the trap happens: no nonce from 0 to `Int.max` meets the difficulty.
- `addBlock` gives the new block the index of the latest block rather than that index plus
  one. The model reproduces this. `RunIndicesStayZero` shows the consequence: every block
  of a chain built by creation and appends has index 0.
- `Block.genesis` has its own default difficulty of 2. `Blockchain.init` always passes its own
  difficulty, so that default is never used by the chain. Both defaults are kept
  (`GenesisDefaultDifficulty`, `DefaultDifficulty`).
- The validator treats an empty chain and a one-block chain as valid. It never checks the
  genesis block itself (`GenesisIsNotChecked`).
- SHA-256 and the rendering of a `TimeInterval` are foreign code. They are the two function
  fields of a `Primitives` value that every operation receives. No property of them is
  assumed, except where a lemma states one as a hypothesis: digests are 32 bytes long
  (`DigestIs32Bytes`), or the digest does not collide on two particular inputs
  (`CollisionFree`).
- `addBlock` reads `latest()` at once but appends the mined block later, on the main queue.
  The model splits it into `MinePending` and `Publish`. `AddBlock`, and every chain property
  built on it, is the serialized case where each publish lands before the next call reads
  `latest()`. `StalePublishBreaksLinkage` covers the other case (see "## Findings").

## Model

| member | source | states |
|---|---|---|
| Decimal.Show | BlockchainMini/ContentView.swift:64 | `"\(i)"` of an `Int` is non-empty and starts with '-' exactly when the integer is negative |
| Decimal.ParseShow | BlockchainMini/ContentView.swift:64 | parsing the decimal rendering of any integer gives that integer back |
| Decimal.ShowParse | BlockchainMini/ContentView.swift:64 | every string the parser accepts is exactly the rendering of the integer it returns |
| Decimal.ShowInjective | BlockchainMini/ContentView.swift:64 | distinct integers render as distinct strings |
| Utf8.Encode | BlockchainMini/ContentView.swift:65 | `payload.utf8` takes between one and four bytes per character |
| Utf8.DecodeEncode | BlockchainMini/ContentView.swift:65 | strict UTF-8 decoding of the encoding of any string gives the string back |
| Utf8.EncodeInjective | BlockchainMini/ContentView.swift:65 | distinct strings have distinct UTF-8 encodings |
| Hex.ByteToHex | BlockchainMini/ContentView.swift:66 | `%02x` of a byte is two lowercase hex digits, high nibble first, whose value is the byte |
| Hex.EncodeJoinsBytes | BlockchainMini/ContentView.swift:66 | the digest rendering is all lowercase hex and is the per-byte renderings joined in order |
| Hex.DecodeEncode | BlockchainMini/ContentView.swift:66 | decoding the hex rendering of any byte string gives the bytes back |
| Hex.EncodeInjective | BlockchainMini/ContentView.swift:66 | distinct digests render as distinct hex strings |
| Blocks.ComputeHashRendersDigest | BlockchainMini/ContentView.swift:63-67 | the hash is lowercase hex with two characters per digest byte, 64 for a 32-byte digest, and decodes to exactly the SHA-256 digest of the UTF-8 bytes of index, timestamp, data, previousHash and nonce concatenated in that order |
| Blocks.Search | BlockchainMini/ContentView.swift:69-75 | a block whose hash already meets the prefix is kept; otherwise the result differs only in nonce and hash, has a larger nonce whose recomputed hash meets the prefix, and every nonce skipped in between fails; a trap means every larger nonce fails |
| Blocks.Mine | BlockchainMini/ContentView.swift:69-75 | the loop computes the search result: on success the hash has `difficulty` leading '0's and only nonce and hash changed |
| Blocks.NewBlock | BlockchainMini/ContentView.swift:52-61 | the built block keeps index, clock reading, data and previousHash; its hash is the recomputed hash of its fields and meets the prefix; its nonce is the least non-negative nonce that meets it; with difficulty 0 the nonce is 0; it traps exactly when no non-negative nonce meets the prefix |
| Blocks.Genesis | BlockchainMini/ContentView.swift:77-79 | the genesis block has index 0, data "Genesis" and previousHash "0", a consistent hash meeting the difficulty, and traps exactly when no nonce works |
| Blocks.DifficultyBeyondDigestTraps | BlockchainMini/ContentView.swift:63-75 | with 32-byte digests a difficulty above 64 can never be met, so block construction always traps |
| Blocks.DataChangesHashInput | BlockchainMini/ContentView.swift:64 | changing only the payload changes the hash input |
| Blocks.PreviousHashChangesHashInput | BlockchainMini/ContentView.swift:64 | changing only the predecessor link changes the hash input |
| Blocks.NonceChangesHashInput | BlockchainMini/ContentView.swift:64 | changing only the nonce changes the hash input |
| Blocks.RecomputedDiffers | BlockchainMini/ContentView.swift:63-67 | two blocks with distinct hash inputs have distinct computed hashes, unless SHA-256 collides on those two inputs |
| Blockchains.Create | BlockchainMini/ContentView.swift:86-89 | a new chain holds exactly one genesis block mined at the chain's own difficulty and keeps that difficulty; it traps exactly when the genesis block cannot be mined |
| Blockchains.MinePending | BlockchainMini/ContentView.swift:97-98 | the pending block links to the latest block's hash, copies its index, holds the given data and clock reading, and carries a consistent hash that meets the chain's difficulty |
| Blockchains.Publish | BlockchainMini/ContentView.swift:99-101 | publishing appends exactly the given block and leaves earlier blocks and the difficulty unchanged |
| Blockchains.StalePublishBreaksLinkage | BlockchainMini/ContentView.swift:96-101 | two calls that read `latest()` before either publish give blocks with the same previousHash; once both are published the chain is valid only if the first new block's hash equals the old latest hash |
| Blockchains.AddBlock | BlockchainMini/ContentView.swift:96-101 | the chain grows by one and earlier blocks are unchanged; the new block links to the latest block's hash, copies its index, holds the given data and clock reading, and is mined; it traps exactly when no nonce works |
| Blockchains.AppendMovesLatest | BlockchainMini/ContentView.swift:91-101 | after an append, `latest()` is the new block, linked to the previous latest block |
| Blockchains.IsValid | BlockchainMini/ContentView.swift:104-127 | the scan returns true exactly when every adjacent pair passes linkage, integrity and difficulty, and always for chains of length 0 or 1 |
| Blockchains.InvalidIffSomeCheckFails | BlockchainMini/ContentView.swift:104-127 | a chain is invalid exactly when some block after the first fails linkage, integrity or the difficulty prefix |
| Blockchains.AddBlockPreservesValid | BlockchainMini/ContentView.swift:96-127 | appending to a valid chain gives a valid chain |
| Blockchains.Run | BlockchainMini/ContentView.swift:86-102 | a chain built by creation and n appends has n + 1 blocks, so it is never empty and `latest()` never traps |
| Blockchains.RunIsValid | BlockchainMini/ContentView.swift:86-127 | every chain built by creation and serialized appends is valid and keeps its difficulty |
| Blockchains.RunStartsWithGenesis | BlockchainMini/ContentView.swift:77-89 | every chain built by creation and appends starts with its genesis block |
| Blockchains.RunIndicesStayZero | BlockchainMini/ContentView.swift:96-98 | since appends copy the index, every block of a built chain has index 0 |
| Blockchains.RunKeepsPayloads | BlockchainMini/ContentView.swift:96-101 | block i of a built chain holds the payload and clock reading of the i-th append |
| Blockchains.GenesisIsNotChecked | BlockchainMini/ContentView.swift:104-127 | the validator never looks at the genesis block beyond its hash: replacing it by any block with the same hash keeps a valid chain valid |
| Blockchains.LinkageBreakIsDetected | BlockchainMini/ContentView.swift:109-111 | changing the previousHash of a non-genesis block to anything else makes the chain invalid |
| Blockchains.DataTamperIsDetected | BlockchainMini/ContentView.swift:112-121 | changing the payload of a non-genesis block without mining again makes a valid chain invalid |
| Blockchains.NonceTamperIsDetected | BlockchainMini/ContentView.swift:112-121 | changing the nonce of a non-genesis block without recomputing its hash makes a valid chain invalid |

## Left out

- `ChainView` and `BlockchainMiniApp` are SwiftUI presentation only. This includes the
  truncated hash display.
- Thread scheduling is not modelled: the `Task.detached` mining and the
  `DispatchQueue.main.async` publish in `addBlock` run as ordinary calls. The deferred
  publish itself is modelled by `MinePending` and `Publish`. `AddBlock` is the synchronous
  append that results once the publish has run.
- SHA-256 is a foreign CryptoKit function. It is a function field of `Primitives` and is
  left uninterpreted.
- The rendering of a `Double` timestamp is a function field of `Primitives`. Floating point
  is not modelled, and the timestamp is a `real`.
- `Date().timeIntervalSince1970` reads the wall clock. The clock reading is a parameter
  (`now`).
- The `id: UUID` field, `Codable`, `@Published` and `ObservableObject` are framework plumbing
  and are not modelled.
- Swift compares `String`s and runs `hasPrefix` on grapheme clusters. The model compares
  Unicode scalar values. For every chain built by creation and appends, the two agree on
  the ASCII hex hashes and the prefix of '0's that these checks involve. On an arbitrary
  `Blockchain` value a hash need not be hex, and there the model's scalar comparison can
  differ from Swift's canonical equivalence.
- A negative difficulty is not modelled. `String(repeating:count:)` traps on a negative
  count, so difficulty is a `nat`.
- Blockchains.Latest: has no contract of its own. It requires a non-empty chain because the
  force-unwrap traps on an empty one. `AppendMovesLatest` and `Run` state its behaviour.
- Blockchains.DataTamperIsDetected: assumes SHA-256 does not collide on the old and new hash
  inputs (`CollisionFree`), because nothing about the uninterpreted digest rules a collision out.
- Blockchains.NonceTamperIsDetected: assumes SHA-256 does not collide on the old and new hash
  inputs (`CollisionFree`), for the same reason.
- Blockchains.RunIsValid: holds only when every `addBlock` publish lands before the next
  `addBlock` reads `latest()`. The source does not enforce this: two calls before the main
  queue drains both link to the same block, and the chain is then invalid
  (`StalePublishBreaksLinkage`).
- Blocks.RecomputedDiffers: holds only under the same no-collision hypothesis.
- Blocks.DifficultyBeyondDigestTraps: assumes digests are 32 bytes long (`DigestIs32Bytes`),
  which FIPS 180-4 guarantees but the uninterpreted function does not.

## Findings

| source | as written | input that shows it | evidently intended | confidence | as-written member | corrected member |
|---|---|---|---|---|---|---|
| BlockchainMini/ContentView.swift:96-101 | `addBlock` reads `latest()` at once but appends the new block later through `DispatchQueue.main.async`, and the mining button at line 15 is never disabled | two `addBlock` calls before the main queue runs, such as a second tap while the first block is mining: both new blocks link to the same latest hash, so the second fails the linkage check | each append links to the block appended just before it, so the chain stays valid | not executed; medium | Blockchains.StalePublishBreaksLinkage | Blockchains.RunIsValid |
