/**
  The `Block` record of the ledger: how its hash is computed from its fields, the
  proof-of-work search over the nonce, block construction and the genesis factory.

  SHA-256 (CryptoKit) and the rendering of a `TimeInterval` in string interpolation
  (Foundation) are foreign code; they are the two fields of a `Primitives` value that every
  operation receives, and nothing is assumed about them. The clock reading taken at
  construction is a parameter.
 */
module Blocks {
  import opened Wrappers
  import opened Bytes
  import Decimal
  import Hex
  import Utf8

  /** Swift's `Int` is 64 bits wide on the platforms the app runs on. */
  const IntMin: int := -0x8000_0000_0000_0000
  const IntMax: int := 0x7FFF_FFFF_FFFF_FFFF
  type Int = i: int | IntMin <= i <= IntMax

  /** The foreign functions: SHA-256 over bytes, and `"\(t)"` for a `TimeInterval` t. */
  datatype Primitives = Primitives(sha256: seq<uint8> -> seq<uint8>, describeTime: real -> string)

  /** SHA-256 digests are 32 bytes long (FIPS 180-4, section 6.2). */
  ghost predicate DigestIs32Bytes(p: Primitives) {
    forall bs: seq<uint8> :: |p.sha256(bs)| == 32
  }

  /** One record of the ledger (the `id: UUID` is not modelled). */
  datatype Block = Block(index: Int, timestamp: real, data: string, previousHash: string, nonce: Int, hash: string)

  /**
    A computation that mines either returns a value or traps: `nonce += 1` is checked
    arithmetic in Swift and stops the program when `nonce` is already `Int.max`.
   */
  datatype Outcome<T> = Ok(value: T) | Overflow

  /** The string that is hashed: the five fields rendered and concatenated, no separators. */
  function HashInput(p: Primitives, index: Int, timestamp: real, data: string, previousHash: string, nonce: Int): string {
    Decimal.Show(index) + p.describeTime(timestamp) + data + previousHash + Decimal.Show(nonce)
  }

  /** `Block.computeHash`: the lowercase hex rendering of SHA-256 of the UTF-8 bytes of the hash input. */
  function ComputeHash(p: Primitives, index: Int, timestamp: real, data: string, previousHash: string, nonce: Int): string {
    Hex.Encode(p.sha256(Utf8.Encode(HashInput(p, index, timestamp, data, previousHash, nonce))))
  }

  /**
    The hash is lowercase hex, two digits per digest byte (64 characters for a 32-byte
    digest), and reads back as exactly the SHA-256 digest of the hash input's UTF-8 bytes.
   */
  lemma ComputeHashRendersDigest(p: Primitives, index: Int, timestamp: real, data: string, previousHash: string, nonce: Int)
    ensures var h := ComputeHash(p, index, timestamp, data, previousHash, nonce);
            var digest := p.sha256(Utf8.Encode(HashInput(p, index, timestamp, data, previousHash, nonce)));
            && Hex.IsLowerHex(h)
            && |h| == 2 * |digest|
            && (DigestIs32Bytes(p) ==> |h| == 64)
            && Hex.Decode(h) == Some(digest)
  {
    var digest := p.sha256(Utf8.Encode(HashInput(p, index, timestamp, data, previousHash, nonce)));
    Hex.DecodeEncode(digest);
    Hex.EncodeJoinsBytes(digest);
  }

  /** The hash of `b`'s stored fields with `nonce` in place of its own nonce. */
  function HashAt(p: Primitives, b: Block, nonce: Int): string {
    ComputeHash(p, b.index, b.timestamp, b.data, b.previousHash, nonce)
  }

  /** The hash recomputed from all of `b`'s stored fields, as the validator does. */
  function Recomputed(p: Primitives, b: Block): string {
    HashAt(p, b, b.nonce)
  }

  /** `String(repeating: "0", count: n)`. */
  function Zeros(n: nat): (s: string)
    ensures |s| == n && forall k :: 0 <= k < n ==> s[k] == '0'
  {
    seq(n, _ => '0')
  }

  /** `s.hasPrefix(prefix)`, compared character by character. */
  predicate HasPrefix(s: string, prefix: string) {
    |prefix| <= |s| && s[..|prefix|] == prefix
  }

  /** The proof-of-work condition: `hash` starts with `difficulty` zero digits. */
  predicate MeetsDifficulty(hash: string, difficulty: nat) {
    HasPrefix(hash, Zeros(difficulty))
  }

  /** The hashes `mine` computes for a block: its fixed fields with each candidate nonce. */
  function Hasher(p: Primitives, b: Block): Int -> string {
    (n: Int) => HashAt(p, b, n)
  }

  /**
    The search `mine` performs, as a function of the step `hashAt` it recomputes with:
    keep the block if its stored hash already meets the difficulty, otherwise move to the
    next nonce and its hash. The result is the first qualifying nonce above the starting
    one, or a trap when none exists up to `Int.max`.
   */
  function Search(hashAt: Int -> string, b: Block, difficulty: nat): (r: Outcome<Block>)
    decreases IntMax - b.nonce
    ensures MeetsDifficulty(b.hash, difficulty) ==> r == Ok(b)
    ensures r.Ok? ==> r.value == b.(nonce := r.value.nonce, hash := r.value.hash)
    ensures r.Ok? ==> MeetsDifficulty(r.value.hash, difficulty)
    ensures r.Ok? ==> r.value == b || (b.nonce < r.value.nonce && r.value.hash == hashAt(r.value.nonce))
    ensures r.Ok? ==> forall n: Int :: b.nonce < n < r.value.nonce ==> !MeetsDifficulty(hashAt(n), difficulty)
    ensures r.Overflow? ==> forall n: Int :: b.nonce < n ==> !MeetsDifficulty(hashAt(n), difficulty)
  {
    if MeetsDifficulty(b.hash, difficulty) then Ok(b)
    else if b.nonce == IntMax then Overflow
    else Search(hashAt, b.(nonce := b.nonce + 1, hash := hashAt(b.nonce + 1)), difficulty)
  }

  /** `Block.mine(difficulty:)`: the loop that increments the nonce until the prefix holds. */
  method Mine(p: Primitives, b: Block, difficulty: nat) returns (r: Outcome<Block>)
    ensures r == Search(Hasher(p, b), b, difficulty)
    ensures r.Ok? ==> MeetsDifficulty(r.value.hash, difficulty)
    ensures r.Ok? ==> r.value == b.(nonce := r.value.nonce, hash := r.value.hash)
  {
    var targetPrefix := Zeros(difficulty);
    var current := b;
    while !HasPrefix(current.hash, targetPrefix)
      invariant current == b.(nonce := current.nonce, hash := current.hash)
      invariant Search(Hasher(p, b), current, difficulty) == Search(Hasher(p, b), b, difficulty)
      decreases IntMax - current.nonce
    {
      if current.nonce == IntMax {
        return Overflow;
      }
      var nonce := current.nonce + 1;
      current := current.(nonce := nonce, hash := HashAt(p, current, nonce));
    }
    return Ok(current);
  }

  /**
    `Block.init`: a block at nonce 0 whose hash is computed from its fields, then mined.
    `now` is the clock reading `Date().timeIntervalSince1970`.
   */
  function NewBlock(p: Primitives, index: Int, data: string, previousHash: string, difficulty: nat, now: real): (r: Outcome<Block>)
    ensures r.Ok? ==> (r.value.index == index && r.value.timestamp == now
                    && r.value.data == data && r.value.previousHash == previousHash)
    ensures r.Ok? ==> 0 <= r.value.nonce && r.value.hash == Recomputed(p, r.value)
    ensures r.Ok? ==> MeetsDifficulty(r.value.hash, difficulty)
    ensures r.Ok? ==> forall n: Int :: 0 <= n < r.value.nonce ==> !MeetsDifficulty(ComputeHash(p, index, now, data, previousHash, n), difficulty)
    ensures r.Overflow? <==> forall n: Int :: 0 <= n ==> !MeetsDifficulty(ComputeHash(p, index, now, data, previousHash, n), difficulty)
    ensures difficulty == 0 ==> r.Ok? && r.value.nonce == 0
  {
    var start := Block(index, now, data, previousHash, 0, ComputeHash(p, index, now, data, previousHash, 0));
    var r := Search(Hasher(p, start), start, difficulty);
    assert forall n: Int :: Hasher(p, start)(n) == ComputeHash(p, index, now, data, previousHash, n);
    assert r.Ok? ==> r.value.hash == ComputeHash(p, index, now, data, previousHash, r.value.nonce);
    r
  }

  /** The default difficulty of `Block.genesis`, which the chain always overrides. */
  const GenesisDefaultDifficulty: nat := 2

  /** `Block.genesis(difficulty:)`: the first block, linked to the sentinel hash "0". */
  function Genesis(p: Primitives, now: real, difficulty: nat := GenesisDefaultDifficulty): (r: Outcome<Block>)
    ensures r.Ok? ==> r.value.index == 0 && r.value.data == "Genesis" && r.value.previousHash == "0"
    ensures r.Ok? ==> r.value.hash == Recomputed(p, r.value) && MeetsDifficulty(r.value.hash, difficulty)
    ensures r.Overflow? <==> forall n: Int :: 0 <= n ==> !MeetsDifficulty(ComputeHash(p, 0, now, "Genesis", "0", n), difficulty)
  {
    NewBlock(p, 0, "Genesis", "0", difficulty, now)
  }

  /** A difficulty longer than the 64-character hash can never be met: mining runs into the trap. */
  lemma DifficultyBeyondDigestTraps(p: Primitives, index: Int, data: string, previousHash: string, difficulty: nat, now: real)
    requires DigestIs32Bytes(p)
    requires difficulty > 64
    ensures NewBlock(p, index, data, previousHash, difficulty, now) == Overflow
  {
  }

  /** Changing the payload alone changes the hash input. */
  lemma DataChangesHashInput(p: Primitives, b: Block, data: string)
    requires data != b.data
    ensures HashInput(p, b.index, b.timestamp, b.data, b.previousHash, b.nonce)
         != HashInput(p, b.index, b.timestamp, data, b.previousHash, b.nonce)
  {
    var head := Decimal.Show(b.index) + p.describeTime(b.timestamp);
    var tail := b.previousHash + Decimal.Show(b.nonce);
    MiddleDiffers(head, b.data, data, tail);
    assert head + b.data + b.previousHash + Decimal.Show(b.nonce) == head + b.data + tail;
    assert head + data + b.previousHash + Decimal.Show(b.nonce) == head + data + tail;
  }

  /** Changing the predecessor link alone changes the hash input. */
  lemma PreviousHashChangesHashInput(p: Primitives, b: Block, previousHash: string)
    requires previousHash != b.previousHash
    ensures HashInput(p, b.index, b.timestamp, b.data, b.previousHash, b.nonce)
         != HashInput(p, b.index, b.timestamp, b.data, previousHash, b.nonce)
  {
    var head := Decimal.Show(b.index) + p.describeTime(b.timestamp) + b.data;
    MiddleDiffers(head, b.previousHash, previousHash, Decimal.Show(b.nonce));
  }

  /** Changing the nonce alone changes the hash input. */
  lemma NonceChangesHashInput(p: Primitives, b: Block, nonce: Int)
    requires nonce != b.nonce
    ensures HashInput(p, b.index, b.timestamp, b.data, b.previousHash, b.nonce)
         != HashInput(p, b.index, b.timestamp, b.data, b.previousHash, nonce)
  {
    var head := Decimal.Show(b.index) + p.describeTime(b.timestamp) + b.data + b.previousHash;
    Decimal.ShowInjective(b.nonce, nonce);
    MiddleDiffers(head, Decimal.Show(b.nonce), Decimal.Show(nonce), "");
  }

  lemma MiddleDiffers(head: string, x: string, y: string, tail: string)
    requires x != y
    ensures head + x + tail != head + y + tail
  {
    if |x| == |y| {
      var s, t := head + x + tail, head + y + tail;
      assert s[|head|..|head| + |x|] == x;
      assert t[|head|..|head| + |y|] == y;
    }
  }

  /** SHA-256 does not collide on the hash inputs of these two blocks. */
  predicate CollisionFree(p: Primitives, a: Block, b: Block) {
    var x := Utf8.Encode(HashInput(p, a.index, a.timestamp, a.data, a.previousHash, a.nonce));
    var y := Utf8.Encode(HashInput(p, b.index, b.timestamp, b.data, b.previousHash, b.nonce));
    x != y ==> p.sha256(x) != p.sha256(y)
  }

  /** Distinct hash inputs give distinct hashes unless SHA-256 collides on them. */
  lemma RecomputedDiffers(p: Primitives, a: Block, b: Block)
    requires HashInput(p, a.index, a.timestamp, a.data, a.previousHash, a.nonce)
          != HashInput(p, b.index, b.timestamp, b.data, b.previousHash, b.nonce)
    requires CollisionFree(p, a, b)
    ensures Recomputed(p, a) != Recomputed(p, b)
  {
    var x := HashInput(p, a.index, a.timestamp, a.data, a.previousHash, a.nonce);
    var y := HashInput(p, b.index, b.timestamp, b.data, b.previousHash, b.nonce);
    Utf8.EncodeInjective(x, y);
    Hex.EncodeInjective(p.sha256(Utf8.Encode(x)), p.sha256(Utf8.Encode(y)));
  }
}
