/**
  The `Blockchain` of the ledger: creation with a genesis block, the append protocol
  (`latest` and `addBlock`) and the whole-chain validator `isValid`.

  `addBlock` is modelled as the synchronous append it amounts to once the main-queue
  publish has run; each operation that mines takes the clock reading as a parameter.
 */
module Blockchains {
  import opened Blocks

  /** The difficulty `Blockchain.init` uses when none is given. */
  const DefaultDifficulty: nat := 3

  /** The chain of blocks in insertion order and the difficulty fixed at creation. */
  datatype Blockchain = Blockchain(chain: seq<Block>, difficulty: nat)

  /** A genesis block as the factory makes it, mined at `difficulty`. */
  predicate IsGenesis(p: Primitives, g: Block, difficulty: nat) {
    && g.index == 0 && g.data == "Genesis" && g.previousHash == "0"
    && g.hash == Recomputed(p, g) && MeetsDifficulty(g.hash, difficulty)
  }

  /** `Blockchain.init(difficuly:)`: a chain of the genesis block alone, mined at the chain's difficulty. */
  function Create(p: Primitives, now: real, difficulty: nat := DefaultDifficulty): (r: Outcome<Blockchain>)
    ensures r.Ok? ==> r.value.difficulty == difficulty && |r.value.chain| == 1
    ensures r.Ok? ==> IsGenesis(p, r.value.chain[0], difficulty) && r.value.chain[0].timestamp == now
    ensures r.Overflow? <==> forall n: Int :: 0 <= n ==> !MeetsDifficulty(ComputeHash(p, 0, now, "Genesis", "0", n), difficulty)
  {
    match Genesis(p, now, difficulty)
    case Overflow => Overflow
    case Ok(g) => Ok(Blockchain([g], difficulty))
  }

  /** `Blockchain.latest()`: the last block; the force-unwrap traps on an empty chain. */
  function Latest(c: Blockchain): Block
    requires |c.chain| > 0
  {
    c.chain[|c.chain| - 1]
  }

  /**
    The first half of `Blockchain.addBlock(data:)`: read `latest()` and mine a block that
    links to it. The new block takes the latest block's index unchanged, as the source does.
   */
  function MinePending(p: Primitives, c: Blockchain, data: string, now: real): (r: Outcome<Block>)
    requires |c.chain| > 0
    ensures r.Ok? ==> (r.value.previousHash == Latest(c).hash && r.value.index == Latest(c).index
                    && r.value.data == data && r.value.timestamp == now)
    ensures r.Ok? ==> r.value.hash == Recomputed(p, r.value) && MeetsDifficulty(r.value.hash, c.difficulty)
  {
    var previousBlock := Latest(c);
    NewBlock(p, previousBlock.index, data, previousBlock.hash, c.difficulty, now)
  }

  /** The second half of `addBlock`: the main-queue task that appends the mined block. */
  function Publish(c: Blockchain, b: Block): (r: Blockchain)
    ensures |r.chain| == |c.chain| + 1 && r.chain[|c.chain|] == b && r.difficulty == c.difficulty
    ensures forall i :: 0 <= i < |c.chain| ==> r.chain[i] == c.chain[i]
  {
    c.(chain := c.chain + [b])
  }

  /**
    `Blockchain.addBlock(data:)` when its publish runs before the next call reads `latest()`:
    mine a block that links to the latest one and append it.
   */
  function AddBlock(p: Primitives, c: Blockchain, data: string, now: real): (r: Outcome<Blockchain>)
    requires |c.chain| > 0
    ensures r.Ok? ==> |r.value.chain| == |c.chain| + 1
    ensures r.Ok? ==> forall i :: 0 <= i < |c.chain| ==> r.value.chain[i] == c.chain[i]
    ensures r.Ok? ==> r.value.difficulty == c.difficulty
    ensures r.Ok? ==> var b := r.value.chain[|c.chain|];
                      && b.previousHash == Latest(c).hash && b.index == Latest(c).index
                      && b.data == data && b.timestamp == now
                      && b.hash == Recomputed(p, b) && MeetsDifficulty(b.hash, c.difficulty)
    ensures r.Overflow? <==> forall n: Int :: 0 <= n ==>
              !MeetsDifficulty(ComputeHash(p, Latest(c).index, now, data, Latest(c).hash, n), c.difficulty)
  {
    match MinePending(p, c, data, now)
    case Overflow => Overflow
    case Ok(b) => Ok(Publish(c, b))
  }

  /** The three checks `isValid` makes of each block after the first, against its predecessor. */
  predicate Linked(previous: Block, current: Block) {
    current.previousHash == previous.hash
  }

  predicate Intact(p: Primitives, b: Block) {
    Recomputed(p, b) == b.hash
  }

  predicate PairValid(p: Primitives, previous: Block, current: Block, difficulty: nat) {
    Linked(previous, current) && Intact(p, current) && MeetsDifficulty(current.hash, difficulty)
  }

  /** Every adjacent pair passes the three checks; the first block is never checked itself. */
  predicate Valid(p: Primitives, c: Blockchain) {
    forall i :: 1 <= i < |c.chain| ==> PairValid(p, c.chain[i - 1], c.chain[i], c.difficulty)
  }

  /** `Blockchain.isValid()`: scan the pairs in order and stop at the first failed check. */
  method IsValid(p: Primitives, c: Blockchain) returns (valid: bool)
    ensures valid == Valid(p, c)
    ensures |c.chain| <= 1 ==> valid
  {
    if |c.chain| == 0 {
      return true;
    }
    for i := 1 to |c.chain|
      invariant forall j :: 1 <= j < i ==> PairValid(p, c.chain[j - 1], c.chain[j], c.difficulty)
    {
      var currentBlock := c.chain[i];
      var previousBlock := c.chain[i - 1];
      if currentBlock.previousHash != previousBlock.hash {
        return false;
      }
      var recomputed := ComputeHash(p, currentBlock.index, currentBlock.timestamp, currentBlock.data,
                                    currentBlock.previousHash, currentBlock.nonce);
      if recomputed != currentBlock.hash {
        return false;
      }
      if !HasPrefix(currentBlock.hash, Zeros(c.difficulty)) {
        return false;
      }
    }
    return true;
  }

  /** A chain is invalid exactly when some block after the first fails one of the three checks. */
  lemma InvalidIffSomeCheckFails(p: Primitives, c: Blockchain)
    ensures !Valid(p, c) <==>
              exists i :: 1 <= i < |c.chain| &&
                (|| c.chain[i].previousHash != c.chain[i - 1].hash
                 || Recomputed(p, c.chain[i]) != c.chain[i].hash
                 || !MeetsDifficulty(c.chain[i].hash, c.difficulty))
  {
    if !Valid(p, c) {
      var i :| 1 <= i < |c.chain| && !PairValid(p, c.chain[i - 1], c.chain[i], c.difficulty);
      assert c.chain[i].previousHash != c.chain[i - 1].hash
          || Recomputed(p, c.chain[i]) != c.chain[i].hash
          || !MeetsDifficulty(c.chain[i].hash, c.difficulty);
    } else {
      forall i | 1 <= i < |c.chain|
        ensures c.chain[i].previousHash == c.chain[i - 1].hash
        ensures Recomputed(p, c.chain[i]) == c.chain[i].hash
        ensures MeetsDifficulty(c.chain[i].hash, c.difficulty)
      {
        assert PairValid(p, c.chain[i - 1], c.chain[i], c.difficulty);
      }
    }
  }

  /** Appending to a valid chain keeps it valid. */
  lemma AddBlockPreservesValid(p: Primitives, c: Blockchain, data: string, now: real)
    requires |c.chain| > 0 && Valid(p, c)
    ensures AddBlock(p, c, data, now).Ok? ==> Valid(p, AddBlock(p, c, data, now).value)
  {
    var r := AddBlock(p, c, data, now);
    if r.Ok? {
      var c' := r.value;
      forall i | 1 <= i < |c'.chain|
        ensures PairValid(p, c'.chain[i - 1], c'.chain[i], c'.difficulty)
      {
        if i < |c.chain| {
          assert c'.chain[i - 1] == c.chain[i - 1] && c'.chain[i] == c.chain[i];
        }
      }
    }
  }

  /** After an append the new latest block links to the previous latest block. */
  lemma AppendMovesLatest(p: Primitives, c: Blockchain, data: string, now: real)
    requires |c.chain| > 0
    ensures var r := AddBlock(p, c, data, now);
            r.Ok? ==> Latest(r.value).previousHash == Latest(c).hash && Latest(r.value).data == data
                      && Latest(r.value).index == Latest(c).index
  {
  }

  /**
    Two `addBlock` calls that both read `latest()` before the main queue publishes the first
    block (a second tap while mining, say) mine blocks linked to the same predecessor. Once
    both are published the second no longer links to the block before it, and the chain is
    invalid unless the first block's hash happens to equal the old latest hash.
   */
  lemma StalePublishBreaksLinkage(p: Primitives, c: Blockchain, data1: string, now1: real, data2: string, now2: real)
    requires |c.chain| > 0
    ensures var r1, r2 := MinePending(p, c, data1, now1), MinePending(p, c, data2, now2);
            r1.Ok? && r2.Ok? ==>
              && r1.value.previousHash == r2.value.previousHash
              && (Valid(p, Publish(Publish(c, r1.value), r2.value)) ==> r1.value.hash == Latest(c).hash)
  {
  }

  /** One `addBlock(data:)` call, with the clock reading taken while it mines. */
  datatype Append = Append(data: string, now: real)

  /**
    The chain after `Blockchain.init` and then the given `addBlock` calls, in order;
    a trap in any of them ends the run. It is never empty.
   */
  function Run(p: Primitives, difficulty: nat, genesisTime: real, appends: seq<Append>): (r: Outcome<Blockchain>)
    decreases |appends|
    ensures r.Ok? ==> |r.value.chain| == |appends| + 1
  {
    if |appends| == 0 then Create(p, genesisTime, difficulty)
    else
      match Run(p, difficulty, genesisTime, appends[..|appends| - 1])
      case Overflow => Overflow
      case Ok(c) => AddBlock(p, c, appends[|appends| - 1].data, appends[|appends| - 1].now)
  }

  /** Every chain built by creation and appends is valid and keeps its difficulty. */
  lemma {:induction false} RunIsValid(p: Primitives, difficulty: nat, genesisTime: real, appends: seq<Append>)
    decreases |appends|
    ensures var r := Run(p, difficulty, genesisTime, appends);
            r.Ok? ==> Valid(p, r.value) && r.value.difficulty == difficulty
  {
    if |appends| > 0 {
      var init := appends[..|appends| - 1];
      RunIsValid(p, difficulty, genesisTime, init);
      var r0 := Run(p, difficulty, genesisTime, init);
      if r0.Ok? {
        var last := appends[|appends| - 1];
        AddBlockPreservesValid(p, r0.value, last.data, last.now);
      }
    }
  }

  /** Every chain built by creation and appends starts with its genesis block. */
  lemma {:induction false} RunStartsWithGenesis(p: Primitives, difficulty: nat, genesisTime: real, appends: seq<Append>)
    decreases |appends|
    ensures var r := Run(p, difficulty, genesisTime, appends);
            r.Ok? ==> IsGenesis(p, r.value.chain[0], difficulty) && r.value.chain[0].timestamp == genesisTime
  {
    if |appends| > 0 {
      var init := appends[..|appends| - 1];
      RunStartsWithGenesis(p, difficulty, genesisTime, init);
      var r0 := Run(p, difficulty, genesisTime, init);
      if r0.Ok? {
        var last := appends[|appends| - 1];
        var r := AddBlock(p, r0.value, last.data, last.now);
        assert r.Ok? ==> r.value.chain[0] == r0.value.chain[0];
      }
    }
  }

  /**
    Because `addBlock` copies the predecessor's index instead of incrementing it, every
    block of a chain built by creation and appends has index 0.
   */
  lemma {:induction false} RunIndicesStayZero(p: Primitives, difficulty: nat, genesisTime: real, appends: seq<Append>)
    decreases |appends|
    ensures var r := Run(p, difficulty, genesisTime, appends);
            r.Ok? ==> forall i :: 0 <= i < |r.value.chain| ==> r.value.chain[i].index == 0
  {
    if |appends| > 0 {
      var init := appends[..|appends| - 1];
      RunIndicesStayZero(p, difficulty, genesisTime, init);
      var r0 := Run(p, difficulty, genesisTime, init);
      if r0.Ok? {
        var last := appends[|appends| - 1];
        var r := AddBlock(p, r0.value, last.data, last.now);
        if r.Ok? {
          forall i | 0 <= i < |r.value.chain|
            ensures r.value.chain[i].index == 0
          {
            if i < |r0.value.chain| {
              assert r.value.chain[i] == r0.value.chain[i];
            }
          }
        }
      }
    }
  }

  /** A chain built by creation and appends holds the appended payloads in order after genesis. */
  lemma {:induction false} RunKeepsPayloads(p: Primitives, difficulty: nat, genesisTime: real, appends: seq<Append>)
    decreases |appends|
    ensures var r := Run(p, difficulty, genesisTime, appends);
            r.Ok? ==> forall i :: 1 <= i < |r.value.chain| ==>
                        r.value.chain[i].data == appends[i - 1].data && r.value.chain[i].timestamp == appends[i - 1].now
  {
    if |appends| > 0 {
      var init := appends[..|appends| - 1];
      RunKeepsPayloads(p, difficulty, genesisTime, init);
      var r0 := Run(p, difficulty, genesisTime, init);
      if r0.Ok? {
        var last := appends[|appends| - 1];
        var r := AddBlock(p, r0.value, last.data, last.now);
        if r.Ok? {
          var before, after := r0.value.chain, r.value.chain;
          assert |before| == |appends| && |after| == |appends| + 1;
          forall i | 1 <= i < |after|
            ensures after[i].data == appends[i - 1].data && after[i].timestamp == appends[i - 1].now
          {
            if i < |before| {
              assert after[i] == before[i];
              assert appends[i - 1] == init[i - 1];
            } else {
              assert i == |appends|;
            }
          }
        }
      }
    }
  }

  /** The genesis block is not checked: any block with its hash may take its place. */
  lemma GenesisIsNotChecked(p: Primitives, c: Blockchain, g: Block)
    requires |c.chain| > 0 && Valid(p, c)
    requires g.hash == c.chain[0].hash
    ensures Valid(p, c.(chain := c.chain[0 := g]))
  {
    var c' := c.(chain := c.chain[0 := g]);
    forall i | 1 <= i < |c'.chain|
      ensures PairValid(p, c'.chain[i - 1], c'.chain[i], c'.difficulty)
    {
      assert c'.chain[i] == c.chain[i];
    }
  }

  /** Replacing the link of a non-genesis block by any other string breaks validity. */
  lemma LinkageBreakIsDetected(p: Primitives, c: Blockchain, i: nat, previousHash: string)
    requires 1 <= i < |c.chain|
    requires previousHash != c.chain[i - 1].hash
    ensures !Valid(p, c.(chain := c.chain[i := c.chain[i].(previousHash := previousHash)]))
  {
    var c' := c.(chain := c.chain[i := c.chain[i].(previousHash := previousHash)]);
    assert !Linked(c'.chain[i - 1], c'.chain[i]);
  }

  /**
    Changing the payload of a non-genesis block without mining again breaks validity,
    unless SHA-256 collides on the old and new hash inputs.
   */
  lemma DataTamperIsDetected(p: Primitives, c: Blockchain, i: nat, data: string)
    requires Valid(p, c) && 1 <= i < |c.chain|
    requires data != c.chain[i].data
    requires CollisionFree(p, c.chain[i], c.chain[i].(data := data))
    ensures !Valid(p, c.(chain := c.chain[i := c.chain[i].(data := data)]))
  {
    var b := c.chain[i];
    var b' := b.(data := data);
    assert PairValid(p, c.chain[i - 1], b, c.difficulty);
    DataChangesHashInput(p, b, data);
    RecomputedDiffers(p, b, b');
    assert !Intact(p, b');
    var c' := c.(chain := c.chain[i := b']);
    assert !PairValid(p, c'.chain[i - 1], c'.chain[i], c'.difficulty);
  }

  /**
    Changing the nonce of a non-genesis block without recomputing its hash breaks
    validity, unless SHA-256 collides on the old and new hash inputs.
   */
  lemma NonceTamperIsDetected(p: Primitives, c: Blockchain, i: nat, nonce: Int)
    requires Valid(p, c) && 1 <= i < |c.chain|
    requires nonce != c.chain[i].nonce
    requires CollisionFree(p, c.chain[i], c.chain[i].(nonce := nonce))
    ensures !Valid(p, c.(chain := c.chain[i := c.chain[i].(nonce := nonce)]))
  {
    var b := c.chain[i];
    var b' := b.(nonce := nonce);
    assert PairValid(p, c.chain[i - 1], b, c.difficulty);
    NonceChangesHashInput(p, b, nonce);
    RecomputedDiffers(p, b, b');
    assert !Intact(p, b');
    var c' := c.(chain := c.chain[i := b']);
    assert !PairValid(p, c'.chain[i - 1], c'.chain[i], c'.difficulty);
  }
}
