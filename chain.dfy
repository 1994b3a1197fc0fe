/**
 * The chain held by the application: a list of blocks seeded with a mined
 * genesis block, appended to by AddBlock and checked by VerifyChain.
 */
module Chain {
  import opened Blocks

  const GenesisData := "Genesis Block"
  const GenesisPreviousHash := "0"
  /** The fixed difficulty of the chain. */
  const Difficulty: nat := 2

  /** What VerifyChain reports: valid, or the block at which one of its two checks failed. */
  datatype Verdict = Valid | HashInvalid(at: nat) | PrevMismatch(at: nat) {
    /** The status text: one success text, and failure texts that say nothing of the index. */
    function Message(): (m: string)
      ensures Valid? <==> m == "Blockchain is valid!"
      ensures !Valid? ==> |m| > 15 && m[..15] == "Chain invalid: "
    {
      match this
      case Valid => "Blockchain is valid!"
      case HashInvalid(_) => "Chain invalid: Current hash is invalid!"
      case PrevMismatch(_) => "Chain invalid: Previous hash mismatch!"
    }
  }

  /** What AddBlock reports. */
  datatype AddStatus = Added | NoData {
    /** The status text: the two outcomes are told apart. */
    function Message(): (m: string)
      ensures Added? <==> m == "New block added and mined successfully!"
      ensures NoData? <==> m == "Please enter some data!"
    {
      match this
      case Added => "New block added and mined successfully!"
      case NoData => "Please enter some data!"
    }
  }

  /** Two verdicts show the same text exactly when they are of the same kind; the index is not shown. */
  lemma MessageTellsKind(a: Verdict, b: Verdict)
    ensures a.Message() == b.Message() <==>
      a.Valid? == b.Valid? && a.HashInvalid? == b.HashInvalid? && a.PrevMismatch? == b.PrevMismatch?
  {
  }

  /** The views of a list of blocks, in order. */
  function Views(bs: seq<Block>): (vs: seq<BlockView>)
    reads bs
    ensures |vs| == |bs|
    ensures forall i :: 0 <= i < |bs| ==> vs[i] == bs[i].View()
  {
    if bs == [] then [] else Views(bs[..|bs| - 1]) + [bs[|bs| - 1].View()]
  }

  /** Block `i` survives both checks of the verification pass. */
  predicate Passes(c: seq<BlockView>, i: nat)
    requires 1 <= i < |c|
  {
    c[i].hash == Recomputed(c[i]) && c[i].previousHash == c[i - 1].hash
  }

  /** The verification pass from position `i` on: hash check first, then the back-link. */
  function VerifyFrom(c: seq<BlockView>, i: nat): (r: Verdict)
    requires 1 <= i
    ensures r.HashInvalid? ==> i <= r.at < |c| && c[r.at].hash != Recomputed(c[r.at])
    ensures r.PrevMismatch? ==>
      i <= r.at < |c| && c[r.at].hash == Recomputed(c[r.at]) && c[r.at].previousHash != c[r.at - 1].hash
    ensures |c| <= i ==> r == Valid
    decreases |c| - i
  {
    if i >= |c| then Valid
    else if c[i].hash != Recomputed(c[i]) then HashInvalid(i)
    else if c[i].previousHash != c[i - 1].hash then PrevMismatch(i)
    else VerifyFrom(c, i + 1)
  }

  /** The verification pass over a whole chain; it starts at position 1. */
  function Verify(c: seq<BlockView>): (r: Verdict)
    ensures r.HashInvalid? ==> 1 <= r.at < |c| && c[r.at].hash != Recomputed(c[r.at])
    ensures r.PrevMismatch? ==>
      1 <= r.at < |c| && c[r.at].hash == Recomputed(c[r.at]) && c[r.at].previousHash != c[r.at - 1].hash
    ensures |c| <= 1 ==> r == Valid
  {
    VerifyFrom(c, 1)
  }

  /**
   * The invariants a chain built by the genesis setup and AddBlock keeps:
   * every index is its position, every stored hash is the recomputed digest
   * and carries the difficulty prefix, and every block after the first links
   * to its predecessor's hash.
   */
  ghost predicate Sealed(c: seq<BlockView>, difficulty: nat) {
    && (forall i :: 0 <= i < |c| ==> c[i].index == i)
    && (forall i :: 0 <= i < |c| ==> c[i].hash == Recomputed(c[i]) && Meets(c[i].hash, difficulty))
    && (forall i :: 1 <= i < |c| ==> c[i].previousHash == c[i - 1].hash)
  }

  lemma {:induction false} VerifyFromValidIff(c: seq<BlockView>, i: nat)
    requires 1 <= i
    ensures VerifyFrom(c, i) == Valid <==> forall j :: i <= j < |c| ==> Passes(c, j)
    decreases |c| - i
  {
    if i < |c| {
      VerifyFromValidIff(c, i + 1);
      if forall j :: i <= j < |c| ==> Passes(c, j) {
        assert Passes(c, i);
      }
    }
  }

  lemma {:induction false} VerifyFromHashInvalidIff(c: seq<BlockView>, i: nat, k: nat)
    requires 1 <= i
    ensures VerifyFrom(c, i) == HashInvalid(k) <==>
      && i <= k < |c|
      && (forall j :: i <= j < k ==> Passes(c, j))
      && c[k].hash != Recomputed(c[k])
    decreases |c| - i
  {
    if i < |c| {
      VerifyFromHashInvalidIff(c, i + 1, k);
      if i < k && k < |c| && (forall j :: i <= j < k ==> Passes(c, j)) {
        assert Passes(c, i);
      }
    }
  }

  lemma {:induction false} VerifyFromPrevMismatchIff(c: seq<BlockView>, i: nat, k: nat)
    requires 1 <= i
    ensures VerifyFrom(c, i) == PrevMismatch(k) <==>
      && i <= k < |c|
      && (forall j :: i <= j < k ==> Passes(c, j))
      && c[k].hash == Recomputed(c[k])
      && c[k].previousHash != c[k - 1].hash
    decreases |c| - i
  {
    if i < |c| {
      VerifyFromPrevMismatchIff(c, i + 1, k);
      if i < k && k < |c| && (forall j :: i <= j < k ==> Passes(c, j)) {
        assert Passes(c, i);
      }
    }
  }

  /** The pass reports valid exactly when every block from position 1 on passes both checks. */
  lemma VerifyValidIff(c: seq<BlockView>)
    ensures Verify(c) == Valid <==> forall j :: 1 <= j < |c| ==> Passes(c, j)
  {
    VerifyFromValidIff(c, 1);
  }

  /**
   * The pass reports a hash mismatch at `k` exactly when `k` is the first
   * failing position and its stored hash is not the recomputed one.
   */
  lemma VerifyHashInvalidIff(c: seq<BlockView>, k: nat)
    ensures Verify(c) == HashInvalid(k) <==>
      && 1 <= k < |c|
      && (forall j :: 1 <= j < k ==> Passes(c, j))
      && c[k].hash != Recomputed(c[k])
  {
    VerifyFromHashInvalidIff(c, 1, k);
  }

  /**
   * The pass reports a broken link at `k` exactly when `k` is the first
   * failing position and its own hash is correct there.
   */
  lemma VerifyPrevMismatchIff(c: seq<BlockView>, k: nat)
    ensures Verify(c) == PrevMismatch(k) <==>
      && 1 <= k < |c|
      && (forall j :: 1 <= j < k ==> Passes(c, j))
      && c[k].hash == Recomputed(c[k])
      && c[k].previousHash != c[k - 1].hash
  {
    VerifyFromPrevMismatchIff(c, 1, k);
  }

  lemma {:induction false} VerifyFromIgnoresGenesis(c: seq<BlockView>, d: seq<BlockView>, i: nat)
    requires 1 <= i
    requires |c| == |d| && 0 < |c| && c[0].hash == d[0].hash && c[1..] == d[1..]
    ensures VerifyFrom(c, i) == VerifyFrom(d, i)
    decreases |c| - i
  {
    if i < |c| {
      assert c[i] == c[1..][i - 1] == d[1..][i - 1] == d[i];
      assert c[i - 1].hash == d[i - 1].hash by {
        if i > 1 {
          assert c[i - 1] == c[1..][i - 2] == d[1..][i - 2] == d[i - 1];
        }
      }
      VerifyFromIgnoresGenesis(c, d, i + 1);
    }
  }

  /**
   * The pass never inspects the genesis block beyond its stored hash: two
   * chains that differ only in the genesis block's other fields get the same
   * verdict.
   */
  lemma VerifyIgnoresGenesis(c: seq<BlockView>, d: seq<BlockView>)
    requires |c| == |d| && 0 < |c| && c[0].hash == d[0].hash && c[1..] == d[1..]
    ensures Verify(c) == Verify(d)
  {
    VerifyFromIgnoresGenesis(c, d, 1);
  }

  /** A chain that keeps the invariants passes verification. */
  lemma SealedVerifies(c: seq<BlockView>, difficulty: nat)
    requires Sealed(c, difficulty)
    ensures Verify(c) == Valid
  {
  }

  /** A one-block chain holding a mined block with index 0 keeps the invariants. */
  lemma GenesisSealed(g: BlockView, difficulty: nat)
    requires g.index == 0 && MinedAt(g, 0, difficulty)
    ensures Sealed([g], difficulty)
  {
  }

  /**
   * Appending a block mined at the difficulty, with the next index and a link
   * to the last hash, keeps the invariants.
   */
  lemma SealedAppend(c: seq<BlockView>, v: BlockView, difficulty: nat)
    requires Sealed(c, difficulty) && 0 < |c|
    requires v.index == |c| && v.previousHash == c[|c| - 1].hash
    requires v.hash == Recomputed(v) && Meets(v.hash, difficulty)
    ensures Sealed(c + [v], difficulty)
  {
  }

  /**
   * Overwriting any hashed field of a non-genesis block of a sealed chain
   * without rehashing is reported as a hash mismatch at that block, provided
   * the new fields do not hash to the old digest.
   */
  lemma TamperedFieldsDetected(c: seq<BlockView>, difficulty: nat, k: nat, v: BlockView)
    requires Sealed(c, difficulty) && 1 <= k < |c|
    requires v.hash == c[k].hash && Recomputed(v) != v.hash
    ensures Verify(c[k := v]) == HashInvalid(k)
  {
    var e := c[k := v];
    forall j | 1 <= j < k ensures Passes(e, j) {
      assert e[j] == c[j] && e[j - 1] == c[j - 1];
    }
    VerifyHashInvalidIff(e, k);
  }

  /**
   * Replacing a non-genesis block of a sealed chain by a self-consistent one
   * whose back-link is not its predecessor's hash is reported as a broken link
   * at that block.
   */
  lemma RelinkedBlockDetected(c: seq<BlockView>, difficulty: nat, k: nat, v: BlockView)
    requires Sealed(c, difficulty) && 1 <= k < |c|
    requires v.hash == Recomputed(v) && v.previousHash != c[k - 1].hash
    ensures Verify(c[k := v]) == PrevMismatch(k)
  {
    var e := c[k := v];
    forall j | 1 <= j < k ensures Passes(e, j) {
      assert e[j] == c[j] && e[j - 1] == c[j - 1];
    }
    VerifyPrevMismatchIff(e, k);
  }

  /** The application's chain state. */
  class Blockchain {
    var blocks: seq<Block>
    const difficulty: nat

    /** The chain always holds at least the genesis block. */
    ghost predicate Wellformed()
      reads this
    {
      0 < |blocks|
    }

    /** The ordered, read-only view of every block's fields. */
    function Snapshot(): (s: seq<BlockView>)
      reads this, blocks
      ensures |s| == |blocks|
      ensures forall i :: 0 <= i < |blocks| ==> s[i] == blocks[i].View()
    {
      Views(blocks)
    }

    /**
     * The genesis setup: a block with index 0, the genesis label and the
     * sentinel link, mined at the fixed difficulty and stored as the only block.
     */
    constructor (genesisTime: string)
      requires Findable(Header(0, genesisTime, GenesisData, GenesisPreviousHash, 0), 0, Difficulty)
      ensures Wellformed() && difficulty == Difficulty
      ensures |blocks| == 1 && fresh(blocks[0])
      ensures var g := Snapshot()[0];
        && g.index == 0 && g.timestamp == genesisTime
        && g.data == GenesisData && g.previousHash == GenesisPreviousHash
        && MinedAt(g, 0, difficulty)
      ensures Sealed(Snapshot(), difficulty)
    {
      difficulty := Difficulty;
      var genesis := new Block(0, genesisTime, GenesisData, GenesisPreviousHash);
      FindableFromFresh(genesis.Fields(), Difficulty);
      var _ := genesis.Mine(Difficulty);
      blocks := [genesis];
      GenesisSealed(genesis.View(), Difficulty);
    }

    /**
     * Appends a block with the next index and a link to the last block's
     * hash, mined at the chain's difficulty, when `data` is non-empty;
     * otherwise reports the missing data and changes nothing.
     */
    method AddBlock(data: string, timestamp: string) returns (status: AddStatus)
      requires Wellformed()
      requires data != "" ==>
        Findable(Header(|blocks|, timestamp, data, blocks[|blocks| - 1].hash, 0), 0, difficulty)
      modifies this`blocks
      ensures Wellformed()
      ensures status == if data != "" then Added else NoData
      ensures data == "" ==> blocks == old(blocks)
      ensures data != "" ==>
        && |blocks| == |old(blocks)| + 1
        && blocks[..|old(blocks)|] == old(blocks)
        && fresh(blocks[|old(blocks)|])
      ensures Snapshot()[..|old(blocks)|] == old(Snapshot())
      ensures data != "" ==>
        var v := Snapshot()[|old(blocks)|];
        && v.index == |old(blocks)| && v.timestamp == timestamp && v.data == data
        && v.previousHash == old(Snapshot())[|old(blocks)| - 1].hash
        && MinedAt(v, 0, difficulty)
      ensures old(Sealed(Snapshot(), difficulty)) ==> Sealed(Snapshot(), difficulty)
    {
      ghost var before := Snapshot();
      if data != "" {
        var block := new Block(|blocks|, timestamp, data, blocks[|blocks| - 1].hash);
        FindableFromFresh(block.Fields(), difficulty);
        var _ := block.Mine(difficulty);
        ghost var v := block.View();
        blocks := blocks + [block];
        forall i | 0 <= i < |before| ensures Snapshot()[i] == before[i] {
          assert blocks[i] == old(blocks)[i];
        }
        assert Snapshot() == before + [v];
        if Sealed(before, difficulty) {
          SealedAppend(before, v, difficulty);
        }
        status := Added;
      } else {
        status := NoData;
      }
    }

    /**
     * One pass from position 1: at each block, the recomputed hash first,
     * then the back-link; the first failure is reported.
     */
    method VerifyChain() returns (r: Verdict)
      ensures r == Verify(Snapshot())
      ensures Sealed(Snapshot(), difficulty) ==> r == Valid
    {
      if Sealed(Snapshot(), difficulty) {
        SealedVerifies(Snapshot(), difficulty);
      }
      var i := 1;
      while i < |blocks|
        invariant 1 <= i
        invariant Verify(Snapshot()) == VerifyFrom(Snapshot(), i)
      {
        var current := blocks[i];
        var previous := blocks[i - 1];
        if current.hash != current.CalculateHash() {
          return HashInvalid(i);
        }
        if current.previousHash != previous.hash {
          return PrevMismatch(i);
        }
        i := i + 1;
      }
      return Valid;
    }
  }

  /** A fresh block (nonce 0, hash of its fields) satisfies the mining precondition when a nonce exists. */
  lemma FindableFromFresh(hd: Header, difficulty: nat)
    requires hd.nonce == 0 && Findable(hd, 0, difficulty)
    ensures Meets(Sha256(hd), difficulty) || Findable(hd, 1, difficulty)
  {
  }
}
