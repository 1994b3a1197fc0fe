/**
 * A single ledger block: its five hashed fields, the digest over them, the
 * difficulty target, and the proof-of-work search that seals a block.
 */
module Blocks {

  /** The five fields that are serialised (keys sorted) and hashed. */
  datatype Header = Header(index: nat, timestamp: string, data: string, previousHash: string, nonce: nat)

  /**
   * SHA-256 of the sorted-key JSON serialisation of a header, as a hex string.
   * It is left uninterpreted: the model relies only on its being a function,
   * so equal headers always give equal digests.
   */
  const Sha256: Header -> string

  /** A read-only picture of a block's six fields, as the display lists them. */
  datatype BlockView = BlockView(index: nat, timestamp: string, data: string, previousHash: string, nonce: nat, hash: string)

  function HeaderOf(v: BlockView): Header {
    Header(v.index, v.timestamp, v.data, v.previousHash, v.nonce)
  }

  /** The digest recomputed from a block's current fields (the stored hash is not an input). */
  function Recomputed(v: BlockView): string {
    Sha256(HeaderOf(v))
  }

  /** The digest the header would have with its nonce replaced by `n`. */
  function HashWithNonce(hd: Header, n: nat): string {
    Sha256(hd.(nonce := n))
  }

  /** The difficulty target: `difficulty` copies of '0'. */
  function Target(difficulty: nat): (t: string)
    ensures |t| == difficulty
    ensures forall i :: 0 <= i < difficulty ==> t[i] == '0'
  {
    seq(difficulty, _ => '0')
  }

  /** A slice `s[:n]` with a non-negative bound: the whole string when `n` runs past its end. */
  function Prefix(s: string, n: nat): (p: string)
    ensures |p| == if n <= |s| then n else |s|
    ensures forall i :: 0 <= i < |p| ==> p[i] == s[i]
  {
    if n <= |s| then s[..n] else s
  }

  /**
   * The mining loop's exit test: the first `difficulty` characters of `h` are
   * the target. It holds exactly when `h` is long enough and starts with
   * `difficulty` zeros.
   */
  predicate Meets(h: string, difficulty: nat)
    ensures Meets(h, difficulty) <==> difficulty <= |h| && forall i :: 0 <= i < difficulty ==> h[i] == '0'
  {
    Prefix(h, difficulty) == Target(difficulty)
  }

  /** Some nonce from `from` onwards gives a digest that meets the target. */
  ghost predicate Findable(hd: Header, from: nat, difficulty: nat) {
    exists n: nat :: from <= n && Meets(HashWithNonce(hd, n), difficulty)
  }

  /**
   * `v` is sealed by a search that started at nonce `from`: its stored hash is
   * its recomputed digest and meets the target, and no earlier nonce of the
   * search did.
   */
  ghost predicate MinedAt(v: BlockView, from: nat, difficulty: nat) {
    && v.hash == Recomputed(v)
    && Meets(v.hash, difficulty)
    && from <= v.nonce
    && forall n: nat :: from <= n < v.nonce ==> !Meets(HashWithNonce(HeaderOf(v), n), difficulty)
  }

  /** A ledger block. Its fields are public and can be overwritten from outside. */
  class Block {
    var index: nat
    var timestamp: string
    var data: string
    var previousHash: string
    var nonce: nat
    var hash: string

    function Fields(): Header
      reads this
    {
      Header(index, timestamp, data, previousHash, nonce)
    }

    function View(): BlockView
      reads this
    {
      BlockView(index, timestamp, data, previousHash, nonce, hash)
    }

    /** The digest of the five current fields; the stored `hash` plays no part. */
    function CalculateHash(): (h: string)
      reads this
      ensures h == Recomputed(View())
      ensures h == HashWithNonce(Fields(), nonce)
    {
      Sha256(Fields())
    }

    /** A new block: nonce 0 and the hash of its fields. The timestamp is supplied by the caller. */
    constructor (index: nat, timestamp: string, data: string, previousHash: string)
      ensures this.index == index && this.timestamp == timestamp
      ensures this.data == data && this.previousHash == previousHash
      ensures nonce == 0
      ensures hash == CalculateHash()
    {
      this.index := index;
      this.timestamp := timestamp;
      this.data := data;
      this.previousHash := previousHash;
      nonce := 0;
      new;
      hash := CalculateHash();
    }

    /**
     * Proof-of-work search: while the stored hash misses the target, advance
     * the nonce and rehash. The test comes before the first increment, so a
     * hash that already meets the target is left alone.
     */
    method Mine(difficulty: nat) returns (h: string)
      requires Meets(hash, difficulty) || Findable(Fields(), nonce + 1, difficulty)
      modifies this`nonce, this`hash
      ensures h == hash && Meets(hash, difficulty)
      ensures old(nonce) <= nonce
      ensures old(Meets(hash, difficulty)) ==> nonce == old(nonce) && hash == old(hash)
      ensures !old(Meets(hash, difficulty)) ==> MinedAt(View(), old(nonce) + 1, difficulty)
      ensures old(hash == CalculateHash()) ==> MinedAt(View(), old(nonce), difficulty)
    {
      ghost var hd := Fields();
      ghost var goal: nat :=
        if Meets(hash, difficulty) then nonce
        else var g: nat :| nonce + 1 <= g && Meets(HashWithNonce(hd, g), difficulty); g;
      var target := Target(difficulty);
      while Prefix(hash, difficulty) != target
        invariant old(nonce) <= nonce <= goal
        invariant Fields() == hd.(nonce := nonce)
        invariant nonce == old(nonce) ==> hash == old(hash)
        invariant nonce != old(nonce) ==> hash == CalculateHash() && !Meets(old(hash), difficulty)
        invariant nonce == goal ==> Meets(hash, difficulty)
        invariant forall n: nat :: old(nonce) < n < nonce ==> !Meets(HashWithNonce(hd, n), difficulty)
        decreases goal - nonce
      {
        nonce := nonce + 1;
        hash := CalculateHash();
      }
      h := hash;
      assert forall n: nat :: HashWithNonce(HeaderOf(View()), n) == HashWithNonce(hd, n);
    }
  }
}
