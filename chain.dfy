/**
 * The ledger's rules stated on values: the genesis and reward entries, the
 * proof-of-work target, and what `Blockchain.is_chain_valid` accepts.
 * The class in module Ledger is proved against these definitions.
 */
module Chain {
  import opened Options
  import opened Blocks
  import opened Decimal

  /** `Blockchain.DIFFICULTY_TARGET`: a proof-of-work digest must start with it. */
  const DifficultyTarget: string := "0000"

  const GenesisPreviousHash: string := "0"
  const GenesisNonce: nat := 1
  /** The one entry of the genesis block; it carries no timestamp. */
  const GenesisEntry: Entry := Entry("System", "Genesis", IntAmount(0), None)

  const RewardSender: string := "0 (System Reward)"
  const MiningReward: Amount := FloatAmount(1.0)

  /** The entry `mine_pending_transactions` queues to pay the miner. */
  function RewardEntry(miner: string, now: real): (e: Entry)
    ensures e.sender == RewardSender && e.recipient == miner
    ensures e.amount == MiningReward && e.timestamp == Some(now)
  {
    Entry(RewardSender, miner, MiningReward, Some(now))
  }

  /** The shape `create_genesis_block` gives block 0 (its timestamp is whatever the clock read). */
  predicate IsGenesis(b: Block) {
    b.index == 0 && b.previousHash == GenesisPreviousHash && b.nonce == GenesisNonce && b.data == [GenesisEntry]
  }

  // ---------------------------------------------------------------- proof of work

  /** SHA-256 of the UTF-8 bytes of a string, as hex text. */
  type PowDigest = string -> string

  /** Python's `s[:k]`: the first `k` characters, or all of `s` when it is shorter. */
  function SlicePrefix(s: string, k: nat): (r: string)
    ensures |r| == (if k <= |s| then k else |s|)
    ensures r <= s
  {
    if k <= |s| then s[..k] else s
  }

  /** `guess_hash[:len(DIFFICULTY_TARGET)] == DIFFICULTY_TARGET`. */
  predicate MeetsTarget(h: string)
    ensures MeetsTarget(h) <==> |h| >= 4 && forall i :: 0 <= i < 4 ==> h[i] == '0'
  {
    SlicePrefix(h, |DifficultyTarget|) == DifficultyTarget
  }

  /** `nonce` solves the puzzle posed by `lastHash`. */
  predicate Solves(pow: PowDigest, lastHash: string, nonce: nat) {
    MeetsTarget(pow(lastHash + NatToString(nonce)))
  }

  /** Some nonce solves the puzzle; otherwise `proof_of_work` runs forever. */
  ghost predicate Solvable(pow: PowDigest, lastHash: string) {
    exists nonce: nat :: Solves(pow, lastHash, nonce)
  }

  /** Each nonce the search tries yields a different guess string. */
  lemma GuessesDistinct(lastHash: string, m: nat, n: nat)
    requires m != n
    ensures lastHash + NatToString(m) != lastHash + NatToString(n)
  {
    if lastHash + NatToString(m) == lastHash + NatToString(n) {
      assert NatToString(m) == (lastHash + NatToString(m))[|lastHash|..];
      NatToStringInjective(m, n);
    }
  }

  // ---------------------------------------------------------------- chain shape

  /** Every block sits at the position its index names. */
  predicate Indexed(chain: seq<Block>) {
    forall i :: 0 <= i < |chain| ==> chain[i].index == i
  }

  /** Every block's stored hash matches its content. */
  predicate AllIntact(digest: Digest, chain: seq<Block>) {
    forall i :: 0 <= i < |chain| ==> Intact(digest, chain[i])
  }

  // ---------------------------------------------------------------- validation

  /** The two checks `is_chain_valid` makes on one adjacent pair. */
  predicate PairValid(digest: Digest, previous: Block, current: Block) {
    Intact(digest, current) && current.previousHash == previous.hash
  }

  /** What `is_chain_valid` accepts: every pair from index 1 on passes; block 0 is never checked on its own. */
  predicate ChainValid(digest: Digest, chain: seq<Block>) {
    forall i :: 1 <= i < |chain| ==> PairValid(digest, chain[i - 1], chain[i])
  }

  /** Which of the two checks rejected the chain, and at which block. */
  datatype Fault = BadHash(at: nat) | BrokenLink(at: nat)

  /**
   * The loop of `is_chain_valid` from position `start` on: the first pair
   * that fails, with the self-hash check made before the link check.
   */
  function FirstFault(digest: Digest, chain: seq<Block>, start: nat): (r: Option<Fault>)
    requires start >= 1
    ensures r.None? <==> forall i :: start <= i < |chain| ==> PairValid(digest, chain[i - 1], chain[i])
    ensures r.Some? ==>
      && start <= r.value.at < |chain|
      && (forall i :: start <= i < r.value.at ==> PairValid(digest, chain[i - 1], chain[i]))
      && !PairValid(digest, chain[r.value.at - 1], chain[r.value.at])
      && (r.value.BadHash? <==> !Intact(digest, chain[r.value.at]))
    decreases |chain| - start
  {
    if start >= |chain| then None
    else if chain[start].hash != CalculateHash(digest, chain[start]) then
      assert !PairValid(digest, chain[start - 1], chain[start]);
      Some(BadHash(start))
    else if chain[start].previousHash != chain[start - 1].hash then Some(BrokenLink(start))
    else FirstFault(digest, chain, start + 1)
  }

  /** The first fault is the failing pair that every earlier pair precedes. */
  lemma FirstFaultIs(digest: Digest, chain: seq<Block>, k: nat)
    requires 1 <= k < |chain|
    requires forall i :: 1 <= i < k ==> PairValid(digest, chain[i - 1], chain[i])
    requires !PairValid(digest, chain[k - 1], chain[k])
    ensures FirstFault(digest, chain, 1) == Some(if Intact(digest, chain[k]) then BrokenLink(k) else BadHash(k))
  {
  }

  /** Appending an intact block that links to the tail keeps a valid chain valid. */
  lemma AppendLinkedKeepsValid(digest: Digest, chain: seq<Block>, b: Block)
    requires ChainValid(digest, chain) && |chain| >= 1
    requires Intact(digest, b) && b.previousHash == chain[|chain| - 1].hash
    ensures ChainValid(digest, chain + [b])
  {
  }

  /**
   * Changing any hashed field of block `k >= 1` while keeping its stored
   * hash is caught by the self-hash check at block `k`, provided the new
   * content does not collide with the old.
   */
  lemma TamperWithoutRehashDetected(digest: Digest, chain: seq<Block>, k: nat, b: Block)
    requires ChainValid(digest, chain)
    requires 1 <= k < |chain| && b.hash == chain[k].hash && Fields(b) != Fields(chain[k])
    requires NoCollision(digest, Fields(b), Fields(chain[k]))
    ensures FirstFault(digest, chain[k := b], 1) == Some(BadHash(k))
  {
    var t := chain[k := b];
    assert PairValid(digest, chain[k - 1], chain[k]);
    assert !Intact(digest, t[k]);
    forall i | 1 <= i < k
      ensures PairValid(digest, t[i - 1], t[i])
    {
      assert t[i - 1] == chain[i - 1] && t[i] == chain[i];
    }
    FirstFaultIs(digest, t, k);
  }

  /**
   * Changing the data of block `k >= 1` and refreshing its hash passes the
   * self-hash check at `k` but is caught by the link check at `k + 1`,
   * whose stored previous hash still names the old content.
   */
  lemma TamperWithRehashDetected(digest: Digest, chain: seq<Block>, k: nat, data: seq<Entry>)
    requires ChainValid(digest, chain)
    requires 1 <= k && k + 1 < |chain| && data != chain[k].data
    requires NoCollision(digest, Fields(chain[k].(data := data)), Fields(chain[k]))
    ensures FirstFault(digest, chain[k := Rehash(digest, chain[k].(data := data))], 1) == Some(BrokenLink(k + 1))
  {
    var forged := Rehash(digest, chain[k].(data := data));
    var t := chain[k := forged];
    assert PairValid(digest, chain[k - 1], chain[k]);
    assert PairValid(digest, chain[k], chain[k + 1]);
    DistinctContentDistinctHash(digest, forged, chain[k]);
    forall i | 1 <= i < k + 1
      ensures PairValid(digest, t[i - 1], t[i])
    {
      if i < k {
        assert t[i - 1] == chain[i - 1] && t[i] == chain[i];
      } else {
        assert t[i - 1] == chain[k - 1] && t[i] == forged;
      }
    }
    assert t[k + 1] == chain[k + 1];
    FirstFaultIs(digest, t, k + 1);
  }

  /**
   * Block 0 is trusted as the root: any block with the same stored hash can
   * replace it and the chain still validates.
   */
  lemma GenesisContentUnchecked(digest: Digest, chain: seq<Block>, g: Block)
    requires ChainValid(digest, chain) && |chain| >= 1 && g.hash == chain[0].hash
    ensures ChainValid(digest, chain[0 := g])
  {
  }

  /**
   * The last block has no successor whose link could expose it: replacing
   * it by any re-hashed block that keeps its previous hash (other data,
   * another timestamp, a nonce that solves no puzzle) still validates.
   */
  lemma LastBlockForgeryUndetected(digest: Digest, chain: seq<Block>, b: Block)
    requires ChainValid(digest, chain) && |chain| >= 2
    requires b.previousHash == chain[|chain| - 1].previousHash
    ensures ChainValid(digest, chain[|chain| - 1 := Rehash(digest, b)])
  {
  }
}
