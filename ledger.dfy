/**
 * Class `Blockchain` of block_chain.py: the chain of blocks, the queue of
 * pending transactions, the proof-of-work search, mining and validation.
 *
 * The ledger is given the two SHA-256 uses as functions (`digest` for block
 * content, `powDigest` for proof-of-work guesses) and is given each reading
 * of the clock as a `real` argument.
 */
module Ledger {
  import opened Options
  import opened Blocks
  import opened Decimal
  import opened Chain

  class Blockchain {
    const digest: Digest
    const powDigest: PowDigest
    var chain: seq<Block>
    var pending: seq<Entry>

    /** Genesis first, each block at its own index, every stored hash matching its content. */
    ghost predicate Valid()
      reads this
    {
      |chain| >= 1 && IsGenesis(chain[0]) && Indexed(chain) && AllIntact(digest, chain)
    }

    /** `Blockchain()`: empty lists, then the genesis block. */
    constructor (digest: Digest, powDigest: PowDigest, now: real)
      ensures this.digest == digest && this.powDigest == powDigest
      ensures Valid() && ChainValid(digest, chain)
      ensures |chain| == 1 && IsGenesis(chain[0]) && chain[0].timestamp == now
      ensures pending == []
    {
      this.digest := digest;
      this.powDigest := powDigest;
      chain := [];
      pending := [];
      new;
      CreateGenesisBlock(now);
    }

    /** `create_genesis_block`: appends the fixed first block (index 0 only when the chain was empty). */
    method CreateGenesisBlock(now: real)
      modifies this
      ensures |chain| == |old(chain)| + 1 && chain[..|old(chain)|] == old(chain)
      ensures Fields(chain[|old(chain)|]) == Content(|old(chain)|, now, [GenesisEntry], GenesisPreviousHash, GenesisNonce)
      ensures Intact(digest, chain[|old(chain)|])
      ensures pending == old(pending)
    {
      var genesis := CreateNewBlock(GenesisNonce, GenesisPreviousHash, [GenesisEntry], now);
    }

    /** `last_block`: the most recently appended block. */
    function LastBlock(): (b: Block)
      reads this
      requires |chain| >= 1
      ensures b == chain[|chain| - 1]
      ensures Indexed(chain) ==> b.index + 1 == |chain| && forall i :: 0 <= i < |chain| ==> chain[i].index <= b.index
    {
      chain[|chain| - 1]
    }

    /** `create_new_block`: builds a block at the next index, refreshes its hash and appends it. */
    method CreateNewBlock(nonce: nat, previousHash: string, data: seq<Entry>, now: real) returns (block: Block)
      modifies this
      ensures Fields(block) == Content(|old(chain)|, now, data, previousHash, nonce)
      ensures Intact(digest, block)
      ensures chain == old(chain) + [block]
      ensures pending == old(pending)
      ensures old(Valid()) ==> Valid()
    {
      block := NewBlock(digest, |chain|, now, data, previousHash, nonce);
      block := Rehash(digest, block);
      chain := chain + [block];
    }

    /**
     * `proof_of_work`: tries nonces 0, 1, 2, ... and returns the first whose
     * guess digest meets the target.
     */
    method ProofOfWork(lastHash: string) returns (nonce: nat)
      requires Solvable(powDigest, lastHash)
      ensures Solves(powDigest, lastHash, nonce)
      ensures forall m: nat :: m < nonce ==> !Solves(powDigest, lastHash, m)
    {
      ghost var solution: nat :| Solves(powDigest, lastHash, solution);
      nonce := 0;
      while true
        invariant nonce <= solution
        invariant forall m: nat :: m < nonce ==> !Solves(powDigest, lastHash, m)
        decreases solution - nonce
      {
        var guess := lastHash + NatToString(nonce);
        var guessHash := powDigest(guess);
        if SlicePrefix(guessHash, |DifficultyTarget|) == DifficultyTarget {
          return;
        }
        nonce := nonce + 1;
      }
    }

    /**
     * `mine_pending_transactions`: seals the pending queue into a new block
     * linked to the tail, then restarts the queue with the miner's reward,
     * which therefore waits for the next block.
     */
    method MinePendingTransactions(miner: string, blockTime: real, rewardTime: real) returns (newBlock: Block)
      requires |chain| >= 1
      requires Solvable(powDigest, LastBlock().hash)
      modifies this
      ensures old(Valid()) ==> Valid()
      ensures chain == old(chain) + [newBlock]
      ensures Fields(newBlock) == Content(|old(chain)|, blockTime, old(pending), old(LastBlock()).hash, newBlock.nonce)
      ensures Intact(digest, newBlock)
      ensures Solves(powDigest, old(LastBlock()).hash, newBlock.nonce)
      ensures forall m: nat :: m < newBlock.nonce ==> !Solves(powDigest, old(LastBlock()).hash, m)
      ensures pending == [RewardEntry(miner, rewardTime)]
      ensures old(ChainValid(digest, chain)) ==> ChainValid(digest, chain)
    {
      var transactionsToMine := pending;
      var lastBlock := LastBlock();
      var nonce := ProofOfWork(lastBlock.hash);
      ghost var before := chain;
      newBlock := CreateNewBlock(nonce, lastBlock.hash, transactionsToMine, blockTime);
      if ChainValid(digest, before) {
        AppendLinkedKeepsValid(digest, before, newBlock);
      }
      pending := [];
      var nextIndex := AddTransaction(RewardSender, miner, MiningReward, rewardTime);
    }

    /**
     * `add_transaction`: queues an entry stamped with the clock and returns
     * the index of the block it is meant for.
     */
    method AddTransaction(sender: string, recipient: string, amount: Amount, now: real) returns (nextIndex: nat)
      requires |chain| >= 1
      modifies this
      ensures pending == old(pending) + [Entry(sender, recipient, amount, Some(now))]
      ensures chain == old(chain)
      ensures nextIndex == chain[|chain| - 1].index + 1
      ensures Indexed(chain) ==> nextIndex == |chain|
      ensures old(Valid()) ==> Valid()
    {
      pending := pending + [Entry(sender, recipient, amount, Some(now))];
      nextIndex := LastBlock().index + 1;
    }

    /**
     * `is_chain_valid`: walks the pairs from index 1 and stops at the first
     * block whose hash is stale or whose link is broken.
     */
    method IsChainValid() returns (ok: bool)
      ensures ok <==> ChainValid(digest, chain)
      ensures ok <==> FirstFault(digest, chain, 1) == None
    {
      var i := 1;
      while i < |chain|
        invariant 1 <= i
        invariant forall j :: 1 <= j < i && j < |chain| ==> PairValid(digest, chain[j - 1], chain[j])
      {
        var currentBlock := chain[i];
        var previousBlock := chain[i - 1];
        if currentBlock.hash != CalculateHash(digest, currentBlock) {
          return false;
        }
        if currentBlock.previousHash != previousBlock.hash {
          return false;
        }
        i := i + 1;
      }
      return true;
    }
  }
}
