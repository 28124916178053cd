/**
 * The run of block_chain.py's driver as a client of the ledger: two entries,
 * a mined block, a third entry, a second mined block, validation, then the
 * forgery of block 1 (its data extended and its hash refreshed).
 */
module Scenario {
  import opened Options
  import opened Blocks
  import opened Chain
  import opened Ledger

  method Demo(digest: Digest, pow: PowDigest, miner: string, forgedEntry: Entry, t: seq<real>)
    returns (chain: seq<Block>, validBefore: bool, validAfter: bool)
    requires forall h :: Solvable(pow, h)
    requires |t| == 8
    ensures |chain| == 3 && Indexed(chain)
    ensures chain[1].data == [Entry("Alice", "Bob", FloatAmount(10.5), Some(t[1])), Entry("Carol", "David", FloatAmount(5.0), Some(t[2]))]
    ensures chain[2].data == [RewardEntry(miner, t[4]), Entry("Eve", "Frank", FloatAmount(2.2), Some(t[5]))]
    ensures validBefore
    ensures NoCollision(digest, Fields(chain[1].(data := chain[1].data + [forgedEntry])), Fields(chain[1])) ==>
      && !validAfter
      && FirstFault(digest, chain[1 := Rehash(digest, chain[1].(data := chain[1].data + [forgedEntry]))], 1) == Some(BrokenLink(2))
  {
    var ledger := new Blockchain(digest, pow, t[0]);
    var next := ledger.AddTransaction("Alice", "Bob", FloatAmount(10.5), t[1]);
    next := ledger.AddTransaction("Carol", "David", FloatAmount(5.0), t[2]);
    var block := ledger.MinePendingTransactions(miner, t[3], t[4]);
    next := ledger.AddTransaction("Eve", "Frank", FloatAmount(2.2), t[5]);
    block := ledger.MinePendingTransactions(miner, t[6], t[7]);
    validBefore := ledger.IsChainValid();
    chain := ledger.chain;
    var forged := chain[1].data + [forgedEntry];
    assert |forged| > |chain[1].data|;
    if NoCollision(digest, Fields(chain[1].(data := forged)), Fields(chain[1])) {
      TamperWithRehashDetected(digest, chain, 1, forged);
    }
    ledger.chain := chain[1 := Rehash(digest, chain[1].(data := forged))];
    validAfter := ledger.IsChainValid();
  }
}
