/**
 * One block of the ledger (class `Block` of block_chain.py) as a value:
 * five content fields and the stored hash that binds them.
 *
 * SHA-256 over the `json.dumps(..., sort_keys=True)` rendering of the
 * five fields is not modelled; it is the `Digest` a ledger is given. The
 * canonical encoding makes it a function of the field values alone, which
 * is exactly what a function of type `Content -> string` is.
 */
module Blocks {
  import opened Options

  /** An amount as Python holds it: `0` in the genesis entry is an int, `1.0` and `10.5` are floats. */
  datatype Amount = IntAmount(whole: int) | FloatAmount(value: real)

  /** A transaction dict; the genesis entry has no `timestamp` key. */
  datatype Entry = Entry(sender: string, recipient: string, amount: Amount, timestamp: Option<real>)

  /** The five fields that `calculate_hash` serialises. */
  datatype Content = Content(index: nat, timestamp: real, data: seq<Entry>, previousHash: string, nonce: nat)

  /** SHA-256 of the canonical serialisation of a block's content. */
  type Digest = Content -> string

  datatype Block = Block(index: nat, timestamp: real, data: seq<Entry>, previousHash: string, nonce: nat, hash: string)

  /** What the stored hash is computed over: every field but the hash itself. */
  function Fields(b: Block): Content {
    Content(b.index, b.timestamp, b.data, b.previousHash, b.nonce)
  }

  /** `Block.calculate_hash`: recomputes the digest from the block's current fields. */
  function CalculateHash(digest: Digest, b: Block): (h: string)
    ensures h == digest(Content(b.index, b.timestamp, b.data, b.previousHash, b.nonce))
  {
    digest(Fields(b))
  }

  /** A block is intact when its stored hash matches its content. */
  predicate Intact(digest: Digest, b: Block) {
    b.hash == CalculateHash(digest, b)
  }

  /** The two contents `x` and `y` do not collide: equal digests only for equal contents. */
  predicate NoCollision(digest: Digest, x: Content, y: Content) {
    digest(x) == digest(y) ==> x == y
  }

  /** `calculate_hash` is deterministic: it depends on the five hashed fields and on nothing else. */
  lemma HashDeterminedByFields(digest: Digest, a: Block, b: Block)
    requires Fields(a) == Fields(b)
    ensures CalculateHash(digest, a) == CalculateHash(digest, b)
  {
  }

  /** `Block.__init__`: stores the given fields and sets the hash from them. */
  function NewBlock(digest: Digest, index: nat, timestamp: real, data: seq<Entry>, previousHash: string, nonce: nat := 0): (b: Block)
    ensures Fields(b) == Content(index, timestamp, data, previousHash, nonce)
    ensures Intact(digest, b)
  {
    Block(index, timestamp, data, previousHash, nonce, digest(Content(index, timestamp, data, previousHash, nonce)))
  }

  /** `block.hash = block.calculate_hash()`: refreshes the stored hash and nothing else. */
  function Rehash(digest: Digest, b: Block): (r: Block)
    ensures Fields(r) == Fields(b) && Intact(digest, r)
    ensures Intact(digest, b) ==> r == b
  {
    b.(hash := CalculateHash(digest, b))
  }

  /** When their contents do not collide, two intact blocks share a hash exactly when they share content. */
  lemma DistinctContentDistinctHash(digest: Digest, a: Block, b: Block)
    requires NoCollision(digest, Fields(a), Fields(b))
    requires Intact(digest, a) && Intact(digest, b)
    ensures a.hash == b.hash <==> Fields(a) == Fields(b)
  {
  }
}
