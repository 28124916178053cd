# A verified model of a minimal proof-of-work ledger

This project models `block_chain.py`, a small in-memory blockchain. The
`Block` class holds an index, a timestamp, a list of transactions, the
previous block's hash, a nonce and a SHA-256 hash over those five fields.
The `Blockchain` class keeps two lists. `chain` is append-only and starts
with a genesis block. `pending_transactions` is a queue that each mining
round seals into a block and then restarts with the miner's reward. Mining
runs a brute-force proof-of-work search. `is_chain_valid` re-checks the
hash of every block after the genesis block, and its link to its
predecessor.

Layout:

- `options.dfy`: module `Options`, the optional value used for the missing `timestamp` of the genesis entry.
- `decimal.dfy`: module `Decimal`, Python's `str` of a nonce, with its inverse.
- `block.dfy`: module `Blocks`, the entry and block records, `calculate_hash` and block construction.
- `chain.dfy`: module `Chain`, the ledger's constants, the proof-of-work target, and what the validator accepts. It also holds the tamper-detection lemmas.
- `ledger.dfy`: module `Ledger`, the `Blockchain` class. Its fields are `chain: seq<Block>` and `pending: seq<Entry>`, and its methods update them in place.
- `scenario.dfy`: module `Scenario`, the file's demo run as a verified client of the class.

Blocks are values here. In the source the only updates to a block are two.
`create_new_block` recomputes the hash, which changes nothing. The demo
mutates block 1 by tampering. The model replaces the block at that position
with an altered value.

The two SHA-256 uses are given to a ledger when it is constructed:

- `digest: Content -> string` stands for SHA-256 over the `json.dumps(..., sort_keys=True)` rendering of a block's five fields. The sorted-key encoding makes that a function of the field values alone.
- `powDigest: string -> string` stands for SHA-256 over a proof-of-work guess.

Tamper detection needs the digest not to collide. A digest cannot be
collision-free on all contents, because contents carry real-valued
timestamps and amounts, and there are more of those than strings. So each
lemma that needs it assumes only that the two contents it compares do not
collide (`NoCollision(digest, x, y)`).

The validator has two limits, both stated as lemmas:

- Nothing links to the last block. Replacing it by any re-hashed block that keeps its previous hash still validates (`Chain.LastBlockForgeryUndetected`).
- Block 0 is seen only through its stored hash (`Chain.GenesisContentUnchecked`).

`is_chain_valid` compares stored hashes and links only. It never checks that
a block's nonce solves the proof-of-work puzzle, even though the comment at
block_chain.py:147 speaks of a valid proof of work. The last-block lemma
covers that case too, because the replacement block may carry any nonce.

## Model

| member | source | states |
|---|---|---|
| `Blocks.NewBlock` | block_chain.py:10-16 | a new block stores exactly the five given fields (nonce 0 by default) and its hash equals `calculate_hash` of them |
| `Blocks.Rehash` | block_chain.py:74-75 | recomputing the hash changes no other field and leaves the block intact; on a block that is already intact (every block fresh from construction) it changes nothing |
| `Blocks.HashDeterminedByFields` | block_chain.py:18-29 | `calculate_hash` is deterministic: two blocks with the same five hashed fields get the same hash, whatever else differs |
| `Blocks.DistinctContentDistinctHash` | block_chain.py:18-29 | when their two contents do not collide, two intact blocks share a hash exactly when their five hashed fields are equal |
| `Decimal.NatToString` | block_chain.py:88 | the text of a nonce is non-empty, all decimal digits, starts with `0` only for the nonce 0 |
| `Decimal.ParseNatToString` | block_chain.py:88 | reading the text of a nonce back as a number gives the nonce |
| `Decimal.NatToStringInjective` | block_chain.py:88 | distinct nonces have distinct texts |
| `Chain.GuessesDistinct` | block_chain.py:85-94 | for one previous hash, every nonce the search tries gives a different guess string, so the search never hashes the same guess twice |
| `Chain.SlicePrefix` | block_chain.py:92 | Python's `s[:k]` has length `min(k, len(s))` and is a prefix of `s` |
| `Chain.MeetsTarget` | block_chain.py:92 | the difficulty check holds exactly when the digest has at least four characters and the first four are `0` |
| `Chain.FirstFault` | block_chain.py:141-157 | the validator loop from a given index returns no fault exactly when every pair from there passes both checks. A reported fault is at the first failing pair. It is a stale hash exactly when that block's own hash fails, and otherwise a broken link |
| `Chain.FirstFaultIs` | block_chain.py:143-155 | if every earlier pair passes and pair `k` fails, the validator stops at `k`, with the self-hash check taking precedence over the link check |
| `Chain.AppendLinkedKeepsValid` | block_chain.py:105-113 | appending an intact block whose previous hash is the tail's hash keeps a valid chain valid |
| `Chain.TamperWithoutRehashDetected` | block_chain.py:147-150 | changing any hashed field of a block after genesis while keeping its stored hash makes validation fail at that block's self-hash check, provided the new content does not collide with the old |
| `Chain.TamperWithRehashDetected` | block_chain.py:209-216 | changing the data of block `k` and recomputing its hash makes validation fail at the link check of block `k + 1`, provided the new content does not collide with the old |
| `Chain.LastBlockForgeryUndetected` | block_chain.py:143-157 | replacing the last block by any re-hashed block with the same previous hash, with any data, timestamp or nonce, leaves a valid chain valid |
| `Chain.GenesisContentUnchecked` | block_chain.py:143 | the loop starts at 1, so block 0 is only checked through its stored hash: any replacement with the same hash still validates |
| `Ledger.Blockchain.constructor` | block_chain.py:45-49 | a new ledger has exactly one block, the genesis block (index 0, previous hash `"0"`, nonce 1, the single System-to-Genesis entry), an empty queue, and a valid chain |
| `Ledger.Blockchain.CreateGenesisBlock` | block_chain.py:51-58 | appends one intact block with previous hash `"0"`, nonce 1 and the genesis entry at the next index, keeping earlier blocks and the queue |
| `Ledger.Blockchain.LastBlock` | block_chain.py:60-63 | the last block of a non-empty chain; when blocks sit at their own indices it has the highest index, the chain length minus one |
| `Ledger.Blockchain.CreateNewBlock` | block_chain.py:65-78 | appends exactly one intact block whose index is the old chain length and returns it. Earlier blocks and the queue are unchanged and the ledger invariant is kept |
| `Ledger.Blockchain.ProofOfWork` | block_chain.py:80-94 | returns a nonce whose guess digest meets the target, and no smaller nonce does |
| `Ledger.Blockchain.MinePendingTransactions` | block_chain.py:96-127 | appends exactly one block. Its index is the old length, its previous hash the old tail's hash, its data the queue as it was on entry, and its nonce the least solving one. Its stored hash always matches its content, on any ledger. The queue ends as exactly the miner's reward entry. The ledger invariant is kept, and a valid chain stays valid |
| `Ledger.Blockchain.AddTransaction` | block_chain.py:129-139 | appends exactly one entry stamped with the clock to the end of the queue and leaves the chain alone. It returns the last block's index plus one, which is the chain length when blocks sit at their own indices |
| `Ledger.Blockchain.IsChainValid` | block_chain.py:141-157 | returns true exactly when every pair from index 1 has an intact current block linked to its predecessor, that is, when the loop finds no first fault |
| `Scenario.Demo` | block_chain.py:163-216 | the demo run yields a three-block chain. Block 1 holds the two first entries, and block 2 holds the first reward followed by the third entry. The chain validates. After block 1 is forged and re-hashed it no longer does, failing at block 2's link, provided the forged content does not collide with the original |

## Left out

- SHA-256 (`hashlib.sha256`) and the `json.dumps(..., sort_keys=True)` serialisation are foreign library code. They appear as the ledger's `digest` and `powDigest` function fields, and collision resistance appears as `NoCollision` on the two contents a lemma compares.
- `time()` is a clock read; each reading is a `real` argument (`now`, `blockTime`, `rewardTime`).
- Floating-point arithmetic: amounts and timestamps are exact `real` values. Python's distinction between the int amount `0` of the genesis entry and float amounts is kept (`IntAmount` and `FloatAmount`).
- The `print` narration and `Block.__repr__` are console output.
- Python lets a caller reach into a committed block and mutate its data list in place. The demo does this at block_chain.py:210-211. The model substitutes an altered block value at that position instead. Aliasing between a block's list and other lists is not modelled.
- The demo appends `{"manipulated": True}`, which is not a transaction dict. `Scenario.Demo` appends an arbitrary entry `forgedEntry` instead.
- `Ledger.Blockchain.ProofOfWork` requires that some nonce solves the puzzle (`Solvable`). The source loops forever otherwise, and whether a solution exists depends on SHA-256 outputs.
- `Ledger.Blockchain.MinePendingTransactions` carries the same `Solvable` precondition for the tail's hash, because it runs the search.
- `Ledger.Blockchain.LastBlock` requires a non-empty chain. The `IndexError` Python raises for `chain[-1]` on an empty list is not modelled, because no caller can reach it after construction.
- `Ledger.Blockchain.AddTransaction` and `Ledger.Blockchain.MinePendingTransactions` require a non-empty chain for the same reason, since they read `last_block`.
- Difficulty is the class constant `"0000"` (`DIFFICULTY_TARGET`), as in the code. A per-ledger difficulty setting is not modelled.
- The source's `add_transaction` returns `last_block.index + 1`, and the model does the same. That this equals the chain length is proved from the index invariant.
