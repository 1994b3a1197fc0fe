# Hash-linked ledger

A model of the core of a small proof-of-work blockchain demo (`T255-CODE.py`).
A `Block` has an index, a timestamp, payload data, the previous block's hash, a
nonce and its own hash. The hash is SHA-256 over a sorted-key JSON
serialisation of the five other fields. Mining advances the nonce until the
hash begins with `difficulty` zeros. The application keeps a list of blocks,
seeded with a mined genesis block (index 0, data `"Genesis Block"`, previous
hash `"0"`, difficulty 2). It appends mined blocks for non-empty input, and it
checks the chain in one pass from index 1. At each block that pass checks the
recomputed hash first and then the back-link, and it stops at the first
failure.

Files:

- `blocks.dfy`, module `Blocks`: the hashed fields (`Header`), the read-only
  view of a block (`BlockView`), the uninterpreted digest `Sha256`, the
  difficulty test `Meets` (written with Python's slice semantics through
  `Prefix` and `Target`), and the class `Block` with its constructor,
  `CalculateHash` and the mining loop `Mine`.
- `chain.dfy`, module `Chain`: the class `Blockchain` (the list `blocks` and
  the fixed `difficulty`), the genesis setup (its constructor), `AddBlock`,
  `VerifyChain`, and the pure specification `Verify` of the verification pass.
  It also holds the chain invariant `Sealed` and the lemmas about them.

`VerifyChain` returns `Valid`, `HashInvalid(i)` or `PrevMismatch(i)`, which
correspond to the three messages at lines 122, 127 and 131. `AddBlock` returns
`Added` or `NoData`, which correspond to lines 110 and 113. The `Message()`
functions give the source's texts. The current time and the entered data are
parameters. Block fields are public `var`s, as in the source, so client code
can overwrite them; `VerifyChain` is specified over whatever the fields hold at
the time of the call.

Interfaces that are not modelled directly:

- SHA-256 and `json.dumps`: modelled as `Sha256`, a module constant of type
  `Header -> string` with no definition. The model assumes only that equal
  headers give equal digests.
- `datetime.now()`: a `timestamp` parameter.
- The text-entry widget: a `data` parameter.
- The status label: the returned result.

Whitespace-only data is accepted, because line 99 tests only `if data:`.
The source's `add_block` returns nothing; `AddBlock` returns the status that
the label shows.

## Model

| member | source | states |
|---|---|---|
| Blocks.Block.constructor | T255-CODE.py:8-14 | a new block holds the given index, timestamp, data and previous hash, has nonce 0, and stores the hash of its own fields |
| Blocks.Block.CalculateHash | T255-CODE.py:16-24 | the hash is a deterministic digest of the five current fields (index, timestamp, data, previous hash, nonce); the stored hash plays no part, so equal fields always give equal digests |
| Blocks.Target | T255-CODE.py:27 | the target `'0' * difficulty` has exactly `difficulty` characters, all '0' |
| Blocks.Prefix | T255-CODE.py:28 | the slice `hash[:difficulty]` has length `difficulty`, or the whole length when the bound runs past the end, and agrees with the hash at each position |
| Blocks.Meets | T255-CODE.py:28 | the loop's exit test `hash[:d] == '0'*d` holds exactly when the hash has at least d characters and its first d are all '0' (both directions) |
| Blocks.Block.Mine | T255-CODE.py:26-31 | on exit the stored hash meets the target and is returned; only nonce and hash change; the nonce never decreases; a hash that meets the target on entry is left alone (check before increment); otherwise the new hash is the digest of the current fields, and the nonce is the first one after the old nonce whose digest meets the target; a block whose hash was consistent on entry ends mined from its old nonce |
| Chain.Blockchain.constructor | T255-CODE.py:48-54 | the chain has difficulty 2 and exactly one fresh block: index 0, data "Genesis Block", previous hash "0". That block is mined from nonce 0 at the difficulty, and the one-block chain satisfies the invariant |
| Chain.Blockchain.AddBlock | T255-CODE.py:97-113 | empty data leaves the block list unchanged and reports NoData; non-empty data appends exactly one fresh block with index = old length, the given data and timestamp, and previous hash = old last block's hash, mined from nonce 0 at the difficulty; earlier blocks and their fields are unchanged; the invariant is preserved |
| Chain.Blockchain.VerifyChain | T255-CODE.py:115-131 | the verdict equals the specification `Verify` of the current block fields, and is Valid whenever the chain satisfies the invariant |
| Chain.VerifyFrom | T255-CODE.py:116-128 | the pass from position i reports a hash mismatch only at a position i..len-1 whose stored hash differs from the recomputed one, a broken link only at such a position whose hash is correct and whose link differs from its predecessor's hash, and valid when no position is left |
| Chain.Verify | T255-CODE.py:115-131 | the whole pass reports failures only at positions 1..len-1, with the reported check failing there (hash first, then link), and reports valid for a chain of at most one block |
| Chain.Verdict.Message | T255-CODE.py:121-131 | the success text "Blockchain is valid!" is shown exactly for Valid; both failure texts begin "Chain invalid: " |
| Chain.MessageTellsKind | T255-CODE.py:121-131 | two verdicts show the same text exactly when they are of the same kind; the failing index is not part of the text |
| Chain.AddStatus.Message | T255-CODE.py:109-113 | "New block added and mined successfully!" is shown exactly for Added and "Please enter some data!" exactly for NoData |
| Chain.Blockchain.Snapshot | T255-CODE.py:135-142 | the read-only view has one entry per block, in chain order, each holding that block's six current fields (index, timestamp, data, previous hash, hash, nonce) |
| Chain.VerifyValidIff | T255-CODE.py:116-131 | the pass reports valid exactly when every block at positions 1..len-1 has a correct hash and links to its predecessor's hash |
| Chain.VerifyHashInvalidIff | T255-CODE.py:116-123 | the pass reports a hash mismatch at k exactly when 1 <= k < len, every block in 1..k-1 passes both checks, and block k's stored hash differs from its recomputed hash |
| Chain.VerifyPrevMismatchIff | T255-CODE.py:116-128 | the pass reports a broken link at k exactly when 1 <= k < len, every block in 1..k-1 passes, block k's hash is correct, and its previous hash differs from block k-1's hash (the hash check takes precedence at the same block) |
| Chain.VerifyIgnoresGenesis | T255-CODE.py:116-118 | two chains that differ only in the genesis block's fields other than its stored hash get the same verdict: block 0 itself is never checked |
| Chain.SealedVerifies | T255-CODE.py:115-131 | any chain with the invariant (index = position, stored hash = recomputed hash with the difficulty prefix, each link = predecessor's hash) passes verification |
| Chain.GenesisSealed | T255-CODE.py:52-54 | a one-block chain holding a mined block with index 0 satisfies the invariant |
| Chain.SealedAppend | T255-CODE.py:100-106 | appending a block with the next index, a link to the last hash, and a consistent hash with the difficulty prefix preserves the invariant |
| Chain.TamperedFieldsDetected | T255-CODE.py:120-123 | in a chain with the invariant, overwriting fields of a non-genesis block without rehashing gives a hash mismatch at exactly that block, provided the new fields do not hash to the old digest |
| Chain.RelinkedBlockDetected | T255-CODE.py:125-128 | in a chain with the invariant, replacing a non-genesis block with a self-consistent one whose previous hash is not its predecessor's hash gives a broken link at exactly that block |

## Left out

- The tkinter interface is not modelled: window setup, styles and colours, the display text (`update_display`), label styling, and reading and clearing the entry field. None of it holds chain state.
- `datetime.now()` is an input of the environment; it is the `timestamp` parameter of the block constructor and of `AddBlock`, and `genesisTime` for the genesis block.
- SHA-256 and JSON serialisation are foreign library code. `Sha256` is uninterpreted, so no output length (64 hex characters) and no collision resistance are assumed. The tamper lemmas take an explicit hypothesis that the altered fields hash differently.
- Blocks.Block.Mine: requires that the hash already meets the target, or that some later nonce reaches it. The source loops forever otherwise, for example when the difficulty exceeds the hash length; that non-terminating run is not modelled, and no bound on the nonce is proved.
- Chain.Blockchain.constructor: requires that some nonce seals the genesis block, for the same reason as Mine.
- Chain.Blockchain.AddBlock: requires, for non-empty data, that some nonce seals the new block, for the same reason as Mine.
- Difficulty, block indices and nonces are `nat`. Python's `'0' * d` and `hash[:d]` with a negative `d` are not modelled; the chain uses the constant 2. The source's public `index` and `nonce` fields could be overwritten with negative integers; the model cannot express that, so `TamperedFieldsDetected` covers only non-negative overwrites of those two fields.
- Indexing the last block of an empty list (`IndexError`) cannot happen here, because `Wellformed()` keeps at least the genesis block. Nothing in the core removes blocks.
- Verification of the genesis block's own hash or proof-of-work is not added, because the source does not perform it (`VerifyIgnoresGenesis` states the gap).
