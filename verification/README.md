# GJChain ledger engine in Dafny

A model of the proof-of-work ledger engine in `gjchain.js`: the `Block`
record with its digest and nonce search, and the `GJChain` engine that
loads the chain from the document store (synthesising the genesis block
when the store is empty), queues transfers after a balance check, mines
the pool into a block and settles it, and accepts blocks received from
peers.

- `text.dfy` (module `Text`): the JavaScript string behaviours the engine
  relies on: `repeat`, `substring(0, n)` / `slice(0, n)`, and the decimal
  spelling of a number concatenated with a string.
- `blocks.dfy` (module `Blocks`): transactions, block records, the digest
  (`calculateHash`), the difficulty test, the genesis block, the
  acceptance rule for received blocks, and class `Block` with its
  constructor and `MineBlock`.
- `store.dfy` (module `Store`): the block collection as a map from index to
  block record, its ascending scan (`orderBy('index')`), the genesis
  fallback of `loadChain`, and what appending to it does.
- `wallets.dfy` (module `Wallets`): balances with Firestore-style increment,
  the settlement of a pool, the sum of all balances, the
  `addTransaction` test, and wallet address derivation.
- `node.dfy` (module `Node`): class `GJChain` with the cached `chain`,
  `pendingTransactions`, the two store collections (`blocks`,
  `balances`) and an `outbox` of broadcast messages, and its operations.

SHA-256 (hex) and `JSON.stringify` are not modelled. They are the two
fields of a `Crypto` value, passed to the engine's constructor. Every
property below holds for every choice of these two functions. The time
stamp that `new Date().toISOString()` supplies is a parameter of
`MinePendingTransactions`. The public key that RSA key generation supplies
is a parameter of `CreateWallet`.

The nonce search has no bound in the source. `MineBlock` takes a `fuel`
bound. When it returns `found == false`, the source would still be
searching. `MinePendingTransactions` then returns `None` and changes
nothing except the genesis write of its `loadChain` step.

Behaviours of the code worth noting:

- Transaction amounts are not checked to be positive. `addTransaction`
  only compares `balance < amount`.
- `addTransaction` reads the sender's stored balance directly; it does not
  reload the chain, and earlier pending transfers from the same sender are
  not subtracted.
- A mined block is pushed onto the cached `chain` as it is. That cache is
  not the chain that was just reloaded.
- The store is written after the cache is extended. In a model where every
  call is one atomic step, the order makes no difference.
- A received block is checked only for its link to the reloaded tail and for
  its hash being its own digest. A block that links to the tail but carries
  an index that is already stored (0 included, which holds the genesis
  block) overwrites the stored block under that index, while the cached
  chain still grows by one.

## Model

| member | source | states |
|---|---|---|
| `Text.Repeat` | gjchain.js:49 | `'0'.repeat(n)` has length n and every character is the given one |
| `Text.Prefix` | gjchain.js:50 | `substring(0, n)` / `slice(0, n)` is the first n characters, or the whole string when it is shorter |
| `Text.NatToString` | gjchain.js:44 | the spelling a number gets when concatenated with a string is non-empty and made of decimal digits; `ParseNatToString` shows it loses nothing |
| `Blocks.BlockHash` | gjchain.js:42-46 | the hex SHA-256 of index, timestamp, JSON of data, previousHash, miner and nonce concatenated without separators; `HashIgnoresFieldBoundaries` shows what that concatenation merges |
| `Blocks.Block.CalculateHash` | gjchain.js:42-46 | `calculateHash()` on the block object is `BlockHash` of its current fields; the constructor and `MineBlock` keep `hash` equal to it |
| `Blocks.MeetsDifficulty` | gjchain.js:49-50 | the loop test of `mineBlock`; `MeetsDifficultyIff` states exactly when it holds |
| `Blocks.Genesis` | gjchain.js:87 | the genesis block with its fixed fields, nonce 0 and its own digest as hash; `GenesisSound` shows it is self-consistent |
| `Blocks.Accepts` | gjchain.js:148 | a received block is accepted exactly when it links to the reloaded tail and its hash is its own digest; `HandleMessage` is stated in terms of it |
| `Wallets.CanSubmit` | gjchain.js:97 | a transfer is queued exactly when the sender has a record whose balance is not below the amount; `AddTransaction` is stated in terms of it and `PendingMayOverdraw` shows its gap |
| `Wallets.SettleOne` | gjchain.js:108-109 | one transaction debits its sender, then credits its receiver, each through `Increment` |
| `Wallets.Settle` | gjchain.js:107-110 | the pool settled in order; `SettleBalance` gives each resulting balance and `SettleConserves` the unchanged total |
| `Wallets.Address` | gjchain.js:78 | "gj" and the first 16 characters of the hex SHA-256 of the public key; `AddressShape` and `AddressCollision` state its shape and when two keys collide |
| `Store.ReloadExtendWellLinked` | gjchain.js:102-114 | from an empty or well-linked store, reloading and storing a block with the next index and the tail's hash leaves a non-empty, well-linked store |
| `Node.MineKeepsLedgerLinked` | gjchain.js:101-118 | `minePendingTransactions` on an empty or well-linked store leaves it non-empty and well linked, whether or not the search finished |
| `Blocks.Block.constructor` | gjchain.js:32-40 | a new block has the given fields, nonce 0, and hash equal to the digest of its own fields |
| `Blocks.Block.MineBlock` | gjchain.js:48-54 | index, timestamp, data, previousHash and miner are unchanged; the nonce only goes up, one per step; on success the hash meets the target and, when the nonce moved, equals the recomputed digest; every nonce skipped fails the target; if the bound runs out, the nonce has grown by exactly the bound |
| `Node.MineNewBlock` | gjchain.js:104-105 | constructing then mining yields a block with the given fields whose hash is its own digest, meets the target, and whose nonce is the smallest one from 0 that does; `None` only when no nonce up to the bound meets the target |
| `Blocks.MeetsDifficultyIff` | gjchain.js:49-50 | the `substring`/`repeat` test holds exactly when the hash has at least `difficulty` characters and the first `difficulty` are all '0' |
| `Blocks.HashIgnoresFieldBoundaries` | gjchain.js:44 | the fields are concatenated without separators, so (index 1, timestamp "2"+t) and (index 12, timestamp t) have the same digest, whatever SHA-256 and JSON serialisation are |
| `Text.ParseNatToString` | gjchain.js:44 | the decimal spelling that index and nonce get in the digest input reads back as the same number |
| `Text.NatToStringInjective` | gjchain.js:44 | two numbers with the same decimal spelling are equal |
| `Blocks.GenesisSound` | gjchain.js:87 | the genesis block's hash is its own digest, and the genesis block alone is a well-linked chain |
| `Blocks.WellLinkedSnoc` | gjchain.js:104 | a block with the next index and the tail's hash extends a well-linked chain to a well-linked chain |
| `Store.Ordered` | gjchain.js:85 | the ascending scan returns as many blocks as the store holds |
| `Store.OrderedSound` | gjchain.js:85 | every block the scan returns is a stored block, filed under its own index |
| `Store.OrderedComplete` | gjchain.js:85 | every stored block appears in the scan |
| `Store.OrderedSorted` | gjchain.js:85 | the scan is strictly ascending in index |
| `Store.OrderedAppend` | gjchain.js:114 | storing a block under an index above every stored index appends it to the end of the scan |
| `Store.Reload` | gjchain.js:84-92 | an empty store gets the genesis block under key 0 and then scans as exactly that block; a non-empty store is left as it is |
| `Store.ExtendWellLinked` | gjchain.js:102-114 | on a well-linked store, a block carrying index = chain length and previousHash = tail hash lands at the end of the scan, and the chain stays well linked |
| `Store.StaleIndexReplaces` | gjchain.js:148-150 | an accepted block whose index is already stored replaces that block: the stored chain keeps its length while the cache grows |
| `Wallets.Increment` | gjchain.js:108-111 | an increment moves one balance by the delta, creates a missing record, and leaves every other balance unchanged |
| `Wallets.SettleBalance` | gjchain.js:107-110 | after settlement each address's balance has changed by the net amount the pool moves into it |
| `Wallets.TotalIncrement` | gjchain.js:111 | an increment changes the sum of all balances by exactly its delta |
| `Wallets.SettleConserves` | gjchain.js:107-110 | settling a pool leaves the sum of all balances unchanged |
| `Wallets.PendingMayOverdraw` | gjchain.js:94-99 | two transfers of 8 from a wallet holding 10 both pass the check, and settling them leaves that wallet at -6 |
| `Wallets.AddressShape` | gjchain.js:78 | an address is "gj" followed by at most 16 characters; for a 64-character hex digest it is exactly 18 characters, the last 16 hex |
| `Wallets.AddressCollision` | gjchain.js:78 | two public keys share an address exactly when their digests agree on the first 16 characters |
| `Node.GJChain.constructor` | gjchain.js:58-65 | the engine starts with an empty cache, an empty pool and nothing broadcast, over the given store |
| `Node.GJChain.LoadChain` | gjchain.js:84-92 | an empty store receives the genesis block under key 0 and the result is exactly that block; otherwise the store is unchanged; the result is the stored blocks in ascending index order |
| `Node.GJChain.Init` | gjchain.js:67-70 | the cache becomes the chain `loadChain` returns |
| `Node.GJChain.CreateWallet` | gjchain.js:78-81 | the address is the derived one, and its record is set to balance 0, replacing any previous record |
| `Node.GJChain.AddTransaction` | gjchain.js:94-99 | fails exactly when the sender has no record or its balance is below the amount, and the pool is then unchanged; otherwise exactly `{from, to, amount}` is appended to the pool; other pending transfers are not considered |
| `Node.GJChain.SettlePool` | gjchain.js:107-111 | balances become the pool settled in order plus the reward to the miner; the sum of all balances grows by exactly the reward |
| `Node.GJChain.BroadcastBlock` | gjchain.js:140-142 | one block message is added to what is sent to peers |
| `Node.GJChain.CommitBlock` | gjchain.js:113-116 | the block is appended to the cache and stored under its index, the pool is emptied and the block is broadcast |
| `Node.GJChain.MinePendingTransactions` | gjchain.js:101-118 | the block has index = reloaded chain length, previousHash = reloaded tail hash, data = the pool, the given miner and time stamp, and is mined with the smallest nonce; balances are the settled pool plus the reward (sum +10); cache, store, pool and outbox are updated as in `CommitBlock`; if the search does not end, nothing but the genesis write happens |
| `Node.GJChain.HandleMessage` | gjchain.js:144-153 | a chain message changes nothing; a block message reloads the chain, and the block is appended to the cache and stored under its own index exactly when it links to the reloaded tail and its hash is its own digest; otherwise cache and store stay as reloaded; index and difficulty are not checked |
| `Node.TransferAndMine` | gjchain.js:94-118 | from an empty store and a wallet holding 15, queuing 5 to a second wallet and mining yields the chain [genesis, block] with the block linked to genesis, and balances 10, 5 and 10 for sender, receiver and miner |

## Left out

- Express routes, static files and server start-up (gjchain.js:28-29, 159-180): HTTP plumbing.
- Firebase credentials and Firestore set-up (gjchain.js:8-26). The store is modelled as two in-memory maps.
- Firestore semantics: `update` on a missing wallet document fails in the real library, and gjchain.js passes `{merge: true}` to `update` (lines 109, 111). The model treats a missing balance as 0 and creates the record. This is the intended reading, not what the library guarantees. Persistence failures are not modelled.
- The block store is keyed by index. Firestore orders by the `index` field; the model orders by key. The two agree because every write in gjchain.js stores a block under its own index. The constructor requires the initial store to have this shape.
- WebSocket server, peer connections, the `'chain'` message sent on connect, and its missing handler (gjchain.js:120-138). `broadcastBlock` is modelled as appending one message to `outbox`, whatever the number of peers.
- RSA key generation and the in-memory `wallets` map of `createWallet` (gjchain.js:73-77, 79). Only the address formula and the persisted balance record are modelled.
- SHA-256 and `JSON.stringify` are parameters with no properties assumed. The round trip of a block through JSON on the wire is taken to preserve its fields.
- Numbers: indices and nonces are natural numbers spelled in plain decimal. JavaScript switches to exponent notation at 10^21 and loses precision above 2^53. Amounts and balances are unbounded integers, not doubles.
- `Block.MineBlock`: the search runs for at most `fuel` steps. Non-termination, and the blocking of the event loop while mining, are not captured.
- Concurrency: each asynchronous method is one atomic step. Left out are interleavings between mining and receiving, and pushes onto the pool during the settlement awaits. Those pushes would also reach the block's `data`, because the block shares the pool array. Also left out is a crash between settlement and the block write.
- The cached chain holds block values, not `Block` objects. No block is changed after it is pushed, so aliasing plays no part.
