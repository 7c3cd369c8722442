/** The ledger engine (class `GJChain` of gjchain.js): the cached chain, the
    transaction pool, the two collections of the document store, and the
    messages broadcast to peers. Each asynchronous method is one atomic step. */
module Node {
  import opened Text
  import opened Blocks
  import opened Store
  import opened Wallets

  datatype Option<T> = None | Some(value: T)

  /** The gossip wire format `{type, data}` as a tagged union. */
  datatype Message = ChainMessage(chain: seq<BlockDoc>) | BlockMessage(block: BlockDoc)

  /** The outcome of `addTransaction`: queued, or the insufficient-balance error. */
  datatype Submission = Queued | InsufficientFunds

  /** `new Block(...)` followed by `mineBlock(difficulty)`, with at most
      `fuel` nonce increments; `None` when the search is not over by then. */
  method MineNewBlock(c: Crypto, index: nat, timestamp: string, data: seq<Transaction>,
                      previousHash: string, miner: string, difficulty: nat, fuel: nat)
    returns (r: Option<BlockDoc>)
    ensures r.Some? ==>
              && r.value.index == index && r.value.timestamp == timestamp && r.value.data == data
              && r.value.previousHash == previousHash && r.value.miner == miner
              && Mined(c, r.value, difficulty)
    ensures r.None? ==>
              forall n :: 0 <= n <= fuel ==>
                !MeetsDifficulty(BlockHash(c, index, timestamp, data, previousHash, miner, n), difficulty)
  {
    var block := new Block(c, index, timestamp, data, previousHash, miner);
    ghost var hash0 := block.hash;
    var found := block.MineBlock(difficulty, fuel);
    var doc := block.ToDoc();
    if !found {
      forall n | 0 <= n <= fuel
        ensures !MeetsDifficulty(BlockHash(c, index, timestamp, data, previousHash, miner, n), difficulty)
      {
        assert BlockHash(c, index, timestamp, data, previousHash, miner, n) == block.HashWith(n);
      }
      return None;
    }
    assert Mined(c, doc, difficulty) by {
      assert hash0 == HashAtNonce(c, doc, 0);
      forall n | 0 <= n < doc.nonce
        ensures !MeetsDifficulty(HashAtNonce(c, doc, n), difficulty)
      {
        assert HashAtNonce(c, doc, n) == block.HashWith(n);
      }
    }
    r := Some(doc);
  }

  class GJChain {
    const crypto: Crypto
    const difficulty: nat := 4
    const miningReward: int := 10
    /** the in-memory copy of the chain */
    var chain: seq<BlockDoc>
    var pendingTransactions: seq<Transaction>
    /** the `gjchain` collection, keyed by block index */
    var blocks: map<nat, BlockDoc>
    /** the `balance` field of the `wallets` collection, keyed by address */
    var balances: map<string, int>
    /** the block messages handed to the peer connections, oldest first */
    var outbox: seq<Message>

    ghost predicate Valid()
      reads this
    {
      KeyedByIndex(blocks)
    }

    /** The chain `loadChain` would return now. */
    ghost function Loaded(): (s: seq<BlockDoc>)
      reads this
      requires Valid()
      ensures |s| > 0
    {
      Ordered(Reload(crypto, blocks))
    }

    /** A fresh engine over a store that already holds `blocks` and `balances`. */
    constructor (crypto: Crypto, blocks: map<nat, BlockDoc>, balances: map<string, int>)
      requires KeyedByIndex(blocks)
      ensures Valid()
      ensures this.crypto == crypto && this.blocks == blocks && this.balances == balances
      ensures chain == [] && pendingTransactions == [] && outbox == []
    {
      this.crypto := crypto;
      this.blocks := blocks;
      this.balances := balances;
      this.chain := [];
      this.pendingTransactions := [];
      this.outbox := [];
    }

    /** Reads the chain from the store in ascending index order; an empty
        store first receives the genesis block under key 0. */
    method LoadChain() returns (loaded: seq<BlockDoc>)
      requires Valid()
      modifies this`blocks
      ensures Valid()
      ensures blocks == Reload(crypto, old(blocks))
      ensures loaded == Ordered(blocks)
      ensures old(blocks) == map[] ==> loaded == [Genesis(crypto)]
      ensures old(blocks) != map[] ==> blocks == old(blocks)
    {
      if blocks == map[] {
        var genesis := new Block(crypto, 0, "01/04/2025", [], "0", "gjGenesis");
        var doc := genesis.ToDoc();
        blocks := blocks[0 := doc];
        loaded := [doc];
      } else {
        loaded := Ordered(blocks);
      }
    }

    /** `init` without the peer set-up: the cache becomes the stored chain. */
    method Init()
      requires Valid()
      modifies this`blocks, this`chain
      ensures Valid()
      ensures blocks == Reload(crypto, old(blocks))
      ensures chain == Ordered(blocks)
    {
      chain := LoadChain();
    }

    /** The persisted part of `createWallet` for a given public key: the
        derived address gets a wallet record with balance 0, replacing any
        record already stored under it. */
    method CreateWallet(publicKey: string) returns (address: string)
      modifies this`balances
      ensures address == Address(crypto, publicKey)
      ensures balances == old(balances)[address := 0]
    {
      address := "gj" + Prefix(crypto.sha256Hex(publicKey), 16);
      balances := balances[address := 0];
    }

    /** Queues a transfer when the sender's stored balance covers it. Other
        pending transfers from the same sender are not taken into account. */
    method AddTransaction(fromAddress: string, toAddress: string, amount: int) returns (r: Submission)
      modifies this`pendingTransactions
      ensures r == (if CanSubmit(balances, fromAddress, amount) then Queued else InsufficientFunds)
      ensures r == Queued ==>
                pendingTransactions == old(pendingTransactions) + [Transaction(fromAddress, toAddress, amount)]
      ensures r == InsufficientFunds ==> pendingTransactions == old(pendingTransactions)
    {
      if fromAddress !in balances || balances[fromAddress] < amount {
        return InsufficientFunds;
      }
      pendingTransactions := pendingTransactions + [Transaction(fromAddress, toAddress, amount)];
      r := Queued;
    }

    /** The settlement loop of `minePendingTransactions`: each transaction in
        pool order debits its sender and credits its receiver, then the miner
        is credited the reward. */
    method SettlePool(txs: seq<Transaction>, minerAddress: string)
      modifies this`balances
      ensures balances == Increment(Settle(old(balances), txs), minerAddress, miningReward)
      ensures Total(balances) == Total(old(balances)) + miningReward
    {
      for i := 0 to |txs|
        invariant balances == Settle(old(balances), txs[..i])
      {
        assert txs[..i + 1][..i] == txs[..i];
        balances := Increment(balances, txs[i].from, -txs[i].amount);
        balances := Increment(balances, txs[i].to, txs[i].amount);
      }
      assert txs[..|txs|] == txs;
      SettleConserves(old(balances), txs);
      TotalIncrement(balances, minerAddress, miningReward);
      balances := Increment(balances, minerAddress, miningReward);
    }

    /** Hands a block message to every peer connection. */
    method BroadcastBlock(block: BlockDoc)
      modifies this`outbox
      ensures outbox == old(outbox) + [BlockMessage(block)]
    {
      outbox := outbox + [BlockMessage(block)];
    }

    /** The tail of `minePendingTransactions`: record the block in the cache,
        store it under its index, empty the pool and broadcast the block. */
    method CommitBlock(doc: BlockDoc)
      requires Valid()
      modifies this`chain, this`blocks, this`pendingTransactions, this`outbox
      ensures Valid()
      ensures chain == old(chain) + [doc] && blocks == old(blocks)[doc.index := doc]
      ensures pendingTransactions == [] && outbox == old(outbox) + [BlockMessage(doc)]
    {
      chain := chain + [doc];
      blocks := blocks[doc.index := doc];
      pendingTransactions := [];
      BroadcastBlock(doc);
    }

    /** Builds the next block on the reloaded tail from the whole pool, mines
        it, settles the pool and the reward, then records, stores and
        broadcasts the block and empties the pool. `None` means the nonce
        search used up `fuel`: the source would still be searching. */
    method MinePendingTransactions(minerAddress: string, timestamp: string, fuel: nat)
      returns (r: Option<BlockDoc>)
      requires Valid()
      modifies this
      ensures Valid()
      ensures r.None? ==>
                && blocks == Reload(crypto, old(blocks))
                && chain == old(chain) && pendingTransactions == old(pendingTransactions)
                && balances == old(balances) && outbox == old(outbox)
      ensures r.Some? ==>
                var b := r.value;
                var loaded := old(Loaded());
                && b.index == |loaded|
                && b.timestamp == timestamp
                && b.data == old(pendingTransactions)
                && b.previousHash == loaded[|loaded| - 1].hash
                && b.miner == minerAddress
                && Mined(crypto, b, difficulty)
      ensures r.Some? ==>
                && balances == Increment(Settle(old(balances), old(pendingTransactions)), minerAddress, miningReward)
                && Total(balances) == Total(old(balances)) + miningReward
      ensures r.Some? ==>
                && chain == old(chain) + [r.value]
                && blocks == Reload(crypto, old(blocks))[r.value.index := r.value]
                && pendingTransactions == []
                && outbox == old(outbox) + [BlockMessage(r.value)]
    {
      ghost var store0 := Reload(crypto, blocks);
      assert Ordered(store0) == old(Loaded());
      var loaded := LoadChain();
      assert loaded == Ordered(store0);
      var latest := loaded[|loaded| - 1];
      var mined := MineNewBlock(crypto, |loaded|, timestamp, pendingTransactions, latest.hash, minerAddress,
                                difficulty, fuel);
      if mined.None? {
        return None;
      }
      var doc := mined.value;
      SettlePool(pendingTransactions, minerAddress);
      CommitBlock(doc);
      r := Some(doc);
    }

    /** Handles a peer message. Only block messages are acted on: the chain is
        reloaded and the block is recorded and stored under its own index
        exactly when it links to the reloaded tail and its hash is its own
        digest. A block is never checked for its index or difficulty. */
    method HandleMessage(message: Message)
      requires Valid()
      modifies this`chain, this`blocks
      ensures Valid()
      ensures message.ChainMessage? ==> chain == old(chain) && blocks == old(blocks)
      ensures message.BlockMessage? ==>
                var loaded := old(Loaded());
                var b := message.block;
                if Accepts(crypto, loaded[|loaded| - 1], b) then
                  chain == old(chain) + [b] && blocks == Reload(crypto, old(blocks))[b.index := b]
                else
                  chain == old(chain) && blocks == Reload(crypto, old(blocks))
    {
      if message.BlockMessage? {
        ghost var store0 := Reload(crypto, blocks);
        assert Ordered(store0) == old(Loaded());
        var loaded := LoadChain();
        assert loaded == Ordered(store0);
        var newBlock := message.block;
        if newBlock.previousHash == loaded[|loaded| - 1].hash && newBlock.hash == HashOf(crypto, newBlock) {
          chain := chain + [newBlock];
          blocks := blocks[newBlock.index := newBlock];
        }
      }
    }
  }

  /** Mining keeps the stored ledger in the intended shape: from an empty or
      well-linked store, the store afterwards is non-empty and well linked,
      whether or not the nonce search finished. */
  method MineKeepsLedgerLinked(node: GJChain, minerAddress: string, timestamp: string, fuel: nat)
    returns (r: Option<BlockDoc>)
    requires node.Valid()
    requires node.blocks == map[] || WellLinked(Ordered(node.blocks))
    modifies node
    ensures node.Valid()
    ensures node.blocks != map[] && WellLinked(Ordered(node.blocks))
  {
    ghost var m := node.blocks;
    r := node.MinePendingTransactions(minerAddress, timestamp, fuel);
    if r.Some? {
      ReloadExtendWellLinked(node.crypto, m, r.value);
    } else if m == map[] {
      GenesisSound(node.crypto);
    }
  }

  /** A node starting from an empty block store and one funded wallet: a
      transfer of 5 is queued and a block is mined on top of the genesis
      block, moving 5 from sender to receiver and paying the miner. */
  method TransferAndMine(c: Crypto, sender: string, receiver: string, miner: string,
                         timestamp: string, fuel: nat)
    returns (mined: Option<BlockDoc>, node: GJChain)
    requires sender != receiver && sender != miner && receiver != miner
    ensures |node.chain| >= 1 && node.chain[0] == Genesis(c)
    ensures mined.Some? ==>
              && node.chain == [Genesis(c), mined.value]
              && mined.value.index == 1
              && mined.value.previousHash == Genesis(c).hash
              && mined.value.data == [Transaction(sender, receiver, 5)]
              && Balance(node.balances, sender) == 10
              && Balance(node.balances, receiver) == 5
              && Balance(node.balances, miner) == 10
    ensures mined.None? ==> node.chain == [Genesis(c)] && node.pendingTransactions == [Transaction(sender, receiver, 5)]
  {
    node := new GJChain(c, map[], map[sender := 15]);
    node.Init();
    var submitted := node.AddTransaction(sender, receiver, 5);
    assert submitted == Queued;
    ghost var b0 := node.balances;
    mined := node.MinePendingTransactions(miner, timestamp, fuel);
    if mined.Some? {
      var txs := [Transaction(sender, receiver, 5)];
      SettleBalance(b0, txs, sender);
      SettleBalance(b0, txs, receiver);
      SettleBalance(b0, txs, miner);
    }
  }
}
