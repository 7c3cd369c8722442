/** Blocks, their digest and the proof-of-work search (class `Block` of
    gjchain.js). */
module Blocks {
  import opened Text

  /** One pending or mined transfer, `{from, to, amount}`. */
  datatype Transaction = Transaction(from: string, to: string, amount: int)

  /** The two foreign functions the digest is built from: SHA-256 rendered
      as hex, and `JSON.stringify` of a block's transaction list. Nothing is
      assumed about either beyond being a function. */
  datatype Crypto = Crypto(sha256Hex: string -> string, stringify: seq<Transaction> -> string)

  /** A block as a plain record: what `{...block}` stores and what peers send. */
  datatype BlockDoc = BlockDoc(
    index: nat,
    timestamp: string,
    data: seq<Transaction>,
    previousHash: string,
    miner: string,
    nonce: nat,
    hash: string)

  /** The string `calculateHash` digests: the six fields concatenated with no
      separator, numbers in decimal and the transactions as JSON. */
  function Preimage(c: Crypto, index: nat, timestamp: string, data: seq<Transaction>,
                    previousHash: string, miner: string, nonce: nat): string
  {
    NatToString(index) + timestamp + c.stringify(data) + previousHash + miner + NatToString(nonce)
  }

  function BlockHash(c: Crypto, index: nat, timestamp: string, data: seq<Transaction>,
                     previousHash: string, miner: string, nonce: nat): string
  {
    c.sha256Hex(Preimage(c, index, timestamp, data, previousHash, miner, nonce))
  }

  /** The digest of `b`'s fields with its nonce replaced by `n`. */
  function HashAtNonce(c: Crypto, b: BlockDoc, n: nat): string {
    BlockHash(c, b.index, b.timestamp, b.data, b.previousHash, b.miner, n)
  }

  /** `calculateHash()` of a block record: its stored hash plays no part. */
  function HashOf(c: Crypto, b: BlockDoc): string {
    HashAtNonce(c, b, b.nonce)
  }

  /** `hash.substring(0, difficulty) === '0'.repeat(difficulty)` */
  predicate MeetsDifficulty(h: string, difficulty: nat) {
    Prefix(h, difficulty) == Repeat('0', difficulty)
  }

  /** The target test holds exactly when the digest is long enough and its
      first `difficulty` characters are all '0'. */
  lemma MeetsDifficultyIff(h: string, difficulty: nat)
    ensures MeetsDifficulty(h, difficulty) <==>
            difficulty <= |h| && forall i :: 0 <= i < difficulty ==> h[i] == '0'
  {
    var z := Repeat('0', difficulty);
    if difficulty <= |h| && forall i :: 0 <= i < difficulty ==> h[i] == '0' {
      assert Prefix(h, difficulty) == h[..difficulty];
      assert h[..difficulty] == z;
    }
    if MeetsDifficulty(h, difficulty) {
      assert |Prefix(h, difficulty)| == difficulty;
      forall i | 0 <= i < difficulty ensures h[i] == '0' {
        assert Prefix(h, difficulty)[i] == z[i];
      }
    }
  }

  /** The outcome of a completed proof-of-work search from nonce 0: the hash
      is the block's own digest, it meets the target, and no smaller nonce
      would have. */
  predicate Mined(c: Crypto, b: BlockDoc, difficulty: nat) {
    && b.hash == HashOf(c, b)
    && MeetsDifficulty(b.hash, difficulty)
    && forall n :: 0 <= n < b.nonce ==> !MeetsDifficulty(HashAtNonce(c, b, n), difficulty)
  }

  /** `new Block(0, '01/04/2025', [], '0', 'gjGenesis')`: not mined, nonce 0. */
  function Genesis(c: Crypto): BlockDoc {
    BlockDoc(0, "01/04/2025", [], "0", "gjGenesis", 0,
             BlockHash(c, 0, "01/04/2025", [], "0", "gjGenesis", 0))
  }

  /** The rule a received block must pass: it links to the tail and its hash
      is its own digest. Neither its index nor its difficulty is looked at. */
  predicate Accepts(c: Crypto, tail: BlockDoc, b: BlockDoc) {
    b.previousHash == tail.hash && b.hash == HashOf(c, b)
  }

  /** A ledger in the intended shape: block i has index i and links to block i - 1. */
  predicate WellLinked(s: seq<BlockDoc>) {
    forall i :: 0 <= i < |s| ==> s[i].index == i && (i > 0 ==> s[i].previousHash == s[i - 1].hash)
  }

  /** A block carrying the next index and the tail's hash extends a
      well-linked ledger to a well-linked ledger. */
  lemma WellLinkedSnoc(s: seq<BlockDoc>, b: BlockDoc)
    requires WellLinked(s) && s != []
    requires b.index == |s| && b.previousHash == s[|s| - 1].hash
    ensures WellLinked(s + [b])
  {
    var t := s + [b];
    forall i | 0 <= i < |t| ensures t[i].index == i && (i > 0 ==> t[i].previousHash == t[i - 1].hash) {
      if i < |s| {
        assert t[i] == s[i];
        if i > 0 {
          assert t[i - 1] == s[i - 1];
        }
      }
    }
  }

  /** The genesis block is self-consistent and forms a well-linked ledger on its own. */
  lemma GenesisSound(c: Crypto)
    ensures HashOf(c, Genesis(c)) == Genesis(c).hash
    ensures WellLinked([Genesis(c)])
  {
  }

  /** Because the fields are concatenated without separators, the digest does
      not pin down where one field ends: index 1 with a timestamp starting
      "2" hashes exactly like index 12 with the rest of that timestamp, for
      every choice of SHA-256 and JSON serialisation. Such a pair is
      indistinguishable to `Accepts`. */
  lemma HashIgnoresFieldBoundaries(c: Crypto, t: string, data: seq<Transaction>,
                                   previousHash: string, miner: string, nonce: nat)
    ensures BlockHash(c, 1, "2" + t, data, previousHash, miner, nonce)
         == BlockHash(c, 12, t, data, previousHash, miner, nonce)
  {
    assert NatToString(12) == NatToString(1) + [DigitChar(2)];
    assert NatToString(1) + ("2" + t) == NatToString(12) + t;
  }

  /** The block under construction: its nonce and hash change while it is mined. */
  class Block {
    const crypto: Crypto
    var index: nat
    var timestamp: string
    var data: seq<Transaction>
    var previousHash: string
    var miner: string
    var nonce: nat
    var hash: string

    /** The digest of this block's fields with nonce `n`. */
    function HashWith(n: nat): string
      reads this`index, this`timestamp, this`data, this`previousHash, this`miner
    {
      BlockHash(crypto, index, timestamp, data, previousHash, miner, n)
    }

    function CalculateHash(): string
      reads this
    {
      HashWith(nonce)
    }

    /** `{...block}` */
    function ToDoc(): BlockDoc
      reads this
    {
      BlockDoc(index, timestamp, data, previousHash, miner, nonce, hash)
    }

    constructor (crypto: Crypto, index: nat, timestamp: string, data: seq<Transaction>,
                 previousHash: string, miner: string)
      ensures this.crypto == crypto && this.index == index && this.timestamp == timestamp
      ensures this.data == data && this.previousHash == previousHash && this.miner == miner
      ensures nonce == 0 && hash == CalculateHash()
    {
      this.crypto := crypto;
      this.index := index;
      this.timestamp := timestamp;
      this.data := data;
      this.previousHash := previousHash;
      this.miner := miner;
      this.nonce := 0;
      this.hash := BlockHash(crypto, index, timestamp, data, previousHash, miner, 0);
    }

    /** The nonce search, allowed at most `fuel` increments. `found` says
        whether the stored hash met the target when the loop stopped; when it
        is false the source would still be searching. */
    method MineBlock(difficulty: nat, fuel: nat) returns (found: bool)
      modifies this
      ensures index == old(index) && timestamp == old(timestamp) && data == old(data)
      ensures previousHash == old(previousHash) && miner == old(miner)
      ensures found == MeetsDifficulty(hash, difficulty)
      ensures old(nonce) <= nonce <= old(nonce) + fuel
      ensures !found ==> nonce == old(nonce) + fuel
      ensures nonce == old(nonce) ==> hash == old(hash)
      ensures nonce > old(nonce) ==> hash == CalculateHash() && !MeetsDifficulty(old(hash), difficulty)
      ensures forall n :: old(nonce) < n < nonce ==> !MeetsDifficulty(HashWith(n), difficulty)
    {
      var spent := 0;
      while !MeetsDifficulty(hash, difficulty) && spent < fuel
        invariant spent <= fuel
        invariant nonce == old(nonce) + spent
        invariant index == old(index) && timestamp == old(timestamp) && data == old(data)
        invariant previousHash == old(previousHash) && miner == old(miner)
        invariant spent == 0 ==> hash == old(hash)
        invariant spent > 0 ==> hash == CalculateHash() && !MeetsDifficulty(old(hash), difficulty)
        invariant forall n :: old(nonce) < n < nonce ==> !MeetsDifficulty(HashWith(n), difficulty)
      {
        nonce := nonce + 1;
        hash := CalculateHash();
        spent := spent + 1;
      }
      found := MeetsDifficulty(hash, difficulty);
    }
  }
}
