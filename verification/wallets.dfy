/** The wallet collection of the document store seen as balances, the
    settlement applied when a block is mined, and wallet address derivation. */
module Wallets {
  import opened Text
  import opened Blocks

  /** A wallet's balance; an address with no record counts as 0. */
  function Balance(b: map<string, int>, a: string): int {
    if a in b then b[a] else 0
  }

  /** `update({balance: FieldValue.increment(delta)})`: the one balance moves
      by `delta`, a missing record is created, nothing else changes. */
  function Increment(b: map<string, int>, a: string, delta: int): (r: map<string, int>)
    ensures r.Keys == b.Keys + {a}
    ensures Balance(r, a) == Balance(b, a) + delta
    ensures forall x :: x != a ==> Balance(r, x) == Balance(b, x)
  {
    b[a := Balance(b, a) + delta]
  }

  /** One settlement step: debit the sender, then credit the receiver. */
  function SettleOne(b: map<string, int>, tx: Transaction): map<string, int> {
    Increment(Increment(b, tx.from, -tx.amount), tx.to, tx.amount)
  }

  /** Settlement of a pool, one transaction after another in pool order. */
  function Settle(b: map<string, int>, txs: seq<Transaction>): map<string, int>
    decreases |txs|
  {
    if txs == [] then b else SettleOne(Settle(b, txs[..|txs| - 1]), txs[|txs| - 1])
  }

  /** What one transaction does to one address: received minus sent. */
  function Flow(tx: Transaction, a: string): int {
    (if tx.to == a then tx.amount else 0) - (if tx.from == a then tx.amount else 0)
  }

  /** The net amount a list of transactions moves into an address. */
  function NetFlow(txs: seq<Transaction>, a: string): int
    decreases |txs|
  {
    if txs == [] then 0 else Flow(txs[0], a) + NetFlow(txs[1..], a)
  }

  lemma {:induction false} NetFlowSnoc(txs: seq<Transaction>, a: string)
    requires txs != []
    ensures NetFlow(txs, a) == NetFlow(txs[..|txs| - 1], a) + Flow(txs[|txs| - 1], a)
    decreases |txs|
  {
    if |txs| > 1 {
      NetFlowSnoc(txs[1..], a);
      assert txs[1..][..|txs| - 2] == txs[..|txs| - 1][1..];
      assert txs[..|txs| - 1][0] == txs[0];
    } else {
      assert txs[..0] == [];
    }
  }

  /** Settling a pool changes each balance by exactly the net amount the pool
      moves into that address. */
  lemma {:induction false} SettleBalance(b: map<string, int>, txs: seq<Transaction>, a: string)
    ensures Balance(Settle(b, txs), a) == Balance(b, a) + NetFlow(txs, a)
    decreases |txs|
  {
    if txs != [] {
      SettleBalance(b, txs[..|txs| - 1], a);
      NetFlowSnoc(txs, a);
    }
  }

  ghost function Pick(s: set<string>): (a: string)
    requires s != {}
    ensures a in s
  {
    var a :| a in s; a
  }

  /** The sum of all balances. */
  ghost function Total(b: map<string, int>): int
    decreases b.Keys
  {
    if b == map[] then 0
    else
      var a := Pick(b.Keys);
      b[a] + Total(b - {a})
  }

  lemma {:induction false} TotalRemove(b: map<string, int>, a: string)
    requires a in b
    ensures Total(b) == b[a] + Total(b - {a})
    decreases b.Keys
  {
    var p := Pick(b.Keys);
    if p != a {
      TotalRemove(b - {p}, a);
      TotalRemove(b - {a}, p);
      assert b - {p} - {a} == b - {a} - {p};
    }
  }

  /** An increment moves the sum of all balances by exactly its delta. */
  lemma TotalIncrement(b: map<string, int>, a: string, delta: int)
    ensures Total(Increment(b, a, delta)) == Total(b) + delta
  {
    var r := Increment(b, a, delta);
    TotalRemove(r, a);
    assert r - {a} == b - {a};
    if a in b {
      TotalRemove(b, a);
    } else {
      assert b - {a} == b;
    }
  }

  /** Settlement only moves money around: the sum of all balances is kept. */
  lemma {:induction false} SettleConserves(b: map<string, int>, txs: seq<Transaction>)
    ensures Total(Settle(b, txs)) == Total(b)
    decreases |txs|
  {
    if txs != [] {
      var tx := txs[|txs| - 1];
      var before := Settle(b, txs[..|txs| - 1]);
      SettleConserves(b, txs[..|txs| - 1]);
      TotalIncrement(before, tx.from, -tx.amount);
      TotalIncrement(Increment(before, tx.from, -tx.amount), tx.to, tx.amount);
    }
  }

  /** The test `addTransaction` applies: the sender has a wallet record and its
      stored balance is not below the amount. */
  predicate CanSubmit(b: map<string, int>, from: string, amount: int) {
    from in b && !(b[from] < amount)
  }

  /** Pending transfers are checked one at a time against the stored balance
      only: two transfers of 8 from a wallet holding 10 are both admitted, and
      settling them leaves that wallet at -6. */
  lemma PendingMayOverdraw()
    ensures var b := map["A" := 10];
            var t := Transaction("A", "B", 8);
            CanSubmit(b, "A", 8) && Balance(Settle(b, [t, t]), "A") == -6
  {
    var b := map["A" := 10];
    var t := Transaction("A", "B", 8);
    SettleBalance(b, [t, t], "A");
    assert Flow(t, "A") == -8 by {
      assert t.to != "A";
    }
    assert [t, t][1..] == [t];
    assert [t][1..] == [];
    assert NetFlow([t], "A") == -8;
  }

  predicate IsHexChar(ch: char) {
    '0' <= ch <= '9' || 'a' <= ch <= 'f'
  }

  /** What SHA-256 in hex produces: 64 lower-case hex characters. */
  predicate IsHexDigest(s: string) {
    |s| == 64 && forall i :: 0 <= i < |s| ==> IsHexChar(s[i])
  }

  /** `gj` followed by the first 16 characters of the hex SHA-256 of the public key. */
  function Address(c: Crypto, publicKey: string): string {
    "gj" + Prefix(c.sha256Hex(publicKey), 16)
  }

  /** An address is "gj" and at most 16 more characters; with a well-formed
      digest it is exactly 18 characters, the last 16 hex. */
  lemma AddressShape(c: Crypto, publicKey: string)
    ensures |Address(c, publicKey)| <= 18
    ensures Address(c, publicKey)[..2] == "gj"
    ensures IsHexDigest(c.sha256Hex(publicKey)) ==>
              |Address(c, publicKey)| == 18 &&
              forall i :: 2 <= i < 18 ==> IsHexChar(Address(c, publicKey)[i])
  {
    var d := c.sha256Hex(publicKey);
    var a := Address(c, publicKey);
    if IsHexDigest(d) {
      forall i | 2 <= i < 18 ensures IsHexChar(a[i]) {
        assert a[i] == d[i - 2];
      }
    }
  }

  /** Two public keys get the same address exactly when their digests agree
      on the first 16 characters. */
  lemma AddressCollision(c: Crypto, p: string, q: string)
    ensures Address(c, p) == Address(c, q) <==>
            Prefix(c.sha256Hex(p), 16) == Prefix(c.sha256Hex(q), 16)
  {
    if Address(c, p) == Address(c, q) {
      assert Address(c, p)[2..] == Prefix(c.sha256Hex(p), 16);
      assert Address(c, q)[2..] == Prefix(c.sha256Hex(q), 16);
    }
  }
}
