/** The block collection of the document store (`gjchain`), seen as a map
    from block index to block record, with its ascending scan
    (`orderBy('index')`) and the genesis fallback of `loadChain`. */
module Store {
  import opened Blocks

  /** Every block sits under the key of its own index, as `doc(index.toString())`
      writes it. */
  predicate KeyedByIndex(m: map<nat, BlockDoc>) {
    forall k :: k in m ==> m[k].index == k
  }

  lemma {:induction false} LeastOf(s: set<nat>) returns (m: nat)
    requires s != {}
    ensures m in s && forall k :: k in s ==> m <= k
    decreases s
  {
    var x :| x in s;
    if s == {x} {
      m := x;
    } else {
      var r := LeastOf(s - {x});
      m := if x < r then x else r;
      forall k | k in s ensures m <= k {
        if k != x {
          assert k in s - {x};
        }
      }
    }
  }

  lemma MinExists(s: set<nat>)
    requires s != {}
    ensures exists m :: m in s && forall k :: k in s ==> m <= k
  {
    var m := LeastOf(s);
  }

  function MinKey(s: set<nat>): (m: nat)
    requires s != {}
    ensures m in s && forall k :: k in s ==> m <= k
  {
    MinExists(s);
    var m :| m in s && forall k :: k in s ==> m <= k;
    m
  }

  /** The stored blocks in ascending index order. */
  function Ordered(m: map<nat, BlockDoc>): (r: seq<BlockDoc>)
    requires KeyedByIndex(m)
    ensures |r| == |m|
    decreases m.Keys
  {
    if m == map[] then []
    else
      var k := MinKey(m.Keys);
      [m[k]] + Ordered(m - {k})
  }

  /** Every block of the scan is a stored block, filed under its own index. */
  lemma {:induction false} OrderedSound(m: map<nat, BlockDoc>)
    requires KeyedByIndex(m)
    ensures forall i :: 0 <= i < |Ordered(m)| ==> Ordered(m)[i].index in m && m[Ordered(m)[i].index] == Ordered(m)[i]
    decreases m.Keys
  {
    if m != map[] {
      var k := MinKey(m.Keys);
      var rest := m - {k};
      OrderedSound(rest);
      var r := Ordered(m);
      forall i | 0 <= i < |r| ensures r[i].index in m && m[r[i].index] == r[i] {
        if i > 0 {
          assert r[i] == Ordered(rest)[i - 1];
          assert r[i].index in rest;
        }
      }
    }
  }

  /** Every stored block appears in the scan. */
  lemma {:induction false} OrderedComplete(m: map<nat, BlockDoc>)
    requires KeyedByIndex(m)
    ensures forall k :: k in m ==> m[k] in Ordered(m)
    decreases m.Keys
  {
    if m != map[] {
      var k := MinKey(m.Keys);
      var rest := m - {k};
      OrderedComplete(rest);
      var r := Ordered(m);
      forall j | j in m ensures m[j] in r {
        if j != k {
          assert j in rest;
          assert m[j] in Ordered(rest);
        }
      }
    }
  }

  /** The scan is strictly ascending in index. */
  lemma {:induction false} OrderedSorted(m: map<nat, BlockDoc>)
    requires KeyedByIndex(m)
    ensures forall i, j :: 0 <= i < j < |Ordered(m)| ==> Ordered(m)[i].index < Ordered(m)[j].index
    decreases m.Keys
  {
    if m != map[] {
      var k := MinKey(m.Keys);
      var rest := m - {k};
      OrderedSorted(rest);
      OrderedSound(rest);
      var r := Ordered(m);
      forall i, j | 0 <= i < j < |r| ensures r[i].index < r[j].index {
        assert r[j] == Ordered(rest)[j - 1];
        assert r[j].index in rest;
        if i > 0 {
          assert r[i] == Ordered(rest)[i - 1];
        }
      }
    }
  }

  lemma OrderedSingleton(b: BlockDoc)
    ensures KeyedByIndex(map[b.index := b])
    ensures Ordered(map[b.index := b]) == [b]
  {
    var m := map[b.index := b];
    assert m.Keys == {b.index};
    assert MinKey(m.Keys) == b.index;
    assert m - {b.index} == map[];
  }

  /** Adding a key above all others keeps the least key and commutes with
      removing it. */
  lemma AppendKeepsLeast(m: map<nat, BlockDoc>, b: BlockDoc)
    requires m != map[]
    requires forall k :: k in m ==> k < b.index
    ensures MinKey(m[b.index := b].Keys) == MinKey(m.Keys)
    ensures m[b.index := b] - {MinKey(m.Keys)} == (m - {MinKey(m.Keys)})[b.index := b]
    ensures m[b.index := b][MinKey(m.Keys)] == m[MinKey(m.Keys)]
  {
    var k := MinKey(m.Keys);
    var j := MinKey(m[b.index := b].Keys);
    assert k in m[b.index := b].Keys;
    assert j in m;
  }

  /** Storing a block under a key above every stored key adds it at the end
      of the ascending scan and leaves the rest in place. */
  lemma {:induction false} OrderedAppend(m: map<nat, BlockDoc>, b: BlockDoc)
    requires KeyedByIndex(m)
    requires forall k :: k in m ==> k < b.index
    ensures KeyedByIndex(m[b.index := b])
    ensures Ordered(m[b.index := b]) == Ordered(m) + [b]
    decreases m.Keys
  {
    if m == map[] {
      OrderedSingleton(b);
    } else {
      var k := MinKey(m.Keys);
      AppendKeepsLeast(m, b);
      OrderedAppend(m - {k}, b);
    }
  }

  /** What `loadChain` leaves in the store: the store itself, or, when it is
      empty, the genesis block under key 0. */
  function Reload(c: Crypto, m: map<nat, BlockDoc>): (r: map<nat, BlockDoc>)
    requires KeyedByIndex(m)
    ensures KeyedByIndex(r) && r != map[]
    ensures m != map[] ==> r == m
    ensures m == map[] ==> r == map[0 := Genesis(c)] && Ordered(r) == [Genesis(c)]
  {
    if m == map[] then
      OrderedSingleton(Genesis(c));
      map[0 := Genesis(c)]
    else m
  }

  /** A block that links to the tail of a well-linked store and carries the
      next index lands at the end of the scan, and the ledger stays well
      linked. */
  lemma ExtendWellLinked(m: map<nat, BlockDoc>, b: BlockDoc)
    requires KeyedByIndex(m) && m != map[]
    requires WellLinked(Ordered(m))
    requires b.index == |m|
    requires b.previousHash == Ordered(m)[|m| - 1].hash
    ensures KeyedByIndex(m[b.index := b])
    ensures Ordered(m[b.index := b]) == Ordered(m) + [b]
    ensures WellLinked(Ordered(m[b.index := b]))
  {
    var r := Ordered(m);
    forall k | k in m ensures k < b.index {
      OrderedComplete(m);
      assert m[k] in r;
      var i :| 0 <= i < |r| && r[i] == m[k];
      assert r[i].index == i;
    }
    OrderedAppend(m, b);
    WellLinkedSnoc(r, b);
  }

  /** What mining does to the store: after the reload, a block carrying the
      next index and the tail's hash is stored under its index. Starting from
      an empty or well-linked store, the result reloads as itself and is
      well linked. */
  lemma {:induction false} ReloadExtendWellLinked(c: Crypto, m: map<nat, BlockDoc>, b: BlockDoc)
    requires KeyedByIndex(m)
    requires m == map[] || WellLinked(Ordered(m))
    requires b.index == |Ordered(Reload(c, m))|
    requires b.previousHash == Ordered(Reload(c, m))[|Ordered(Reload(c, m))| - 1].hash
    ensures KeyedByIndex(Reload(c, m)[b.index := b])
    ensures Reload(c, m)[b.index := b] != map[]
    ensures WellLinked(Ordered(Reload(c, m)[b.index := b]))
  {
    if m == map[] {
      GenesisSound(c);
    }
    ExtendWellLinked(Reload(c, m), b);
  }

  /** A block whose index is already stored replaces that block: the
      ascending scan keeps its length and now holds the new block. Since
      acceptance never looks at the index, this is what a linked block with a
      stale index does to the store, while the cached chain grows by one. */
  lemma StaleIndexReplaces(m: map<nat, BlockDoc>, b: BlockDoc)
    requires KeyedByIndex(m)
    requires b.index in m
    ensures KeyedByIndex(m[b.index := b])
    ensures |Ordered(m[b.index := b])| == |Ordered(m)|
    ensures b in Ordered(m[b.index := b])
  {
    var m' := m[b.index := b];
    assert m'.Keys == m.Keys;
    OrderedComplete(m');
  }
}
