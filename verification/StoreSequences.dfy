/** Runs of stores into one buffer, each of any width with a writer. */
module StoreSequences {
  import opened ByteValue
  import opened CTypes
  import opened MyByteOrder

  datatype Store = Store(k: Width, t: nat, a: int) {
    predicate Covers(p: int) { t <= p < t + k }
  }

  predicate Disjoint(x: Store, y: Store) {
    x.t + x.k <= y.t || y.t + y.k <= x.t
  }

  /** Stores are disjoint exactly if no byte is covered by both. */
  lemma DisjointExactly(x: Store, y: Store)
    ensures Disjoint(x, y) <==> forall p :: x.Covers(p) ==> !y.Covers(p)
  {
    if !Disjoint(x, y) {
      var p := if x.t <= y.t then y.t else x.t;
      assert x.Covers(p) && y.Covers(p);
    }
  }

  /** Every store stays in a buffer of n bytes, and different stores do not overlap. */
  ghost predicate Compatible(n: nat, ops: seq<Store>) {
    && (forall x :: x in ops ==> x.t + x.k <= n)
    && (forall x, y :: x in ops && y in ops && x != y ==> Disjoint(x, y))
  }

  /** The buffer after the stores have run, first to last. */
  function StoreAll(s: seq<uchar>, ops: seq<Store>): (r: seq<uchar>)
    requires forall x :: x in ops ==> x.t + x.k <= |s|
    ensures |r| == |s|
  {
    if ops == [] then s
    else
      var last := ops[|ops| - 1];
      Put(StoreAll(s, ops[..|ops| - 1]), last.t, Bytes(last.k, last.a))
  }

  /** Stores that run one after the other through the writers leave what StoreAll says. */
  method RunStores(T: array<uchar>, ops: seq<Store>)
    requires forall x :: x in ops ==> x.t + x.k <= T.Length
    modifies T
    ensures T[..] == StoreAll(old(T[..]), ops)
  {
    for i := 0 to |ops|
      invariant T[..] == StoreAll(old(T[..]), ops[..i])
    {
      IntStore(ops[i].k, T, ops[i].t, ops[i].a);
      assert ops[..i + 1][..i] == ops[..i];
    }
    assert ops[..|ops|] == ops;
  }

  /** Overlapping or not, a byte is the one that the last store to cover it left there. */
  lemma {:induction false} LastStoreWins(s: seq<uchar>, ops: seq<Store>, i: nat, p: nat)
    requires forall x :: x in ops ==> x.t + x.k <= |s|
    requires i < |ops| && ops[i].Covers(p) && forall j :: i < j < |ops| ==> !ops[j].Covers(p)
    ensures p < |s| && StoreAll(s, ops)[p] == Bytes(ops[i].k, ops[i].a)[p - ops[i].t]
    decreases |ops|
  {
    var init, last := ops[..|ops| - 1], ops[|ops| - 1];
    assert ops[i] in ops;
    PutAt(StoreAll(s, init), last.t, Bytes(last.k, last.a), p);
    if i < |init| {
      LastStoreWins(s, init, i, p);
    }
  }

  lemma ByteUnlessOverwritten(s: seq<uchar>, ops: seq<Store>, i: nat, p: nat)
    requires forall x :: x in ops ==> x.t + x.k <= |s|
    requires i < |ops| && ops[i].Covers(p) && forall j :: i < j < |ops| ==> Disjoint(ops[i], ops[j])
    ensures p < |s| && StoreAll(s, ops)[p] == Bytes(ops[i].k, ops[i].a)[p - ops[i].t]
  {
    hide StoreAll, Bytes;
    assert forall j :: i < j < |ops| ==> !ops[j].Covers(p);
    LastStoreWins(s, ops, i, p);
  }

  /** A read returns the number of a store of its width and place unless a later one overlaps it. */
  lemma ReadUnlessOverwritten(s: seq<uchar>, ops: seq<Store>, i: nat)
    requires forall x :: x in ops ==> x.t + x.k <= |s|
    requires i < |ops| && forall j :: i < j < |ops| ==> Disjoint(ops[i], ops[j])
    ensures ops[i].t + ops[i].k <= |s|
    ensures UintKorr(ops[i].k, StoreAll(s, ops)[ops[i].t..]) == ops[i].a % Pow256(ops[i].k)
  {
    hide StoreAll, Bytes, Disjoint;
    assert ops[i] in ops;
    forall k | 0 <= k < ops[i].k
      ensures StoreAll(s, ops)[ops[i].t + k] == Bytes(ops[i].k, ops[i].a)[k]
    {
      ByteUnlessOverwritten(s, ops, i, ops[i].t + k);
    }
    ReadWhereStored(StoreAll(s, ops), ops[i]);
  }

  lemma ReadWhereStored(r: seq<uchar>, x: Store)
    requires x.t + x.k <= |r| && forall k :: 0 <= k < x.k ==> r[x.t + k] == Bytes(x.k, x.a)[k]
    ensures UintKorr(x.k, r[x.t..]) == x.a % Pow256(x.k)
  {
    hide Bytes;
    SliceIs(r, x.t, Bytes(x.k, x.a));
    assert r[x.t..][..x.k] == r[x.t..x.t + x.k];
    ReadAfterStore(x.k, x.a, r[x.t..]);
  }

  /** A byte that no store covers is unchanged, overlapping or not. */
  lemma {:induction false} ByteOutsideStores(s: seq<uchar>, ops: seq<Store>, p: nat)
    requires forall x :: x in ops ==> x.t + x.k <= |s|
    requires p < |s| && forall x :: x in ops ==> !x.Covers(p)
    ensures StoreAll(s, ops)[p] == s[p]
    decreases |ops|
  {
    if ops != [] {
      var init, last := ops[..|ops| - 1], ops[|ops| - 1];
      assert last in ops;
      PutAt(StoreAll(s, init), last.t, Bytes(last.k, last.a), p);
      ByteOutsideStores(s, init, p);
    }
  }

  lemma {:induction false} ByteInsideStore(s: seq<uchar>, ops: seq<Store>, x: Store, p: nat)
    requires Compatible(|s|, ops) && x in ops && x.Covers(p)
    ensures p < |s| && StoreAll(s, ops)[p] == Bytes(x.k, x.a)[p - x.t]
  {
    var init, last := ops[..|ops| - 1], ops[|ops| - 1];
    assert ops == init + [last];
    PutAt(StoreAll(s, init), last.t, Bytes(last.k, last.a), p);
    if x != last {
      assert Disjoint(x, last);
      ByteInsideStore(s, init, x, p);
    }
  }

  lemma ReadAfterStores(s: seq<uchar>, ops: seq<Store>, x: Store)
    requires Compatible(|s|, ops) && x in ops
    ensures UintKorr(x.k, StoreAll(s, ops)[x.t..]) == x.a % Pow256(x.k)
  {
    hide StoreAll, Bytes;
    forall i | 0 <= i < x.k
      ensures StoreAll(s, ops)[x.t + i] == Bytes(x.k, x.a)[i]
    {
      ByteInsideStore(s, ops, x, x.t + i);
    }
    ReadWhereStored(StoreAll(s, ops), x);
  }

  /** After any run of non-overlapping stores every matching read returns its stored number, and
      no byte outside the stores has changed. */
  lemma ReadsAfterStores(s: seq<uchar>, ops: seq<Store>)
    requires Compatible(|s|, ops)
    ensures forall x :: x in ops ==> UintKorr(x.k, StoreAll(s, ops)[x.t..]) == x.a % Pow256(x.k)
    ensures forall p :: 0 <= p < |s| && (forall x :: x in ops ==> !x.Covers(p)) ==> StoreAll(s, ops)[p] == s[p]
  {
    forall x | x in ops
      ensures UintKorr(x.k, StoreAll(s, ops)[x.t..]) == x.a % Pow256(x.k)
    {
      ReadAfterStores(s, ops, x);
    }
    forall p | 0 <= p < |s| && (forall x :: x in ops ==> !x.Covers(p))
      ensures StoreAll(s, ops)[p] == s[p]
    {
      ByteOutsideStores(s, ops, p);
    }
  }

  /** The order of non-overlapping stores, and repeating some of them, makes no difference. */
  lemma StoreOrderIrrelevant(s: seq<uchar>, ops: seq<Store>, ops': seq<Store>)
    requires Compatible(|s|, ops)
    requires forall x :: x in ops <==> x in ops'
    ensures StoreAll(s, ops) == StoreAll(s, ops')
  {
    forall p | 0 <= p < |s|
      ensures StoreAll(s, ops)[p] == StoreAll(s, ops')[p]
    {
      if x :| x in ops && x.Covers(p) {
        ByteInsideStore(s, ops, x, p);
        ByteInsideStore(s, ops', x, p);
      } else {
        ByteOutsideStores(s, ops, p);
        ByteOutsideStores(s, ops', p);
      }
    }
  }
}
