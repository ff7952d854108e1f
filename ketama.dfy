/** The `Ketama<T>` ring: vnode generation (`add`), finalisation
    (`build`) and lookup (`query_u32`, `query`).

    The MD5 digest is a foreign computation; every operation that needs it
    receives it as the parameter `md5`, a function from bytes to 16 bytes.
    Keys are given as the UTF-8 bytes of the Rust `&str`. */
module Ketama {
  import opened Bytes
  import opened Hash
  import opened Vnodes
  import opened Ring

  /** An MD5 digest: 16 bytes. */
  type Digest = d: seq<u8> | |d| == 16
    witness [0, 0, 0, 0, 0, 0, 0, 0, 0, 0, 0, 0, 0, 0, 0, 0]

  /** Vnodes produced by one digest round. */
  const PER_HASH: nat := 4

  // ---------------------------------------------------------------------
  // What `add` appends
  // ---------------------------------------------------------------------

  /** The number of digest rounds `add` runs for `spot` requested vnodes:
      the least `n` with `4 * n >= spot`. */
  function Rounds(spot: nat): (n: nat)
    ensures spot <= 4 * n < spot + 4
    ensures n == 0 <==> spot == 0
  {
    (spot + 4 - 1) / 4
  }

  /** The digest input of round `i`: the key, a '-', and `i` in decimal. */
  function RoundInput(key: seq<u8>, i: nat): seq<u8> {
    key + [ASCII_DASH] + Decimal(i)
  }

  /** Different rounds of one key digest different inputs. */
  lemma RoundInputsDistinct(key: seq<u8>, i: nat, k: nat)
    requires i != k
    ensures RoundInput(key, i) != RoundInput(key, k)
  {
    if RoundInput(key, i) == RoundInput(key, k) {
      var n := |key| + 1;
      assert Decimal(i) == RoundInput(key, i)[n..];
      assert Decimal(k) == RoundInput(key, k)[n..];
      DecimalInjective(i, k);
    }
  }

  /** The four vnodes one digest yields: its words 0..3, in order, each
      carrying `val`. */
  function DigestNodes<T>(d: Digest, val: T): seq<Vnode<T>> {
    [Vnode(WordAt(d, 0), val), Vnode(WordAt(d, 1), val), Vnode(WordAt(d, 2), val), Vnode(WordAt(d, 3), val)]
  }

  /** The four vnodes of round `i`. */
  function RoundNodes<T>(key: seq<u8>, val: T, i: nat, md5: seq<u8> -> Digest): seq<Vnode<T>> {
    DigestNodes(md5(RoundInput(key, i)), val)
  }

  /** The vnodes of rounds `0 .. n-1`, in round order. */
  function FirstRounds<T>(key: seq<u8>, val: T, n: nat, md5: seq<u8> -> Digest): seq<Vnode<T>> {
    if n == 0 then [] else FirstRounds(key, val, n - 1, md5) + RoundNodes(key, val, n - 1, md5)
  }

  /** Everything `add(key, val, spot)` appends to the ring. */
  function AddedNodes<T>(key: seq<u8>, val: T, spot: nat, md5: seq<u8> -> Digest): seq<Vnode<T>> {
    FirstRounds(key, val, Rounds(spot), md5)
  }

  /** Vnode `k` of the first `n` rounds is word `k % 4` of the digest of
      round `k / 4`, and carries `val`. */
  lemma {:induction false} FirstRoundsShape<T>(key: seq<u8>, val: T, n: nat, md5: seq<u8> -> Digest)
    ensures |FirstRounds(key, val, n, md5)| == 4 * n
    ensures forall k :: 0 <= k < 4 * n ==>
      FirstRounds(key, val, n, md5)[k] == Vnode(WordAt(md5(RoundInput(key, k / 4)), k % 4), val)
  {
    if n > 0 {
      FirstRoundsShape(key, val, n - 1, md5);
      var prev, last := FirstRounds(key, val, n - 1, md5), RoundNodes(key, val, n - 1, md5);
      var r := FirstRounds(key, val, n, md5);
      assert r == prev + last;
      forall k | 0 <= k < 4 * n
        ensures r[k] == Vnode(WordAt(md5(RoundInput(key, k / 4)), k % 4), val)
      {
        if k >= 4 * (n - 1) {
          assert k / 4 == n - 1;
          assert r[k] == last[k - 4 * (n - 1)];
        }
      }
    }
  }

  /** `add(key, val, spot)` appends `ceil(spot / 4) * 4` vnodes, all with
      value `val`; `spot == 0` appends nothing. */
  lemma AddedNodesShape<T>(key: seq<u8>, val: T, spot: nat, md5: seq<u8> -> Digest)
    ensures |AddedNodes(key, val, spot, md5)| == 4 * Rounds(spot)
    ensures spot <= |AddedNodes(key, val, spot, md5)| < spot + 4
    ensures spot == 0 ==> AddedNodes(key, val, spot, md5) == []
    ensures AllCarry(AddedNodes(key, val, spot, md5), val)
  {
    FirstRoundsShape(key, val, Rounds(spot), md5);
  }

  /** The hashes `add(key, val, spot)` appends are, in order, words 0..3 of
      the digest of "key-0", then of "key-1", and so on. */
  lemma AddedNodesHashes<T>(key: seq<u8>, val: T, spot: nat, md5: seq<u8> -> Digest)
    ensures forall k :: 0 <= k < |AddedNodes(key, val, spot, md5)| ==>
      AddedNodes(key, val, spot, md5)[k].hash == WordAt(md5(RoundInput(key, k / 4)), k % 4)
  {
    FirstRoundsShape(key, val, Rounds(spot), md5);
  }

  /** After `add(key, val, spot)` and `build`, the ring holds exactly
      `ceil(spot / 4) * 4` more vnodes carrying `val` than before, and as
      many as before carrying any other value. */
  lemma BackendVnodeCount<T>(s: seq<Vnode<T>>, key: seq<u8>, val: T, spot: nat, md5: seq<u8> -> Digest, other: T)
    requires other != val
    ensures ValCount(SortByHash(s + AddedNodes(key, val, spot, md5)), val) == ValCount(s, val) + 4 * Rounds(spot)
    ensures ValCount(SortByHash(s + AddedNodes(key, val, spot, md5)), other) == ValCount(s, other)
  {
    var added := AddedNodes(key, val, spot, md5);
    AddedNodesShape(key, val, spot, md5);
    ValCountUniform(added, val, other);
    ValCountConcat(s, added, val);
    ValCountConcat(s, added, other);
    SortByHashValCount(s + added, val);
    SortByHashValCount(s + added, other);
  }

  // ---------------------------------------------------------------------
  // One step of the sort
  // ---------------------------------------------------------------------

  /** The stable sort `build` applies: insertion of each element, in turn,
      after every element of no greater hash before it. */
  method StableSort<T>(s: seq<Vnode<T>>) returns (a: seq<Vnode<T>>)
    ensures a == SortByHash(s)
  {
    a := s;
    var i := 0;
    while i < |a|
      invariant |a| == |s|
      invariant 0 <= i <= |a|
      invariant a[..i] == SortByHash(s[..i])
      invariant a[i..] == s[i..]
    {
      assert s[..i + 1][..i] == s[..i] && a[i] == s[i];
      a := InsertStep(a, i);
      i := i + 1;
    }
    assert s[..i] == s && a[..i] == a;
  }

  /** Moves `a[i]` into the prefix `a[..i]`, just after the last vnode
      whose hash is not greater than its own; the rest of `a` is left
      alone. */
  method InsertStep<T>(a: seq<Vnode<T>>, i: nat) returns (b: seq<Vnode<T>>)
    requires i < |a|
    ensures |b| == |a|
    ensures b[..i + 1] == Insert(a[..i], a[i])
    ensures b[i + 1..] == a[i + 1..]
  {
    var x := a[i];
    var p := i;
    while p > 0 && a[p - 1].hash > x.hash
      invariant 0 <= p <= i
      invariant Insert(a[..i], x) == Insert(a[..p], x) + a[p..i]
    {
      InsertUnfold(a[..p], x);
      assert a[..p][..p - 1] == a[..p - 1];
      assert a[p - 1..i] == [a[p - 1]] + a[p..i];
      p := p - 1;
    }
    InsertAppends(a[..p], x);
    b := a[..p] + [x] + a[p..i] + a[i + 1..];
    SpliceSlices(a[..p] + [x] + a[p..i], a[i + 1..]);
  }

  lemma SpliceSlices<T>(u: seq<T>, v: seq<T>)
    ensures (u + v)[..|u|] == u && (u + v)[|u|..] == v
  {
  }

  // ---------------------------------------------------------------------
  // The ring object
  // ---------------------------------------------------------------------

  class Ketama<T(==)> {
    /** The vnodes, in append order until `Build` sorts them. */
    var nodes: seq<Vnode<T>>

    /** `Ketama::new`: an empty ring. The capacity is an allocation hint. */
    constructor (capacity: nat)
      ensures nodes == []
    {
      nodes := [];
    }

    /** `Ketama::add`: runs `ceil(spot / 4)` digest rounds over
        "key-0", "key-1", ... and appends the four words of each digest as
        vnodes carrying `val`. */
    method Add(key: seq<u8>, val: T, spot: nat, md5: seq<u8> -> Digest)
      modifies this
      ensures nodes == old(nodes) + AddedNodes(key, val, spot, md5)
    {
      var n := (spot + PER_HASH - 1) / PER_HASH;
      assert n == Rounds(spot);
      var prefix := key + [ASCII_DASH];
      var i := 0;
      while i < n
        invariant 0 <= i <= n
        invariant nodes == old(nodes) + FirstRounds(key, val, i, md5)
      {
        var sum := md5(prefix + Decimal(i));
        assert prefix + Decimal(i) == RoundInput(key, i);
        PushRound(sum, val);
        assert FirstRounds(key, val, i + 1, md5) == FirstRounds(key, val, i, md5) + DigestNodes(sum, val);
        i := i + 1;
      }
    }

    /** The inner loop of `add`: appends words 0..3 of one digest. */
    method PushRound(sum: Digest, val: T)
      modifies this
      ensures nodes == old(nodes) + DigestNodes(sum, val)
    {
      ghost var round := DigestNodes(sum, val);
      for j := 0 to PER_HASH
        invariant nodes == old(nodes) + round[..j]
      {
        var hash := WordAt(sum, j);
        nodes := nodes + [Vnode(hash, val)];
        assert round[..j + 1] == round[..j] + [round[j]];
      }
      assert round[..PER_HASH] == round;
    }

    /** `Ketama::build`: sorts the vnodes by hash, stably (insertion sort;
        every stable sort yields the same order). */
    method Build()
      modifies this
      ensures nodes == SortByHash(old(nodes))
      ensures Sorted(nodes) && multiset(nodes) == multiset(old(nodes))
    {
      SortByHashSortsAndPermutes(nodes);
      nodes := StableSort(nodes);
    }

    /** `Ketama::query_u32`: `None` on an empty ring; otherwise the value
        of the first vnode whose hash is at least `key`, or of the vnode at
        position 0 when there is none. The lower bound is found by binary
        search, which finds it only on a sorted ring. */
    method QueryU32(key: u32) returns (r: Option<T>)
      ensures r.None? <==> nodes == []
      ensures r.Some? ==> exists i :: 0 <= i < |nodes| && nodes[i].val == r.value
      ensures Sorted(nodes) ==> r == Lookup(nodes, key)
    {
      if |nodes| == 0 {
        return None;
      }
      var lo, hi := 0, |nodes|;
      while lo < hi
        invariant 0 <= lo <= hi <= |nodes|
        invariant Sorted(nodes) ==> forall j :: 0 <= j < lo ==> nodes[j].hash < key
        invariant Sorted(nodes) ==> forall j :: hi <= j < |nodes| ==> nodes[j].hash >= key
      {
        var mid := lo + (hi - lo) / 2;
        if nodes[mid].hash < key {
          lo := mid + 1;
        } else {
          hi := mid;
        }
      }
      var idx := if lo < |nodes| then lo else 0;
      r := Some(nodes[idx].val);
    }

    /** `Ketama::query`: the lookup of the key's BKDR hash. */
    method Query(key: seq<u8>) returns (r: Option<T>)
      ensures r.None? <==> nodes == []
      ensures r.Some? ==> exists i :: 0 <= i < |nodes| && nodes[i].val == r.value
      ensures Sorted(nodes) ==> r == Lookup(nodes, Bkdr(key))
    {
      var h := ComputeBkdr(key);
      r := QueryU32(h);
    }
  }

  // ---------------------------------------------------------------------
  // The repository's own scenario
  // ---------------------------------------------------------------------

  /** A vnode of a batch whose vnodes all carry `v` carries `v`. */
  lemma CarriedValue<T>(s: seq<Vnode<T>>, v: T, x: Vnode<T>)
    requires AllCarry(s, v)
    requires x in multiset(s)
    ensures x.val == v
  {
    var k :| 0 <= k < |s| && s[k] == x;
  }

  /** Every vnode of `s` carries a value in `lo .. hi`. */
  predicate ValuesBetween(s: seq<Vnode<int>>, lo: int, hi: int) {
    forall k :: 0 <= k < |s| ==> lo <= s[k].val <= hi
  }

  /** Any arrangement of three batches of vnodes carrying 1, 2 and 3
      holds all of them, each carrying 1, 2 or 3. */
  lemma ThreeBatches(x: seq<Vnode<int>>, y: seq<Vnode<int>>, z: seq<Vnode<int>>, s: seq<Vnode<int>>)
    requires AllCarry(x, 1) && AllCarry(y, 2) && AllCarry(z, 3)
    requires multiset(s) == multiset(x + y + z)
    ensures |s| == |x| + |y| + |z|
    ensures ValuesBetween(s, 1, 3)
  {
    assert |multiset(s)| == |multiset(x + y + z)|;
    forall k | 0 <= k < |s| ensures 1 <= s[k].val <= 3 {
      var v := s[k];
      assert v in multiset(x) + multiset(y) + multiset(z);
      if v in multiset(x) {
        CarriedValue(x, 1, v);
      } else if v in multiset(y) {
        CarriedValue(y, 2, v);
      } else {
        CarriedValue(z, 3, v);
      }
    }
  }

  lemma AppendChain<X>(t1: seq<X>, t2: seq<X>, t3: seq<X>, x: seq<X>, y: seq<X>, z: seq<X>)
    requires t1 == [] + x && t2 == t1 + y && t3 == t2 + z
    ensures t3 == x + y + z
  {
  }

  /** Three backends "a", "b", "c" with values 1, 2 and 3 and `spot`
      vnodes each, added and built: the ring is sorted and holds
      `3 * 4 * ceil(spot / 4)` vnodes, each carrying 1, 2 or 3, whatever the
      digest. */
  method ThreeBackendRing(spot: nat, md5: seq<u8> -> Digest) returns (ring: Ketama<int>)
    ensures fresh(ring)
    ensures |ring.nodes| == 12 * Rounds(spot) && Sorted(ring.nodes)
    ensures ValuesBetween(ring.nodes, 1, 3)
  {
    var a, b, c := [97], [98], [99];
    ring := new Ketama<int>(spot * 3);
    ring.Add(a, 1, spot, md5);
    ghost var t1 := ring.nodes;
    ring.Add(b, 2, spot, md5);
    ghost var t2 := ring.nodes;
    ring.Add(c, 3, spot, md5);
    ghost var t3 := ring.nodes;
    ring.Build();
    ghost var x, y, z := AddedNodes(a, 1, spot, md5), AddedNodes(b, 2, spot, md5), AddedNodes(c, 3, spot, md5);
    AppendChain(t1, t2, t3, x, y, z);
    AddedNodesShape(a, 1, spot, md5);
    AddedNodesShape(b, 2, spot, md5);
    AddedNodesShape(c, 3, spot, md5);
    ThreeBatches(x, y, z, ring.nodes);
  }

  /** The ring above with 128 vnodes per backend, then a lookup of the key
      "233": the ring holds 384 vnodes and the lookup yields one of the
      three values. */
  method ThreeBackends(md5: seq<u8> -> Digest) returns (count: nat, r: Option<int>)
    ensures count == 384
    ensures r == Some(1) || r == Some(2) || r == Some(3)
  {
    var ring := ThreeBackendRing(128, md5);
    count := |ring.nodes|;
    var key := [50, 51, 51];
    r := ring.Query(key);
    if r.Some? {
      ValueFromBatch(ring.nodes, r.value);
    }
  }

  lemma ValueFromBatch(s: seq<Vnode<int>>, v: int)
    requires ValuesBetween(s, 1, 3)
    requires exists i :: 0 <= i < |s| && s[i].val == v
    ensures v == 1 || v == 2 || v == 3
  {
  }
}
