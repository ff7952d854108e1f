/** The ring as a value: the order `Ketama::build` establishes (a stable
    sort by hash) and the lookup `Ketama::query_u32` performs on it (lower
    bound of the key's hash, wrapping to the first vnode). The class in
    module Ketama is specified by these functions. */
module Ring {
  import opened Bytes
  import opened Vnodes

  /** Hashes never decrease along `s`: the state `build` leaves the ring in. */
  predicate Sorted<T>(s: seq<Vnode<T>>) {
    forall i, j :: 0 <= i < j < |s| ==> s[i].hash <= s[j].hash
  }

  // ---------------------------------------------------------------------
  // Sorting by hash
  // ---------------------------------------------------------------------

  /** Inserts `x` into `s` just after the last trailing vnode whose hash is
      not greater than `x.hash`; into a sorted `s` this places `x` after
      every vnode with the same hash. */
  function Insert<T>(s: seq<Vnode<T>>, x: Vnode<T>): seq<Vnode<T>> {
    if s == [] || s[|s| - 1].hash <= x.hash then
      s + [x]
    else
      Insert(s[..|s| - 1], x) + [s[|s| - 1]]
  }

  lemma InsertAppends<T>(s: seq<Vnode<T>>, x: Vnode<T>)
    requires s == [] || s[|s| - 1].hash <= x.hash
    ensures Insert(s, x) == s + [x]
  {
  }

  lemma InsertUnfold<T>(s: seq<Vnode<T>>, x: Vnode<T>)
    requires s != [] && s[|s| - 1].hash > x.hash
    ensures Insert(s, x) == Insert(s[..|s| - 1], x) + [s[|s| - 1]]
  {
  }

  /** Inserting adds exactly `x`. */
  lemma {:induction false} InsertPermutes<T>(s: seq<Vnode<T>>, x: Vnode<T>)
    ensures multiset(Insert(s, x)) == multiset(s) + multiset{x}
  {
    if s != [] && s[|s| - 1].hash > x.hash {
      var init, last := s[..|s| - 1], s[|s| - 1];
      assert s == init + [last];
      InsertPermutes(init, x);
    }
  }

  /** Inserting into a sorted ring keeps it sorted. */
  lemma {:induction false} InsertSorted<T>(s: seq<Vnode<T>>, x: Vnode<T>)
    requires Sorted(s)
    ensures Sorted(Insert(s, x))
  {
    if s != [] && s[|s| - 1].hash > x.hash {
      var init, last := s[..|s| - 1], s[|s| - 1];
      assert s == init + [last];
      assert Sorted(init);
      InsertSorted(init, x);
      var r := Insert(init, x);
      InsertPermutes(init, x);
      forall k | 0 <= k < |r| ensures r[k].hash <= last.hash {
        var y := r[k];
        assert y in multiset(r);
        if y != x {
          assert y in multiset(init);
          var m :| 0 <= m < |init| && init[m] == y;
          assert s[m] == y;
        }
      }
      assert Insert(s, x) == r + [last];
    }
  }

  /** The order `slice::sort` produces: insertion of each vnode, in turn,
      into the sorted prefix. */
  function SortByHash<T>(s: seq<Vnode<T>>): seq<Vnode<T>> {
    if s == [] then [] else Insert(SortByHash(s[..|s| - 1]), s[|s| - 1])
  }

  /** The sorted ring is sorted by hash and holds exactly the vnodes it
      was built from. */
  lemma {:induction false} SortByHashSortsAndPermutes<T>(s: seq<Vnode<T>>)
    ensures Sorted(SortByHash(s))
    ensures multiset(SortByHash(s)) == multiset(s)
  {
    if s != [] {
      var init, last := s[..|s| - 1], s[|s| - 1];
      assert s == init + [last];
      SortByHashSortsAndPermutes(init);
      InsertSorted(SortByHash(init), last);
      InsertPermutes(SortByHash(init), last);
    }
  }

  /** Sorting a ring that is already sorted leaves it exactly as it is. */
  lemma {:induction false} SortByHashOfSorted<T>(s: seq<Vnode<T>>)
    requires Sorted(s)
    ensures SortByHash(s) == s
  {
    if s != [] {
      var init, last := s[..|s| - 1], s[|s| - 1];
      assert s == init + [last];
      assert Sorted(init);
      SortByHashOfSorted(init);
      assert init == [] || init[|init| - 1].hash <= last.hash;
      calc {
        SortByHash(s);
        Insert(SortByHash(init), last);
        Insert(init, last);
        init + [last];
      }
    }
  }

  /** Sorting twice is sorting once. */
  lemma SortByHashIdempotent<T>(s: seq<Vnode<T>>)
    ensures SortByHash(SortByHash(s)) == SortByHash(s)
  {
    SortByHashSortsAndPermutes(s);
    SortByHashOfSorted(SortByHash(s));
  }

  /** The vnodes of `s` whose hash is `h`, in their order in `s`. */
  function WithHash<T>(s: seq<Vnode<T>>, h: u32): seq<Vnode<T>> {
    if s == [] then []
    else WithHash(s[..|s| - 1], h) + (if s[|s| - 1].hash == h then [s[|s| - 1]] else [])
  }

  lemma WithHashSnoc<T>(s: seq<Vnode<T>>, x: Vnode<T>, h: u32)
    ensures WithHash(s + [x], h) == WithHash(s, h) + (if x.hash == h then [x] else [])
  {
    assert (s + [x])[..|s|] == s;
  }

  lemma {:induction false} WithHashConcat<T>(a: seq<Vnode<T>>, b: seq<Vnode<T>>, h: u32)
    ensures WithHash(a + b, h) == WithHash(a, h) + WithHash(b, h)
  {
    if b == [] {
      assert a + b == a;
    } else {
      var init, last := b[..|b| - 1], b[|b| - 1];
      assert a + b == (a + init) + [last];
      assert (a + b)[..|a + b| - 1] == a + init;
      WithHashConcat(a, init, h);
    }
  }

  /** Inserting `x` changes every hash class as appending `x` would. */
  lemma {:induction false} InsertStable<T>(s: seq<Vnode<T>>, x: Vnode<T>, h: u32)
    ensures WithHash(Insert(s, x), h) == WithHash(s, h) + (if x.hash == h then [x] else [])
  {
    if s == [] || s[|s| - 1].hash <= x.hash {
      InsertAppends(s, x);
      WithHashSnoc(s, x, h);
    } else {
      var init, last := s[..|s| - 1], s[|s| - 1];
      var r := Insert(init, x);
      InsertUnfold(s, x);
      assert s == init + [last];
      var a := WithHash(init, h);
      var wx: seq<Vnode<T>> := if x.hash == h then [x] else [];
      var wl: seq<Vnode<T>> := if last.hash == h then [last] else [];
      InsertStable(init, x, h);
      WithHashSnoc(r, last, h);
      WithHashSnoc(init, last, h);
      // `x` sorts strictly before `last`, so at most one of them has hash `h`.
      assert wx == [] || wl == [];
      assert (a + wx) + wl == (a + wl) + wx;
    }
  }

  /** Stability: for every hash, the vnodes carrying it appear in the sorted
      ring in the same relative order as before sorting. */
  lemma {:induction false} SortByHashStable<T>(s: seq<Vnode<T>>, h: u32)
    ensures WithHash(SortByHash(s), h) == WithHash(s, h)
  {
    if s != [] {
      var init, last := s[..|s| - 1], s[|s| - 1];
      assert s == init + [last];
      SortByHashStable(init, h);
      InsertStable(SortByHash(init), last, h);
      WithHashSnoc(init, last, h);
    }
  }

  lemma {:induction false} WithHashMembers<T>(s: seq<Vnode<T>>, h: u32)
    ensures forall k :: 0 <= k < |s| && s[k].hash == h ==> s[k] in WithHash(s, h)
    ensures forall y :: y in WithHash(s, h) ==> y.hash == h && y in s
  {
    if s != [] {
      var init, last := s[..|s| - 1], s[|s| - 1];
      WithHashMembers(init, h);
      forall k | 0 <= k < |s| - 1 && s[k].hash == h ensures s[k] in WithHash(s, h) {
        assert s[k] == init[k];
      }
    }
  }

  /** In a sorted ring no vnode has a greater hash than the last one. */
  lemma SortedLastIsMax<T>(s: seq<Vnode<T>>, y: Vnode<T>)
    requires Sorted(s) && y in s
    ensures y.hash <= s[|s| - 1].hash
  {
    var k :| 0 <= k < |s| && s[k] == y;
  }

  /** Two sorted rings with the same hash classes end in the same hash. */
  lemma LastHashesAgree<T>(t: seq<Vnode<T>>, u: seq<Vnode<T>>)
    requires Sorted(t) && Sorted(u) && t != [] && u != []
    requires forall h: u32 :: WithHash(t, h) == WithHash(u, h)
    ensures t[|t| - 1].hash == u[|u| - 1].hash
  {
    var tl, ul := t[|t| - 1], u[|u| - 1];
    WithHashMembers(t, tl.hash);
    WithHashMembers(u, tl.hash);
    assert tl in WithHash(u, tl.hash);
    SortedLastIsMax(u, tl);
    WithHashMembers(t, ul.hash);
    WithHashMembers(u, ul.hash);
    assert ul in WithHash(t, ul.hash);
    SortedLastIsMax(t, ul);
  }

  lemma SnocCancel<T>(a: seq<T>, b: seq<T>, x: T, y: T)
    requires a + [x] == b + [y]
    ensures a == b && x == y
  {
    assert a == (a + [x])[..|a|];
    assert b == (b + [y])[..|b|];
  }

  /** Two rings that end in vnodes of the same hash and agree on every
      hash class end in the same vnode, and agree on every hash class once
      that vnode is dropped. */
  lemma DropLastKeepsHashClasses<T>(ti: seq<Vnode<T>>, tl: Vnode<T>, ui: seq<Vnode<T>>, ul: Vnode<T>)
    requires tl.hash == ul.hash
    requires forall h: u32 :: WithHash(ti + [tl], h) == WithHash(ui + [ul], h)
    ensures tl == ul
    ensures forall h: u32 :: WithHash(ti, h) == WithHash(ui, h)
  {
    WithHashSnoc(ti, tl, tl.hash);
    WithHashSnoc(ui, ul, tl.hash);
    assert WithHash(ti + [tl], tl.hash) == WithHash(ui + [ul], tl.hash);
    SnocCancel(WithHash(ti, tl.hash), WithHash(ui, tl.hash), tl, ul);
    forall h: u32 | h != tl.hash ensures WithHash(ti, h) == WithHash(ui, h) {
      WithHashSnoc(ti, tl, h);
      WithHashSnoc(ui, ul, h);
      assert WithHash(ti + [tl], h) == WithHash(ui + [ul], h);
      assert WithHash(ti, h) + [] == WithHash(ti, h);
      assert WithHash(ui, h) + [] == WithHash(ui, h);
    }
  }

  /** A ring with the same hash classes as the empty ring is empty. */
  lemma NoHashClasses<T>(u: seq<Vnode<T>>)
    requires forall h: u32 :: WithHash(u, h) == []
    ensures u == []
  {
    if u != [] {
      WithHashMembers(u, u[0].hash);
    }
  }

  /** A sorted ring is determined by the order it keeps within each hash:
      two sorted rings that agree on `WithHash` for every hash are equal. */
  lemma {:induction false} SortedDeterminedByHashClasses<T>(t: seq<Vnode<T>>, u: seq<Vnode<T>>)
    requires Sorted(t) && Sorted(u)
    requires forall h: u32 :: WithHash(t, h) == WithHash(u, h)
    ensures t == u
    decreases |t|
  {
    if t == [] {
      NoHashClasses(u);
    } else if u == [] {
      NoHashClasses(t);
    } else {
      LastHashesAgree(t, u);
      var ti, tl, ui, ul := t[..|t| - 1], t[|t| - 1], u[..|u| - 1], u[|u| - 1];
      assert t == ti + [tl] && u == ui + [ul];
      DropLastKeepsHashClasses(ti, tl, ui, ul);
      assert Sorted(ti) && Sorted(ui);
      SortedDeterminedByHashClasses(ti, ui);
    }
  }

  /** `SortByHash` is THE stable sort: any sorted arrangement of `s` that
      keeps the relative order of equal-hash vnodes is `SortByHash(s)`. */
  lemma StableSortIsSortByHash<T>(s: seq<Vnode<T>>, t: seq<Vnode<T>>)
    requires Sorted(t)
    requires forall h: u32 :: WithHash(t, h) == WithHash(s, h)
    ensures t == SortByHash(s)
  {
    SortByHashSortsAndPermutes(s);
    forall h: u32 ensures WithHash(t, h) == WithHash(SortByHash(s), h) {
      SortByHashStable(s, h);
    }
    SortedDeterminedByHashClasses(t, SortByHash(s));
  }

  // ---------------------------------------------------------------------
  // Vnodes per backend value
  // ---------------------------------------------------------------------

  /** The number of vnodes of `s` that carry `v`. */
  ghost function ValCount<T>(s: seq<Vnode<T>>, v: T): nat {
    if s == [] then 0 else ValCount(s[..|s| - 1], v) + (if s[|s| - 1].val == v then 1 else 0)
  }

  lemma {:induction false} ValCountConcat<T>(a: seq<Vnode<T>>, b: seq<Vnode<T>>, v: T)
    ensures ValCount(a + b, v) == ValCount(a, v) + ValCount(b, v)
  {
    if b == [] {
      assert a + b == a;
    } else {
      var init := b[..|b| - 1];
      assert (a + b)[..|a + b| - 1] == a + init;
      ValCountConcat(a, init, v);
    }
  }

  /** A run of vnodes that all carry `v` counts fully for `v` and not at all
      for any other value. */
  lemma {:induction false} ValCountUniform<T>(s: seq<Vnode<T>>, v: T, w: T)
    requires AllCarry(s, v)
    ensures ValCount(s, v) == |s|
    ensures v != w ==> ValCount(s, w) == 0
  {
    if s != [] {
      ValCountUniform(s[..|s| - 1], v, w);
    }
  }

  lemma {:induction false} InsertValCount<T>(s: seq<Vnode<T>>, x: Vnode<T>, v: T)
    ensures ValCount(Insert(s, x), v) == ValCount(s, v) + ValCount([x], v)
  {
    if s == [] || s[|s| - 1].hash <= x.hash {
      ValCountConcat(s, [x], v);
    } else {
      var init, last := s[..|s| - 1], s[|s| - 1];
      InsertUnfold(s, x);
      InsertValCount(init, x, v);
      ValCountConcat(Insert(init, x), [last], v);
      ValCountConcat(init, [last], v);
      assert s == init + [last];
    }
  }

  /** Sorting keeps the number of vnodes of every backend value. */
  lemma {:induction false} SortByHashValCount<T>(s: seq<Vnode<T>>, v: T)
    ensures ValCount(SortByHash(s), v) == ValCount(s, v)
  {
    if s != [] {
      var init, last := s[..|s| - 1], s[|s| - 1];
      SortByHashValCount(init, v);
      InsertValCount(SortByHash(init), last, v);
      ValCountConcat(init, [last], v);
      assert s == init + [last];
    }
  }

  // ---------------------------------------------------------------------
  // Lookup
  // ---------------------------------------------------------------------

  /** The first position whose hash is at least `key`, or `|s|` if there
      is none: the insertion point `binary_search_by` reports. */
  function LowerBound<T>(s: seq<Vnode<T>>, key: u32): (i: nat)
    ensures i <= |s|
    ensures forall j :: 0 <= j < i ==> s[j].hash < key
    ensures i < |s| ==> s[i].hash >= key
  {
    if s == [] || s[0].hash >= key then 0 else 1 + LowerBound(s[1..], key)
  }

  /** The position `query_u32` reads: the lower bound, or 0 when the key's
      hash lies past every vnode (wrap-around). */
  function Successor<T>(s: seq<Vnode<T>>, key: u32): (i: nat)
    requires s != []
    ensures i < |s|
  {
    var i := LowerBound(s, key);
    if i < |s| then i else 0
  }

  /** What `query_u32(key)` returns on the ring `s`. */
  function Lookup<T>(s: seq<Vnode<T>>, key: u32): Option<T> {
    if s == [] then None else Some(s[Successor(s, key)].val)
  }

  /** Position `i` holds the smallest hash that is at least `key`; or, when
      every hash is below `key`, the smallest hash of all. */
  ghost predicate IsNearestSuccessor<T>(s: seq<Vnode<T>>, key: u32, i: int) {
    0 <= i < |s| &&
    if exists j :: 0 <= j < |s| && s[j].hash >= key then
      s[i].hash >= key && forall j :: 0 <= j < |s| && s[j].hash >= key ==> s[i].hash <= s[j].hash
    else
      forall j :: 0 <= j < |s| ==> s[i].hash <= s[j].hash
  }

  /** On a sorted, non-empty ring the lookup reads a nearest successor of
      the key, wrapping to position 0 when no hash reaches the key. */
  lemma LookupIsNearestSuccessor<T>(s: seq<Vnode<T>>, key: u32)
    requires Sorted(s) && s != []
    ensures IsNearestSuccessor(s, key, Successor(s, key))
    ensures LowerBound(s, key) == |s| ==> Successor(s, key) == 0
    ensures Lookup(s, key) == Some(s[Successor(s, key)].val)
  {
    var i := LowerBound(s, key);
    if i == |s| {
      assert forall j :: 0 <= j < |s| ==> s[j].hash < key;
    } else {
      assert s[i].hash >= key;
    }
  }

  /** Every nearest successor carries the same hash as the one the lookup
      reads, so lookups can differ only between colliding vnodes; with
      distinct hashes the position is unique. */
  lemma NearestSuccessorUpToCollision<T>(s: seq<Vnode<T>>, key: u32, i: int)
    requires Sorted(s) && s != []
    requires IsNearestSuccessor(s, key, i)
    ensures s[i].hash == s[Successor(s, key)].hash
    ensures (forall a, b :: 0 <= a < b < |s| ==> s[a].hash != s[b].hash) ==> i == Successor(s, key)
  {
    LookupIsNearestSuccessor(s, key);
  }
}
