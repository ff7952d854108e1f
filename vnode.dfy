/** A ring entry (`Vnode<T>`) and its ordering: vnodes compare by `hash`
    alone, so two vnodes that collide on `hash` are equal whatever values
    they carry. */
module Vnodes {
  import opened Bytes

  datatype Vnode<T> = Vnode(hash: u32, val: T)

  datatype Ordering = Less | Equal | Greater

  datatype Option<T> = None | Some(value: T)

  /** Every vnode of `s` carries the value `v`. */
  ghost predicate AllCarry<T>(s: seq<Vnode<T>>, v: T) {
    forall k :: 0 <= k < |s| ==> s[k].val == v
  }

  /** `Ord::cmp` for vnodes. */
  function Cmp<T>(a: Vnode<T>, b: Vnode<T>): (o: Ordering)
    ensures o == Less <==> a.hash < b.hash
    ensures o == Equal <==> a.hash == b.hash
    ensures o == Greater <==> a.hash > b.hash
  {
    if a.hash < b.hash then Less
    else if a.hash > b.hash then Greater
    else Equal
  }

  /** `PartialEq::eq` for vnodes. */
  function Eq<T>(a: Vnode<T>, b: Vnode<T>): (e: bool)
    ensures e <==> Cmp(a, b) == Equal
  {
    a.hash == b.hash
  }

  /** `PartialOrd::partial_cmp` for vnodes: always defined, and consistent
      with `Cmp` and with `Eq`, as Rust requires of a type that is both
      `Ord` and `PartialEq`. */
  function PartialCmp<T>(a: Vnode<T>, b: Vnode<T>): (o: Option<Ordering>)
    ensures o.Some?
    ensures o == Some(Equal) <==> Eq(a, b)
    ensures o == Some(Less) <==> a.hash < b.hash
    ensures o == Some(Greater) <==> b.hash < a.hash
  {
    Some(Cmp(a, b))
  }

  /** Neither comparison looks at the carried value. */
  lemma CmpIgnoresVal<T>(a: Vnode<T>, b: Vnode<T>, v: T, w: T)
    ensures Cmp(a, b) == Cmp(a.(val := v), b.(val := w))
    ensures Eq(a, b) == Eq(a.(val := v), b.(val := w))
  {
  }

  /** `Cmp` is a total preorder whose equivalence classes are the hashes:
      it is antisymmetric, transitive and consistent with `Eq`. */
  lemma CmpIsTotalOrder<T>(a: Vnode<T>, b: Vnode<T>, c: Vnode<T>)
    ensures Cmp(a, b) == Less <==> Cmp(b, a) == Greater
    ensures Cmp(a, b) == Equal <==> Cmp(b, a) == Equal
    ensures Cmp(a, b) != Greater && Cmp(b, c) != Greater ==> Cmp(a, c) != Greater
    ensures Cmp(a, b) == Less && Cmp(b, c) == Less ==> Cmp(a, c) == Less
    ensures Eq(a, a)
  {
  }
}
