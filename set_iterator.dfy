/** The set iterator (`struct purc_variant_set_iterator` in
    Source/PurC/variant/variant-set.c): a cursor over the members in
    ascending key order, that is over the tree's in-order sequence, with
    the current node's neighbours cached. */
module SetIteration {
  import opened Variants
  import opened VariantSet

  /** The position of `n` in `ns`, or `|ns|`. */
  function NodeIndex(ns: seq<SetNode>, n: SetNode): (i: nat)
    ensures i <= |ns|
    ensures i < |ns| ==> ns[i] == n
    ensures forall j :: 0 <= j < i ==> ns[j] != n
  {
    if ns == [] then 0
    else if ns[0] == n then 0
    else 1 + NodeIndex(ns[1..], n)
  }

  /** A node in `ns` is found at its position. */
  lemma NodeIndexIn(ns: seq<SetNode>, n: SetNode)
    requires n in ns
    ensures NodeIndex(ns, n) < |ns|
  {
  }

  class SetIterator {
    const vset: VSet
    var curr: SetNode?
    var prev: SetNode?
    var next: SetNode?

    /** `calloc` followed by setting `it->set`. */
    constructor (vset: VSet)
      ensures this.vset == vset && curr == null && prev == null && next == null
    {
      this.vset := vset;
      curr := null;
      prev := null;
      next := null;
    }

    /** `prev` and `next` are the tree neighbours of `curr` (null past
        either end), and all three are null once `curr` is. */
    ghost predicate Positioned()
      reads this, vset
    {
      (curr == null ==> prev == null && next == null)
      && (curr != null ==>
            curr in vset.elems
            && (NodeIndex(vset.elems, curr) == 0 ==> prev == null)
            && (NodeIndex(vset.elems, curr) > 0 ==> prev == vset.elems[NodeIndex(vset.elems, curr) - 1])
            && (NodeIndex(vset.elems, curr) == |vset.elems| - 1 ==> next == null)
            && (NodeIndex(vset.elems, curr) < |vset.elems| - 1 ==> next == vset.elems[NodeIndex(vset.elems, curr) + 1]))
    }

    /** `iterator_refresh`: recomputes `prev` and `next` from `curr`. */
    method Refresh()
      requires vset.Valid() && (curr != null ==> curr in vset.elems)
      modifies this`prev, this`next
      ensures Positioned()
    {
      if curr == null || |vset.arr| == 0 {
        prev, next := null, null;
        return;
      }
      var es := vset.elems;
      NodeIndexIn(es, curr);
      var i := NodeIndex(es, curr);
      if curr == es[0] {
        prev := null;
      } else {
        prev := es[i - 1];
      }
      if curr == es[|es| - 1] {
        next := null;
      } else {
        next := es[i + 1];
      }
    }

    /** `purc_variant_set_iterator_next`: moves to the next member in key
        order; false (and no current member) past the last one. */
    method Next() returns (ok: bool)
      requires vset.Valid() && Positioned()
      modifies this`curr, this`prev, this`next
      ensures Positioned()
      ensures old(curr) == null ==> !ok && curr == null
      ensures old(curr) != null ==>
        var i := NodeIndex(vset.elems, old(curr));
        (ok <==> i + 1 < |vset.elems|)
        && (ok ==> curr == vset.elems[i + 1] && vset.rank(old(curr).kvs) < vset.rank(curr.kvs))
        && (!ok ==> curr == null)
    {
      if curr == null {
        return false;
      }
      ghost var i := NodeIndex(vset.elems, curr);
      NodeIndexIn(vset.elems, curr);
      assert i + 1 < |vset.elems| ==> vset.elems[i + 1] == next && vset.elems[i] == curr;
      curr := next;
      Refresh();
      return curr != null;
    }

    /** `purc_variant_set_iterator_prev`: moves to the previous member in
        key order; false (and no current member) before the first one. */
    method Prev() returns (ok: bool)
      requires vset.Valid() && Positioned()
      modifies this`curr, this`prev, this`next
      ensures Positioned()
      ensures old(curr) == null ==> !ok && curr == null
      ensures old(curr) != null ==>
        var i := NodeIndex(vset.elems, old(curr));
        (ok <==> i > 0)
        && (ok ==> curr == vset.elems[i - 1] && vset.rank(curr.kvs) < vset.rank(old(curr).kvs))
        && (!ok ==> curr == null)
    {
      if curr == null {
        return false;
      }
      ghost var i := NodeIndex(vset.elems, curr);
      NodeIndexIn(vset.elems, curr);
      assert i > 0 ==> vset.elems[i - 1] == prev && vset.elems[i] == curr;
      curr := prev;
      Refresh();
      return curr != null;
    }

    /** `purc_variant_set_iterator_get_value`: the current member. */
    method GetValue() returns (m: Variant?)
      requires vset.Valid() && Positioned()
      ensures curr == null ==> m == null
      ensures curr != null ==> m == curr.elem && m.kind == Object && NodeIndex(vset.elems, curr) < |vset.elems|
    {
      if curr == null {
        return null;
      }
      NodeIndexIn(vset.elems, curr);
      return curr.elem;
    }
  }

  /** `purc_variant_set_make_iterator_begin`: an iterator at the member with
      the least key; an empty set has none, and a failed allocation
      (`alloc` false) gives none either. */
  method MakeBegin(s: VSet, alloc: bool) returns (it: SetIterator?, err: VarError)
    requires s.Valid()
    ensures |s.elems| == 0 ==> it == null && err == NotFound
    ensures |s.elems| > 0 && !alloc ==> it == null && err == OutOfMemory
    ensures |s.elems| > 0 && alloc ==>
      it != null && fresh(it) && err == NoError && it.vset == s && it.Positioned()
      && it.curr == s.elems[0] && it.prev == null
  {
    if |s.arr| == 0 {
      return null, NotFound;
    }
    if !alloc {
      return null, OutOfMemory;
    }
    it := new SetIterator(s);
    it.curr := s.elems[0];
    it.Refresh();
    err := NoError;
  }

  /** `purc_variant_set_make_iterator_end`: an iterator at the member with
      the greatest key; an empty set has none, and a failed allocation
      (`alloc` false) gives none either. */
  method MakeEnd(s: VSet, alloc: bool) returns (it: SetIterator?, err: VarError)
    requires s.Valid()
    ensures |s.elems| == 0 ==> it == null && err == NotFound
    ensures |s.elems| > 0 && !alloc ==> it == null && err == OutOfMemory
    ensures |s.elems| > 0 && alloc ==>
      it != null && fresh(it) && err == NoError && it.vset == s && it.Positioned()
      && it.curr == s.elems[|s.elems| - 1] && it.next == null
  {
    if |s.arr| == 0 {
      return null, NotFound;
    }
    if !alloc {
      return null, OutOfMemory;
    }
    it := new SetIterator(s);
    it.curr := s.elems[|s.elems| - 1];
    it.Refresh();
    err := NoError;
  }
}
