/** The PurC set container (Source/PurC/variant/variant-set.c): members
    are objects kept unique by a key projection.  The set holds every
    member twice: once in a red-black tree ordered by the projection
    (`elems`, here the tree's in-order sequence) and once in an array in
    document order (`arr`), and each node caches its array position.

    `purc_variant_compare_ex` on two projections is stood in for by an
    injective integer `rank`: two projections compare equal exactly when
    they are the same object. */
module VariantSet {
  import opened Wrappers
  import opened Variants
  import opened SetKeys
  import Observer

  /** `struct set_node`: the member, its cached projection, its array
      position and its constraint listener. */
  class SetNode {
    var elem: Variant
    const kvs: Obj
    var idx: int
    var constraints: Listener?

    constructor (elem: Variant, kvs: Obj)
      ensures this.elem == elem && this.kvs == kvs && idx == 0 && constraints == null
    {
      this.elem := elem;
      this.kvs := kvs;
      idx := 0;
      constraints := null;
    }
  }

  /** `elem_node_revoke_constraints`: revokes the node's constraint
      listener from its member, if it has one. */
  method RevokeConstraints(node: SetNode)
    requires node.elem.kind == Object
    modifies node`constraints, node.elem
    ensures node.constraints == null && node.elem.chain == old(node.elem.chain)
    ensures old(node.constraints) == null ==> node.elem.listeners == old(node.elem.listeners)
    ensures old(node.constraints) != null ==>
              node.elem.listeners == Observer.Without(old(node.elem.listeners), old(node.constraints))
  {
    if node.constraints != null {
      var _, _ := Observer.RevokeListener(node.elem, node.constraints);
      node.constraints := null;
    }
  }

  /** `elem_node_setup_constraints`: registers a pre listener for every
      operation on the member, calling back the set's constraint handler
      with the set as context; false when that registration fails. */
  method SetupConstraints(node: SetNode, owner: Variant, alloc: bool) returns (ok: bool)
    requires node.elem.kind == Object
    modifies node`constraints, node.elem
    ensures ok == alloc && node.elem.chain == old(node.elem.chain)
    ensures ok ==>
      node.constraints != null && node.constraints.pre && node.constraints.op == OP_ALL
      && node.constraints.handler == SetConstraints && node.constraints.ctxt == owner
      && node.elem.listeners == [node.constraints] + old(node.elem.listeners)
    ensures !ok ==> node.constraints == null && node.elem.listeners == old(node.elem.listeners)
  {
    var l, _ := Observer.RegisterPreListener(node.elem, OP_ALL, SetConstraints, owner, alloc);
    node.constraints := l;
    return l != null;
  }

  /** The comparator's total order: equal ranks only for equal keys. */
  ghost predicate Injective(rank: Obj -> int)
  {
    forall a, b :: rank(a) == rank(b) ==> a == b
  }

  /** Strictly ascending by the rank of the cached projections. */
  ghost predicate Ascending(rank: Obj -> int, ns: seq<SetNode>)
  {
    forall i, j :: 0 <= i < j < |ns| ==> rank(ns[i].kvs) < rank(ns[j].kvs)
  }

  /** The tree and the array hold the same nodes. */
  predicate SameNodes(elems: seq<SetNode>, arr: seq<SetNode>)
  {
    |elems| == |arr|
    && (forall n :: n in elems ==> n in arr)
    && (forall n :: n in arr ==> n in elems)
  }

  /** Each node caches its array position. */
  ghost predicate Indexed(arr: seq<SetNode>)
    reads arr`idx
  {
    forall i :: 0 <= i < |arr| ==> arr[i].idx == i
  }

  /** Every member is an object whose projection is its node's `kvs`. */
  ghost predicate Members(keys: KeySpec, elems: seq<SetNode>)
    reads elems`elem
  {
    forall n :: n in elems ==> n.kvs == Projection(keys, n.elem.fields) && n.elem.kind == Object
  }

  /** The first position whose node caches `kvs`, or `|ns|`. */
  function KvsIndex(ns: seq<SetNode>, kvs: Obj): (i: nat)
    ensures i <= |ns|
    ensures i < |ns| ==> ns[i].kvs == kvs
    ensures forall j :: 0 <= j < i ==> ns[j].kvs != kvs
  {
    if ns == [] then 0
    else if ns[0].kvs == kvs then 0
    else 1 + KvsIndex(ns[1..], kvs)
  }

  /** A node caching `kvs` bounds the first such position. */
  lemma KvsIndexAt(ns: seq<SetNode>, i: nat, kvs: Obj)
    requires i < |ns| && ns[i].kvs == kvs
    ensures KvsIndex(ns, kvs) <= i
  {
  }

  /** Ordered nodes cache pairwise different keys. */
  lemma AscendingKeysDiffer(rank: Obj -> int, ns: seq<SetNode>)
    requires Ascending(rank, ns)
    ensures forall a, b :: 0 <= a < b < |ns| ==> ns[a].kvs != ns[b].kvs
  {
    forall a, b | 0 <= a < b < |ns| ensures ns[a].kvs != ns[b].kvs {
      assert rank(ns[a].kvs) < rank(ns[b].kvs);
    }
  }

  lemma AscendingIndex(rank: Obj -> int, ns: seq<SetNode>, j: nat)
    requires Ascending(rank, ns) && j < |ns|
    ensures KvsIndex(ns, ns[j].kvs) == j
  {
    AscendingKeysDiffer(rank, ns);
  }

  lemma AscendingRemove(rank: Obj -> int, ns: seq<SetNode>, j: nat)
    requires Ascending(rank, ns) && j < |ns|
    ensures Ascending(rank, ns[..j] + ns[j + 1..])
  {
    var r := ns[..j] + ns[j + 1..];
    forall a, b | 0 <= a < b < |r| ensures rank(r[a].kvs) < rank(r[b].kvs) {
      var a' := if a < j then a else a + 1;
      var b' := if b < j then b else b + 1;
      assert r[a] == ns[a'] && r[b] == ns[b'];
    }
  }

  lemma AscendingInsert(rank: Obj -> int, ns: seq<SetNode>, pos: nat, n: SetNode)
    requires Ascending(rank, ns) && pos <= |ns|
    requires forall i :: 0 <= i < pos ==> rank(ns[i].kvs) < rank(n.kvs)
    requires forall i :: pos <= i < |ns| ==> rank(n.kvs) < rank(ns[i].kvs)
    ensures Ascending(rank, ns[..pos] + [n] + ns[pos..])
  {
    var r := ns[..pos] + [n] + ns[pos..];
    forall a, b | 0 <= a < b < |r| ensures rank(r[a].kvs) < rank(r[b].kvs) {
      if a < pos { assert r[a] == ns[a]; }
      if a > pos { assert r[a] == ns[a - 1]; }
      if b < pos { assert r[b] == ns[b]; }
      if b > pos { assert r[b] == ns[b - 1]; }
    }
  }

  /** Unlinking a position of a sequence whose entries are distinct drops
      exactly that entry. */
  lemma RemoveMembers(ns: seq<SetNode>, j: nat)
    requires j < |ns|
    requires forall a, b :: 0 <= a < b < |ns| ==> ns[a] != ns[b]
    ensures forall n :: n in ns[..j] + ns[j + 1..] <==> n in ns && n != ns[j]
  {
    forall n | n in ns && n != ns[j] ensures n in ns[..j] + ns[j + 1..] {
      var a :| 0 <= a < |ns| && ns[a] == n;
      if a < j { assert (ns[..j] + ns[j + 1..])[a] == n; }
      else { assert (ns[..j] + ns[j + 1..])[a - 1] == n; }
    }
  }

  /** Unlinking the same node from the tree and the array keeps them
      holding the same nodes. */
  lemma SameNodesRemove(es: seq<SetNode>, ar: seq<SetNode>, j: nat, k: nat, es': seq<SetNode>, ar': seq<SetNode>)
    requires SameNodes(es, ar) && j < |es| && k < |ar| && es[j] == ar[k]
    requires forall a, b :: 0 <= a < b < |es| ==> es[a] != es[b]
    requires forall a, b :: 0 <= a < b < |ar| ==> ar[a] != ar[b]
    requires es' == es[..j] + es[j + 1..] && ar' == ar[..k] + ar[k + 1..]
    ensures SameNodes(es', ar')
  {
    RemoveMembers(es, j);
    RemoveMembers(ar, k);
    forall n | n in es' ensures n in ar' {
      assert n in es && n != es[j];
    }
    forall n | n in ar' ensures n in es' {
      assert n in ar && n != ar[k];
    }
  }

  /** What unlinking position `j` of the tree and `k` of the array (giving
      `es'` and `ar'`) keeps, before the array is renumbered. */
  lemma UnlinkKeeps(rank: Obj -> int, keys: KeySpec, es: seq<SetNode>, ar: seq<SetNode>, j: nat, k: nat,
                    es': seq<SetNode>, ar': seq<SetNode>)
    requires SameNodes(es, ar) && Ascending(rank, es) && Members(keys, es) && Indexed(ar)
    requires j < |es| && k < |ar| && es[j] == ar[k]
    requires forall a, b :: 0 <= a < b < |es| ==> es[a] != es[b]
    requires forall a, b :: 0 <= a < b < |ar| ==> ar[a] != ar[b]
    requires es' == es[..j] + es[j + 1..] && ar' == ar[..k] + ar[k + 1..]
    ensures SameNodes(es', ar') && Ascending(rank, es') && Members(keys, es')
    ensures es[j] !in es' && es[j] !in ar'
    ensures forall a, b :: 0 <= a < b < |ar'| ==> ar'[a] != ar'[b]
    ensures forall i :: 0 <= i < k ==> ar'[i].idx == i
  {
    SameNodesRemove(es, ar, j, k, es', ar');
    RemoveMembers(es, j);
    RemoveMembers(ar, k);
    AscendingRemove(rank, es, j);
    forall a, b | 0 <= a < b < |ar'| ensures ar'[a] != ar'[b] {
      var a' := if a < k then a else a + 1;
      var b' := if b < k then b else b + 1;
      assert ar'[a] == ar[a'] && ar'[b] == ar[b'];
    }
    forall i | 0 <= i < k ensures ar'[i].idx == i {
      assert ar'[i] == ar[i];
    }
  }

  /** What linking a new node at tree position `pos` and at the end of the
      array (giving `es'` and `ar'`) keeps. */
  lemma LinkKeeps(rank: Obj -> int, keys: KeySpec, es: seq<SetNode>, ar: seq<SetNode>, pos: nat, n: SetNode,
                  es': seq<SetNode>, ar': seq<SetNode>)
    requires SameNodes(es, ar) && Ascending(rank, es) && Members(keys, es) && Indexed(ar)
    requires n !in es && n !in ar && pos <= |es| && n.idx == |ar|
    requires n.kvs == Projection(keys, n.elem.fields) && n.elem.kind == Object
    requires forall i :: 0 <= i < pos ==> rank(es[i].kvs) < rank(n.kvs)
    requires forall i :: pos <= i < |es| ==> rank(n.kvs) < rank(es[i].kvs)
    requires es' == es[..pos] + [n] + es[pos..] && ar' == ar + [n]
    ensures SameNodes(es', ar') && Ascending(rank, es') && Members(keys, es') && Indexed(ar')
  {
    AscendingInsert(rank, es, pos, n);
    assert forall m :: m in es' <==> m in es || m == n;
    forall i | 0 <= i < |ar'| ensures ar'[i].idx == i {
      if i < |ar| { assert ar'[i] == ar[i]; }
    }
  }

  /** Unlinking the node just linked at `pos` gives the sequence back. */
  lemma LinkUnlink(es: seq<SetNode>, pos: nat, n: SetNode, j: nat)
    requires n !in es && pos <= |es|
    requires j < |es| + 1 && (es[..pos] + [n] + es[pos..])[j] == n
    ensures (es[..pos] + [n] + es[pos..])[..j] + (es[..pos] + [n] + es[pos..])[j + 1..] == es
  {
    var e := es[..pos] + [n] + es[pos..];
    forall i | 0 <= i < |e| && i != pos ensures e[i] != n {
      if i < pos { assert e[i] == es[i]; } else { assert e[i] == es[i - 1]; }
    }
    assert e[..pos] == es[..pos];
    assert e[pos + 1..] == es[pos..];
    assert es[..pos] + es[pos..] == es;
  }

  /** After unlinking position `j` of an ordered tree no node caches the
      removed node's key. */
  lemma RemovedKeyGone(rank: Obj -> int, es: seq<SetNode>, j: nat)
    requires Ascending(rank, es) && j < |es|
    ensures KvsIndex(es[..j] + es[j + 1..], es[j].kvs) == |es| - 1
  {
    AscendingKeysDiffer(rank, es);
    var r := es[..j] + es[j + 1..];
    forall i | 0 <= i < |r| ensures r[i].kvs != es[j].kvs {
      if i < j { assert r[i] == es[i]; } else { assert r[i] == es[i + 1]; }
    }
  }

  /** Unlinking position `k` shifts every later entry down by one. */
  lemma ShiftDown(a: seq<SetNode>, k: nat, b: seq<SetNode>)
    requires k < |a| && b == a[..k] + a[k + 1..]
    ensures |b| == |a| - 1
    ensures forall i :: 0 <= i < k ==> b[i] == a[i]
    ensures forall i :: k <= i < |b| ==> b[i] == a[i + 1]
  {
  }

  /** A sequence without repeats counts each of its nodes once. */
  lemma {:induction false} DistinctMultiset(s: seq<SetNode>)
    requires forall a, b :: 0 <= a < b < |s| ==> s[a] != s[b]
    ensures multiset(s) == multiset(set x | x in s)
  {
    if s != [] {
      DistinctTail(s);
      DistinctMultiset(s[1..]);
      SetOfCons(s);
      MultisetOfSetAdd((set x | x in s[1..]), s[0]);
      assert s == [s[0]] + s[1..];
    }
  }

  /** The tail of a sequence without repeats has none, nor its head. */
  lemma DistinctTail(s: seq<SetNode>)
    requires s != [] && forall a, b :: 0 <= a < b < |s| ==> s[a] != s[b]
    ensures forall a, b :: 0 <= a < b < |s[1..]| ==> s[1..][a] != s[1..][b]
    ensures s[0] !in (set x | x in s[1..])
  {
    forall a, b | 0 <= a < b < |s[1..]| ensures s[1..][a] != s[1..][b] {
      assert s[1..][a] == s[a + 1] && s[1..][b] == s[b + 1];
    }
    forall i | 0 <= i < |s[1..]| ensures s[1..][i] != s[0] {
      assert s[1..][i] == s[i + 1];
    }
  }

  lemma SetOfCons(s: seq<SetNode>)
    requires s != []
    ensures (set x | x in s) == (set x | x in s[1..]) + {s[0]}
  {
    assert s == [s[0]] + s[1..];
  }

  lemma MultisetOfSetAdd(t: set<SetNode>, x: SetNode)
    requires x !in t
    ensures multiset(t + {x}) == multiset(t) + multiset{x}
  {
  }

  /** The tree and the array, each without repeats and holding the same
      nodes, are permutations of each other. */
  lemma SameNodesPermutation(es: seq<SetNode>, ar: seq<SetNode>)
    requires SameNodes(es, ar)
    requires forall a, b :: 0 <= a < b < |es| ==> es[a] != es[b]
    requires forall a, b :: 0 <= a < b < |ar| ==> ar[a] != ar[b]
    ensures multiset(es) == multiset(ar)
  {
    DistinctMultiset(es);
    DistinctMultiset(ar);
    assert (set x | x in es) == (set x | x in ar);
  }

  /** Linking `n` at `pos` keeps every node and adds only `n`. */
  lemma InsertedMembers(es: seq<SetNode>, pos: nat, n: SetNode, es': seq<SetNode>)
    requires pos <= |es| && es' == es[..pos] + [n] + es[pos..]
    ensures forall m :: m in es' <==> m in es || m == n
  {
    assert es == es[..pos] + es[pos..];
  }

  /** After the tree loses node `t`, the holder of key `kvs` is the old
      holder unless that was `t`, and none otherwise. */
  lemma ReplacedHolder(rank: Obj -> int, es: seq<SetNode>, es': seq<SetNode>, t: SetNode, kvs: Obj)
    requires Ascending(rank, es) && Ascending(rank, es')
    requires forall n :: n in es' <==> n in es && n != t
    ensures (KvsIndex(es, kvs) < |es| && es[KvsIndex(es, kvs)] != t) <==> KvsIndex(es', kvs) < |es'|
    ensures KvsIndex(es', kvs) < |es'| ==> es'[KvsIndex(es', kvs)] == es[KvsIndex(es, kvs)]
  {
    var j, j' := KvsIndex(es, kvs), KvsIndex(es', kvs);
    if j' < |es'| {
      assert es'[j'] in es';
      var a :| 0 <= a < |es| && es[a] == es'[j'];
      AscendingIndex(rank, es, a);
    }
    if j < |es| && es[j] != t {
      assert es[j] in es;
      var b :| 0 <= b < |es'| && es'[b] == es[j];
      KvsIndexAt(es', b, kvs);
    }
  }

  /** Across a call, the node keeps its member and its constraint listener,
      and the member keeps its listener list and its parent edge. */
  /** What a node holds: its member, its constraint listener, and the
      member's listener list and parent edge. */
  datatype NodeState = NodeState(elem: Variant, constraints: Listener?, listeners: seq<Listener>, chain: Edge)

  function StateOf(n: SetNode): NodeState
    reads n, n.elem
  {
    NodeState(n.elem, n.constraints, n.elem.listeners, n.elem.chain)
  }

  twostate predicate Kept(n: SetNode)
    reads n, n.elem
  {
    StateOf(n) == old(StateOf(n))
  }

  /** What a node held at some moment: the node, its member, the member's
      listener list and the node's constraint listener. */
  datatype Holder = NoHolder | Holder(node: SetNode, member: Variant, listeners: seq<Listener>, constraints: Listener?)

  /** What the node holding `key` in the tree `es` holds, unless that node
      is `t`. */
  function HolderOf(es: seq<SetNode>, key: Obj, t: SetNode?): Holder
    reads es, set n | n in es :: n.elem
  {
    var j := KvsIndex(es, key);
    if j < |es| && es[j] != t then Holder(es[j], es[j].elem, es[j].elem.listeners, es[j].constraints) else NoHolder
  }

  /** The listener list `ls` of a member once the node's constraint
      listener `c` is revoked from it; a node without one revokes
      nothing. */
  function Revoked(ls: seq<Listener>, c: Listener?): seq<Listener>
  {
    if c == null then ls else Observer.Without(ls, c)
  }

  /** A set: its own variant (whose listeners are fired when it grows,
      shrinks or changes), its key, the comparator, the tree and the
      array. */
  class VSet {
    const variant: Variant
    const keys: KeySpec
    const rank: Obj -> int
    var elems: seq<SetNode>
    var arr: seq<SetNode>

    /** The tree and the array hold the same nodes; each node's `idx` is
        its array position; the tree is ordered by key; every member is an
        object whose projection is the node's cached `kvs`. */
    ghost predicate Valid()
      reads this, arr`idx, elems`elem
    {
      variant.kind == Set && Injective(rank)
      && SameNodes(elems, arr) && Indexed(arr) && Ascending(rank, elems) && Members(keys, elems)
    }

    /** An empty set with the key fields `variant_set_init` left. */
    constructor (variant: Variant, keys: KeySpec, rank: Obj -> int)
      requires variant.kind == Set && Injective(rank)
      ensures Valid()
      ensures this.variant == variant && this.keys == keys && this.rank == rank
      ensures elems == [] && arr == []
    {
      this.variant := variant;
      this.keys := keys;
      this.rank := rank;
      elems := [];
      arr := [];
    }

    lemma ArrDistinct()
      requires Valid()
      ensures forall a, b :: 0 <= a < b < |arr| ==> arr[a] != arr[b]
    {
    }

    lemma ElemsDistinct()
      requires Valid()
      ensures forall a, b :: 0 <= a < b < |elems| ==> elems[a] != elems[b]
    {
      forall a, b | 0 <= a < b < |elems| ensures elems[a] != elems[b] {
        assert rank(elems[a].kvs) < rank(elems[b].kvs);
      }
    }

    /** Different nodes hold different members, since their members
        project to different keys. */
    lemma MembersDistinct()
      requires Valid()
      ensures forall n, m :: n in elems && m in elems && n != m ==> n.elem != m.elem
    {
      AscendingKeysDiffer(rank, elems);
      forall n, m | n in elems && m in elems && n != m ensures n.elem != m.elem {
        var a :| 0 <= a < |elems| && elems[a] == n;
        var b :| 0 <= b < |elems| && elems[b] == m;
        assert n.kvs != m.kvs by {
          if a < b { } else { assert b < a; }
        }
      }
    }

    /** `find_element_rb_node`: descends the tree comparing `kvs` with each
        node's; either finds the node with that key or the place it would
        be linked at. */
    method FindElement(kvs: Obj) returns (found: bool, pos: nat)
      requires Valid()
      ensures pos <= |elems|
      ensures found ==> pos < |elems| && elems[pos].kvs == kvs
      ensures !found ==> forall i :: 0 <= i < |elems| ==> elems[i].kvs != kvs
      ensures !found ==> forall i :: 0 <= i < pos ==> rank(elems[i].kvs) < rank(kvs)
      ensures !found ==> forall i :: pos <= i < |elems| ==> rank(kvs) < rank(elems[i].kvs)
    {
      var lo, hi := 0, |elems|;
      while lo < hi
        invariant 0 <= lo <= hi <= |elems|
        invariant forall i :: 0 <= i < lo ==> rank(elems[i].kvs) < rank(kvs)
        invariant forall i :: hi <= i < |elems| ==> rank(kvs) < rank(elems[i].kvs)
      {
        var mid := (lo + hi) / 2;
        var r := rank(elems[mid].kvs);
        if rank(kvs) < r {
          hi := mid;
        } else if r < rank(kvs) {
          lo := mid + 1;
        } else {
          return true, mid;
        }
      }
      return false, lo;
    }

    /** `refresh_arr`: renumbers the nodes from position `from` on;
        `(size_t)-1` is written -1. */
    method RefreshArr(from: int)
      requires from >= -1
      requires forall a, b :: 0 <= a < b < |arr| ==> arr[a] != arr[b]
      modifies arr`idx
      ensures from != -1 ==> forall i :: 0 <= i < |arr| && from <= i ==> arr[i].idx == i
      ensures forall i :: 0 <= i < |arr| && (from == -1 || i < from) ==> arr[i].idx == old(arr[i].idx)
      ensures from != -1 && (forall i :: 0 <= i < from && i < |arr| ==> old(arr[i].idx) == i) ==> Indexed(arr)
    {
      if from == -1 {
        return;
      }
      var i := from;
      while i < |arr|
        invariant from <= i
        invariant arr == old(arr)
        invariant forall j :: 0 <= j < |arr| && from <= j < i ==> arr[j].idx == j
        invariant forall j :: 0 <= j < |arr| && (j < from || i <= j) ==> arr[j].idx == old(arr[j].idx)
      {
        arr[i].idx := i;
        i := i + 1;
      }
    }

    /** The unlinking `set_remove` does: the node leaves the tree and the
        array, and the members after it are renumbered. */
    method Unlink(node: SetNode) returns (j: nat, k: nat)
      requires Valid() && node in elems
      modifies this, arr`idx
      ensures Valid()
      ensures node !in elems && node !in arr
      ensures j == KvsIndex(old(elems), node.kvs)
      ensures j < |old(elems)| && old(elems)[j] == node && elems == old(elems)[..j] + old(elems)[j + 1..]
      ensures k == old(node.idx) && k < |old(arr)| && old(arr)[k] == node && arr == old(arr)[..k] + old(arr)[k + 1..]
    {
      ElemsDistinct();
      ArrDistinct();
      j := KvsIndex(elems, node.kvs);
      ghost var t :| 0 <= t < |elems| && elems[t] == node;
      AscendingIndex(rank, elems, t);
      k := node.idx;
      assert arr[k] == node by {
        var a :| 0 <= a < |arr| && arr[a] == node;
      }
      Splice(j, k);
      RefreshArr(k);
    }

    /** The two unlinks, before the array is renumbered. */
    method Splice(j: nat, k: nat) returns ()
      requires SameNodes(elems, arr) && Ascending(rank, elems) && Members(keys, elems) && Indexed(arr)
      requires j < |elems| && k < |arr| && elems[j] == arr[k]
      requires forall a, b :: 0 <= a < b < |elems| ==> elems[a] != elems[b]
      requires forall a, b :: 0 <= a < b < |arr| ==> arr[a] != arr[b]
      modifies this
      ensures elems == old(elems)[..j] + old(elems)[j + 1..] && arr == old(arr)[..k] + old(arr)[k + 1..]
      ensures SameNodes(elems, arr) && Ascending(rank, elems) && Members(keys, elems)
      ensures old(elems)[j] !in elems && old(elems)[j] !in arr
      ensures forall a, b :: 0 <= a < b < |arr| ==> arr[a] != arr[b]
      ensures forall i :: 0 <= i < k ==> arr[i].idx == i
      ensures forall n :: n in arr ==> n in old(arr)
    {
      UnlinkKeeps(rank, keys, elems, arr, j, k, elems[..j] + elems[j + 1..], arr[..k] + arr[k + 1..]);
      elems := elems[..j] + elems[j + 1..];
      arr := arr[..k] + arr[k + 1..];
    }

    /** `set_remove`: unless the SHRINK listeners veto (when `check`),
        unlinks the node from the tree and the array, renumbers the members
        after it and revokes its constraint listener. */
    method SetRemove(node: SetNode, check: bool, verdict: Observer.Verdict) returns (r: int)
      requires Valid() && node in elems
      modifies this, node, node.elem, arr`idx
      ensures Valid()
      ensures r == 0 <==> !check || old(Observer.PreFire(variant.listeners, OP_SHRINK, verdict).0)
      ensures r != 0 ==>
        (r == -1 && elems == old(elems) && arr == old(arr) && unchanged(node)
         && node.elem.listeners == old(node.elem.listeners))
      ensures r == 0 ==>
        old(node.idx) < |old(arr)| && arr == old(arr)[..old(node.idx)] + old(arr)[old(node.idx) + 1..]
        && KvsIndex(old(elems), node.kvs) < |old(elems)| && old(elems)[KvsIndex(old(elems), node.kvs)] == node
        && elems == old(elems)[..KvsIndex(old(elems), node.kvs)] + old(elems)[KvsIndex(old(elems), node.kvs) + 1..]
        && node.idx == -1 && node.constraints == null && node.elem == old(node.elem)
      ensures node.elem.chain == old(node.elem.chain)
      ensures r == 0 ==> node.elem.listeners == Revoked(old(node.elem.listeners), old(node.constraints))
      ensures r == 0 ==> node !in elems && node !in arr
      ensures forall n :: n in old(elems) && n in elems ==> Kept(n)
    {
      MembersDistinct();
      if check {
        assert OP_SHRINK & OP_ALL == OP_SHRINK;
        var ok, _ := Observer.OnPreFired(variant, OP_SHRINK, verdict);
        if !ok {
          return -1;
        }
      }
      var _, _ := Detach(node);
      if check {
        var _ := Observer.OnPostFired(variant, OP_SHRINK);
      }
      return 0;
    }

    /** What `set_remove` does to the node once it is allowed: unlinks it,
        marks it unindexed and revokes its constraint listener. */
    method Detach(node: SetNode) returns (j: nat, k: nat)
      requires Valid() && node in elems
      modifies this, node`idx, node`constraints, node.elem, arr`idx
      ensures Valid()
      ensures j == KvsIndex(old(elems), node.kvs)
      ensures j < |old(elems)| && old(elems)[j] == node && elems == old(elems)[..j] + old(elems)[j + 1..]
      ensures k == old(node.idx) && k < |old(arr)| && old(arr)[k] == node && arr == old(arr)[..k] + old(arr)[k + 1..]
      ensures node.idx == -1 && node.constraints == null && node.elem.chain == old(node.elem.chain)
      ensures node !in elems && node !in arr
      ensures node.elem.listeners == Revoked(old(node.elem.listeners), old(node.constraints))
      ensures forall n :: n in old(elems) && n != node ==> Kept(n)
    {
      MembersDistinct();
      j, k := Unlink(node);
      node.idx := -1;
      // The member's fields are scalars: detaching their reverse-update
      // edges (`elem_node_break_rev_update_edges`) changes nothing.
      RevokeConstraints(node);
    }

    /** The linking `insert` does: the node goes to the end of the array,
        with `idx` its position, and into the tree at `pos`. */
    method Link(node: SetNode, pos: nat)
      requires Valid() && node !in elems && node !in arr && pos <= |elems|
      requires node.kvs == Projection(keys, node.elem.fields) && node.elem.kind == Object
      requires forall i :: 0 <= i < pos ==> rank(elems[i].kvs) < rank(node.kvs)
      requires forall i :: pos <= i < |elems| ==> rank(node.kvs) < rank(elems[i].kvs)
      modifies this, node`idx
      ensures Valid()
      ensures arr == old(arr) + [node] && node.idx == |old(arr)|
      ensures elems == old(elems)[..pos] + [node] + old(elems)[pos..]
    {
      node.idx := |arr|;
      LinkKeeps(rank, keys, elems, arr, pos, node, elems[..pos] + [node] + elems[pos..], arr + [node]);
      elems := elems[..pos] + [node] + elems[pos..];
      arr := arr + [node];
    }

    /** A value whose key lies strictly between the keys before and after
        `pos` is no member. */
    lemma NotMember(val: Variant, kvs: Obj, pos: nat)
      requires Valid() && kvs == Projection(keys, val.fields) && pos <= |elems|
      requires forall i :: 0 <= i < pos ==> rank(elems[i].kvs) < rank(kvs)
      requires forall i :: pos <= i < |elems| ==> rank(kvs) < rank(elems[i].kvs)
      ensures forall n :: n in elems ==> n.elem != val
    {
      forall n | n in elems ensures n.elem != val {
        var a :| 0 <= a < |elems| && elems[a] == n;
        assert rank(n.kvs) != rank(kvs) by {
          if a < pos { } else { }
        }
      }
    }

    /** The body of `insert` after the GROW check: links a new node for
        `val` at tree position `pos` and at the end of the array, then
        registers its constraint listener; when that registration fails,
        `set_remove` (without checks, that is `Detach`) takes the node out
        again. */
    method InsertNode(val: Variant, kvs: Obj, pos: nat, alloc: bool) returns (ok: bool)
      requires Valid() && val.kind == Object && kvs == Projection(keys, val.fields) && pos <= |elems|
      requires forall i :: 0 <= i < pos ==> rank(elems[i].kvs) < rank(kvs)
      requires forall i :: pos <= i < |elems| ==> rank(kvs) < rank(elems[i].kvs)
      modifies this, val, arr`idx
      ensures Valid() && ok == alloc && val.chain == old(val.chain)
      ensures !ok ==> elems == old(elems) && arr == old(arr) && val.listeners == old(val.listeners)
      ensures ok ==>
        |arr| == |old(arr)| + 1 && arr[..|old(arr)|] == old(arr) && fresh(arr[|old(arr)|])
        && arr[|old(arr)|].elem == val && arr[|old(arr)|].kvs == kvs
        && elems == old(elems)[..pos] + [arr[|old(arr)|]] + old(elems)[pos..]
        && arr[|old(arr)|].constraints != null && val.listeners == [arr[|old(arr)|].constraints] + old(val.listeners)
    {
      var node := new SetNode(val, kvs);
      ghost var e0, a0 := elems, arr;
      Link(node, pos);
      ok := SetupConstraints(node, variant, alloc);
      if !ok {
        // `set_remove` without the checks.
        assert elems[pos] == node;
        var _, _ := Detach(node);
        assert arr == a0 by {
          assert (a0 + [node])[..|a0|] == a0;
        }
        LinkUnlink(e0, pos, node, KvsIndex(e0[..pos] + [node] + e0[pos..], node.kvs));
        return false;
      }
      return true;
    }

    /** `insert`: unless the GROW listeners veto (when `check`), inserts a
        new node for `val`; the GROW post listeners then fire. */
    method Insert(val: Variant, kvs: Obj, pos: nat, check: bool, verdict: Observer.Verdict, alloc: bool)
      returns (r: int)
      requires Valid() && val.kind == Object && kvs == Projection(keys, val.fields) && pos <= |elems|
      requires forall i :: 0 <= i < pos ==> rank(elems[i].kvs) < rank(kvs)
      requires forall i :: pos <= i < |elems| ==> rank(kvs) < rank(elems[i].kvs)
      modifies this, val, arr`idx
      ensures Valid() && val.chain == old(val.chain)
      ensures r == 0 <==> (!check || old(Observer.PreFire(variant.listeners, OP_GROW, verdict).0)) && alloc
      ensures r != 0 ==> r == -1 && elems == old(elems) && arr == old(arr) && val.listeners == old(val.listeners)
      ensures r == 0 ==>
        |arr| == |old(arr)| + 1 && arr[..|old(arr)|] == old(arr) && fresh(arr[|old(arr)|])
        && arr[|old(arr)|].elem == val && arr[|old(arr)|].kvs == kvs
        && elems == old(elems)[..pos] + [arr[|old(arr)|]] + old(elems)[pos..]
        && arr[|old(arr)|].constraints != null && val.listeners == [arr[|old(arr)|].constraints] + old(val.listeners)
      ensures forall n :: n in old(elems) ==> Kept(n)
    {
      NotMember(val, kvs, pos);
      if check {
        assert OP_GROW & OP_ALL == OP_GROW;
        var ok, _ := Observer.OnPreFired(variant, OP_GROW, verdict);
        if !ok {
          return -1;
        }
      }
      var ok := InsertNode(val, kvs, pos, alloc);
      if !ok {
        return -1;
      }
      if check {
        var _ := Observer.OnPostFired(variant, OP_GROW);
      }
      return 0;
    }

    /** `elem_node_replace`: the node's constraint listener is revoked from
        the old member, the node takes `val` (whose projection is the
        node's key) and a constraint listener is registered on `val`.  A
        failed registration leaves the node holding `val` without one. */
    method ElemNodeReplace(node: SetNode, val: Variant, alloc: bool) returns (r: int)
      requires Valid() && node in elems && val != node.elem
      requires val.kind == Object && Projection(keys, val.fields) == node.kvs
      modifies node`elem, node`constraints, node.elem, val
      ensures Valid() && node.elem == val
      ensures old(node.constraints) == null ==> old(node.elem).listeners == old(node.elem.listeners)
      ensures old(node.constraints) != null ==>
        old(node.elem).listeners == Observer.Without(old(node.elem.listeners), old(node.constraints))
      ensures r == 0 <==> alloc
      ensures r == 0 ==> node.constraints != null && val.listeners == [node.constraints] + old(val.listeners)
      ensures r != 0 ==> r == -1 && node.constraints == null && val.listeners == old(val.listeners)
      ensures forall n :: n in elems && n != node ==> Kept(n)
    {
      MembersDistinct();
      RevokeConstraints(node);
      node.elem := val;
      var ok := SetupConstraints(node, variant, alloc);
      return if ok then 0 else -1;
    }

    /** The overwrite branch of `insert_or_replace`: the member found by key
        is replaced by a fresh object, the union of its fields and `val`'s
        (`variant_set_union`), unless the CHANGE listeners veto. */
    method ReplaceMember(curr: SetNode, val: Variant, check: bool, verdict: Observer.Verdict, alloc: bool)
      returns (r: int)
      requires Valid() && curr in elems && val.kind == Object && Projection(keys, val.fields) == curr.kvs
      modifies curr`elem, curr`constraints, curr.elem
      ensures Valid() && (r == 0 || r == -1)
      ensures r == 0 <==> (!check || old(Observer.PreFire(variant.listeners, OP_CHANGE, verdict).0)) && alloc
      ensures !check || old(Observer.PreFire(variant.listeners, OP_CHANGE, verdict).0) ==>
        fresh(curr.elem) && curr.elem.kind == Object
        && curr.elem.fields == Union(old(curr.elem.fields), val.fields)
      ensures check && !old(Observer.PreFire(variant.listeners, OP_CHANGE, verdict).0) ==>
        r == -1 && Kept(curr)
      ensures !check || old(Observer.PreFire(variant.listeners, OP_CHANGE, verdict).0) ==>
        old(curr.elem).listeners == Revoked(old(curr.elem.listeners), old(curr.constraints))
        && (alloc ==> curr.constraints != null && curr.elem.listeners == [curr.constraints])
        && (!alloc ==> curr.constraints == null && curr.elem.listeners == [])
      ensures forall n :: n in elems && n != curr ==> Kept(n)
    {
      var u := UnionFields(curr.elem.fields, val.fields);
      UnionKeepsKey(keys, curr.elem.fields, val.fields);
      var tmp := new Variant(Object, u);
      if check {
        assert OP_CHANGE & OP_ALL == OP_CHANGE;
        var ok, _ := Observer.OnPreFired(variant, OP_CHANGE, verdict);
        if !ok {
          return -1;
        }
      }
      r := ElemNodeReplace(curr, tmp, alloc);
      if r != 0 {
        return -1;
      }
      if check {
        var _ := Observer.OnPostFired(variant, OP_CHANGE);
      }
    }

    /** What `insert_or_replace` does with `val`, by the case
        `find_element_rb_node` finds for its projection: a new key is
        inserted; a key already held is refused without `overwrite`, kept
        when it is the same object, and otherwise overwritten by the union
        of the two objects. */
    twostate predicate AddOutcome(val: Variant, overwrite: bool, check: bool, verdict: Observer.Verdict,
                                  alloc: bool, r: int, err: VarError)
      reads this, elems, arr, set n | n in elems :: n.elem
    {
      var key := Projection(keys, val.fields);
      var j := KvsIndex(old(elems), key);
      var grows := !check || old(Observer.PreFire(variant.listeners, OP_GROW, verdict).0);
      var changes := !check || old(Observer.PreFire(variant.listeners, OP_CHANGE, verdict).0);
      (j == |old(elems)| ==>
         err == NoError && (r == 0 <==> grows && alloc)
         && (r == 0 ==>
               |elems| == |old(elems)| + 1 && |arr| == |old(arr)| + 1
               && arr[..|old(arr)|] == old(arr) && arr[|old(arr)|].elem == val)
         && (r != 0 ==> r == -1 && elems == old(elems) && arr == old(arr)))
      && (j < |old(elems)| ==> elems == old(elems) && arr == old(arr))
      && (j < |old(elems)| && !overwrite ==>
            r == -1 && err == NotSupported && Kept(elems[j]))
      && (j < |old(elems)| && overwrite && old(elems[j].elem) == val ==>
            r == 0 && err == NoError && Kept(elems[j]))
      && (j < |old(elems)| && overwrite && old(elems[j].elem) != val ==>
            err == NoError && (r == 0 <==> changes && alloc)
            && (changes ==> elems[j].elem.fields == Union(old(elems[j].elem.fields), val.fields))
            && (!changes ==> r == -1 && Kept(elems[j])))
    }

    /** The listener lists `insert_or_replace` leaves behind, given `vl`,
        `val`'s list before the call, `h`, what the node holding `val`'s
        key held then, and `len`, the array length then.  An inserted
        node's constraint listener heads `val`'s list.  A member replaced
        by the union loses the node's constraint listener, and the union
        carries the node's new one unless its registration failed.  A
        member left in place keeps its list and the node its listener, and
        `val` changes only when it is inserted. */
    predicate AddListeners(val: Variant, vl: seq<Listener>, h: Holder, len: int, alloc: bool, r: int)
      reads this, arr, val, if h.Holder? then {h.node, h.node.elem, h.member} else {}
    {
      match h
      case NoHolder =>
        (r == 0 ==> 0 <= len && |arr| == len + 1 && arr[len].elem == val && arr[len].constraints != null
                    && val.listeners == [arr[len].constraints] + vl)
        && (r != 0 ==> val.listeners == vl)
      case Holder(n, m, ls, c) =>
        val.listeners == vl
        && (n.elem == m ==> n.constraints == c && m.listeners == ls)
        && (n.elem != m ==>
              m.listeners == Revoked(ls, c)
              && (alloc ==> n.constraints != null && n.elem.listeners == [n.constraints])
              && (!alloc ==> n.constraints == null && n.elem.listeners == []))
    }

    /** `insert_or_replace`. */
    method InsertOrReplace(val: Variant, overwrite: bool, check: bool, verdict: Observer.Verdict, alloc: bool)
      returns (r: int, err: VarError)
      requires Valid() && val.kind == Object
      modifies this, val, arr`idx, elems`elem, elems`constraints, set n | n in elems :: n.elem
      ensures Valid()
      ensures AddOutcome(val, overwrite, check, verdict, alloc, r, err)
      ensures r == 0 || r == -1
      ensures r == 0 ==> KvsIndex(elems, Projection(keys, val.fields)) < |elems|
      ensures forall n :: n in old(elems) ==> n in elems
      ensures forall n :: n in elems && n !in old(elems) ==> fresh(n)
      ensures forall n :: n in old(elems) && n.kvs != Projection(keys, val.fields) ==> Kept(n)
      ensures AddListeners(val, old(val.listeners), old(HolderOf(elems, Projection(keys, val.fields), null)),
                           |old(arr)|, alloc, r)
    {
      var kvs := KvsFromVal(keys, val.fields);
      var found, pos := FindElement(kvs);
      if !found {
        assert KvsIndex(elems, kvs) == |elems|;
        ghost var e0 := elems;
        r := Insert(val, kvs, pos, check, verdict, alloc);
        if r == 0 {
          assert elems[pos].kvs == kvs;
          KvsIndexAt(elems, pos, kvs);
          InsertedMembers(e0, pos, elems[pos], elems);
        }
        return r, NoError;
      }
      AscendingIndex(rank, elems, pos);
      if !overwrite {
        return -1, NotSupported;
      }
      var curr := elems[pos];
      if curr.elem == val {
        return 0, NoError;
      }
      r := ReplaceMember(curr, val, check, verdict, alloc);
      err := NoError;
    }

    /** `purc_variant_set_add`: a null or non-object value is refused;
        otherwise `insert_or_replace` with the listeners consulted. */
    method Add(val: Variant?, overwrite: bool, verdict: Observer.Verdict, alloc: bool)
      returns (ok: bool, err: VarError)
      requires Valid()
      modifies this, val, arr`idx, elems`elem, elems`constraints, set n | n in elems :: n.elem
      ensures Valid()
      ensures val == null || val.kind != Object ==>
        !ok && err == InvalidValue && elems == old(elems) && arr == old(arr)
        && forall n :: n in old(elems) ==> Kept(n)
      ensures val != null && val.kind == Object ==>
        AddOutcome(val, overwrite, true, verdict, alloc, if ok then 0 else -1, err)
      ensures ok ==> val != null && KvsIndex(elems, Projection(keys, val.fields)) < |elems|
      ensures forall n :: n in old(elems) ==> n in elems
      ensures forall n :: n in elems && n !in old(elems) ==> fresh(n)
      ensures val != null && val.kind == Object ==>
        forall n :: n in old(elems) && n.kvs != Projection(keys, val.fields) ==> Kept(n)
      ensures val != null && val.kind == Object ==>
        AddListeners(val, old(val.listeners), old(HolderOf(elems, Projection(keys, val.fields), null)),
                     |old(arr)|, alloc, if ok then 0 else -1)
      ensures !ok ==> elems == old(elems) && arr == old(arr)
    {
      if val == null || val.kind != Object {
        return false, InvalidValue;
      }
      var r;
      r, err := InsertOrReplace(val, overwrite, true, verdict, alloc);
      ok := r == 0;
    }

    /** `purc_variant_set_remove`: removes the member holding `value`'s key
        unless the SHRINK listeners veto; an absent key counts as success
        only when `silently`. */
    method Remove(value: Variant?, silently: bool, verdict: Observer.Verdict) returns (ok: bool)
      requires Valid() && (value != null ==> value.kind == Object)
      modifies this, elems, arr`idx, set n | n in elems :: n.elem
      ensures Valid()
      ensures value == null ==> !ok && elems == old(elems) && arr == old(arr)
      ensures value != null && KvsIndex(old(elems), Projection(keys, value.fields)) == |old(elems)| ==>
        ok == silently && elems == old(elems) && arr == old(arr)
      ensures value != null && KvsIndex(old(elems), Projection(keys, value.fields)) < |old(elems)| ==>
        var j := KvsIndex(old(elems), Projection(keys, value.fields));
        var k := old(elems[j].idx);
        (ok <==> old(Observer.PreFire(variant.listeners, OP_SHRINK, verdict).0))
        && (ok ==> elems == old(elems)[..j] + old(elems)[j + 1..]
                   && 0 <= k < |old(arr)| && arr == old(arr)[..k] + old(arr)[k + 1..])
        && (!ok ==> elems == old(elems) && arr == old(arr))
      ensures ok && value != null && KvsIndex(old(elems), Projection(keys, value.fields)) < |old(elems)| ==>
        var j := KvsIndex(old(elems), Projection(keys, value.fields));
        old(elems[j].elem).listeners == Revoked(old(elems[j].elem.listeners), old(elems[j].constraints))
      ensures ok ==> value != null && KvsIndex(elems, Projection(keys, value.fields)) == |elems|
      ensures forall n :: n in old(elems) && n in elems ==> Kept(n)
    {
      if value == null {
        return false;
      }
      var kvs := KvsFromVal(keys, value.fields);
      var found, pos := FindElement(kvs);
      if !found {
        return silently;
      }
      AscendingIndex(rank, elems, pos);
      RemovedKeyGone(rank, elems, pos);
      var node := elems[pos];
      ghost var m, ls, c := node.elem, node.elem.listeners, node.constraints;
      var r := SetRemove(node, true, verdict);
      assert r == 0 ==> m.listeners == Revoked(ls, c);
      return r == 0;
    }

    /** `purc_variant_set_get_member_by_key_values`: the member whose key
        is the tuple `args`, one argument per key name. */
    method GetMemberByKeyValues(args: seq<Arg>) returns (m: Variant?, err: VarError)
      requires Valid() && |args| >= 1
      requires keys.uniqueKey.Some? ==> |args| >= |keys.keynames|
      ensures args[0] == Invalid ==> m == null
      ensures args[0] != Invalid && (keys.uniqueKey.None? || |keys.keynames| == 0) ==>
        m == null && err == NotSupported
      ensures args[0] != Invalid && keys.uniqueKey.Some? && |keys.keynames| > 0
              && (exists i :: 0 <= i < |keys.keynames| && args[i] == Invalid) ==>
        m == null && err == InvalidValue
      ensures keys.uniqueKey.Some? && |keys.keynames| > 0
              && (forall i :: 0 <= i < |keys.keynames| ==> args[i] != Invalid) ==>
        var j := KvsIndex(elems, TupleOf(keys.keynames, args, |keys.keynames|));
        err == NoError && (m != null <==> j < |elems|) && (j < |elems| ==> m == elems[j].elem)
    {
      if args[0] == Invalid {
        return null, NoError;
      }
      if keys.uniqueKey.None? || |keys.keynames| == 0 {
        return null, NotSupported;
      }
      var kvs := CreateKvsN(keys, args);
      if kvs.Err? {
        return null, kvs.error;
      }
      var found, pos := FindElement(kvs.value);
      if !found {
        return null, NoError;
      }
      AscendingIndex(rank, elems, pos);
      return elems[pos].elem, NoError;
    }

    /** The key tuple read off a member finds that member. */
    lemma LookupFindsMember(n: SetNode, args: seq<Arg>)
      requires Valid() && n in elems && keys.uniqueKey.Some?
      requires ArgsOf(keys.keynames, n.elem.fields, args)
      ensures KvsIndex(elems, TupleOf(keys.keynames, args, |keys.keynames|)) < |elems|
      ensures elems[KvsIndex(elems, TupleOf(keys.keynames, args, |keys.keynames|))] == n
    {
      TupleOfMember(keys, n.elem.fields, args);
      var t :| 0 <= t < |elems| && elems[t] == n;
      AscendingIndex(rank, elems, t);
    }

    /** `purc_variant_set_remove_member_by_key_values`: removes and returns
        the member whose key is the tuple `args`, unless the SHRINK
        listeners veto. */
    method RemoveMemberByKeyValues(args: seq<Arg>, verdict: Observer.Verdict) returns (m: Variant?, err: VarError)
      requires Valid() && |args| >= 1
      requires keys.uniqueKey.Some? ==> |args| >= |keys.keynames|
      modifies this, elems, arr`idx, set n | n in elems :: n.elem
      ensures Valid()
      ensures m == null ==> elems == old(elems) && arr == old(arr)
      ensures args[0] != Invalid && (keys.uniqueKey.None? || |keys.keynames| == 0) ==>
        m == null && err == NotSupported
      ensures args[0] != Invalid && keys.uniqueKey.Some? && |keys.keynames| > 0
              && (exists i :: 0 <= i < |keys.keynames| && args[i] == Invalid) ==>
        m == null && err == InvalidValue
      ensures keys.uniqueKey.Some? && |keys.keynames| > 0
              && (forall i :: 0 <= i < |keys.keynames| ==> args[i] != Invalid) ==>
        var j := KvsIndex(old(elems), TupleOf(keys.keynames, args, |keys.keynames|));
        (j == |old(elems)| ==> m == null && err == NotFound)
        && (j < |old(elems)| ==>
              err == NoError
              && (m != null <==> old(Observer.PreFire(variant.listeners, OP_SHRINK, verdict).0))
              && (m != null ==>
                    var k := old(elems[j].idx);
                    m == old(elems[j].elem) && elems == old(elems)[..j] + old(elems)[j + 1..]
                    && 0 <= k < |old(arr)| && arr == old(arr)[..k] + old(arr)[k + 1..]
                    && m.listeners == Revoked(old(elems[j].elem.listeners), old(elems[j].constraints))))
      ensures forall n :: n in old(elems) && n in elems ==> Kept(n)
    {
      if args[0] == Invalid {
        return null, NoError;
      }
      if keys.uniqueKey.None? || |keys.keynames| == 0 {
        return null, NotSupported;
      }
      var kvs := CreateKvsN(keys, args);
      if kvs.Err? {
        return null, kvs.error;
      }
      var found, pos := FindElement(kvs.value);
      if !found {
        return null, NotFound;
      }
      AscendingIndex(rank, elems, pos);
      var node := elems[pos];
      var v := node.elem;
      var r := SetRemove(node, true, verdict);
      if r != 0 {
        return null, NoError;
      }
      return v, NoError;
    }

    /** `purc_variant_set_size`: the number of members. */
    method Size() returns (n: nat)
      requires Valid()
      ensures n == |elems| && n == |arr|
    {
      return |arr|;
    }

    /** `purc_variant_set_get_by_index`: the member at position `idx` of
        the array, or null when `idx` is out of range. */
    method GetByIndex(idx: int) returns (m: Variant?)
      requires Valid()
      ensures !(0 <= idx < |arr|) ==> m == null
      ensures 0 <= idx < |arr| ==> arr[idx] in elems && arr[idx].idx == idx && m == arr[idx].elem
    {
      if idx < 0 || idx >= |arr| {
        return null;
      }
      return arr[idx].elem;
    }

    /** `purc_variant_set_remove_by_index`: removes and returns the member at
        position `idx`, unless the SHRINK listeners veto; the later members
        move down by one. */
    method RemoveByIndex(idx: int, verdict: Observer.Verdict) returns (m: Variant?, err: VarError)
      requires Valid()
      modifies this, elems, arr`idx, set n | n in elems :: n.elem
      ensures Valid()
      ensures !(0 <= idx < |old(arr)|) ==> m == null && err == OutOfBounds && elems == old(elems) && arr == old(arr)
      ensures 0 <= idx < |old(arr)| ==>
        err == NoError && (m != null <==> old(Observer.PreFire(variant.listeners, OP_SHRINK, verdict).0))
      ensures 0 <= idx < |old(arr)| && m != null ==>
        m == old(arr[idx].elem) && |arr| == |old(arr)| - 1 && |elems| == |old(elems)| - 1
        && arr == old(arr)[..idx] + old(arr)[idx + 1..]
        && m.listeners == Revoked(old(arr[idx].elem.listeners), old(arr[idx].constraints))
        && (forall n :: n in elems ==> n.elem != m)
        && (forall key :: HolderOf(elems, key, null) == old(HolderOf(elems, key, arr[idx])))
        && (forall i :: 0 <= i < idx ==> arr[i] == old(arr[i]))
        && (forall i :: idx <= i < |arr| ==> arr[i] == old(arr[i + 1]) && arr[i].idx == i)
        && (forall n :: n in elems <==> n in old(elems) && n != old(arr[idx]))
      ensures forall n :: n in old(elems) && n in elems ==> Kept(n)
      ensures forall o: Variant :: old(allocated(o)) && (m == null || o != m) ==> o.listeners == old(o.listeners)
      ensures m == null ==> elems == old(elems) && arr == old(arr)
    {
      if idx < 0 || idx >= |arr| {
        return null, OutOfBounds;
      }
      var node := arr[idx];
      assert node in elems;
      var v := node.elem;
      ghost var a0, e0 := arr, elems;
      ElemsDistinct();
      var r := SetRemove(node, true, verdict);
      if r != 0 {
        return null, NoError;
      }
      ShiftDown(a0, idx, arr);
      RemoveMembers(e0, KvsIndex(e0, node.kvs));
      forall key | true
        ensures HolderOf(elems, key, null) == old(HolderOf(elems, key, arr[idx]))
      {
        ReplacedHolder(rank, e0, elems, node, key);
        var j := KvsIndex(e0, key);
        if j < |e0| && e0[j] != node {
          assert e0[j] in elems && Kept(e0[j]);
        }
      }
      return v, NoError;
    }

    /** `purc_variant_set_set_by_index`: replaces the member at position
        `idx` by `val`, by removing it and then adding `val` with overwrite.
        Where the source asserts that the removal succeeded, the model
        fails instead; a failing add after a successful removal still loses
        the old member, as in the source. */
    method SetByIndex(idx: int, val: Variant?, verdict: Observer.Verdict, alloc: bool) returns (ok: bool, err: VarError)
      requires Valid()
      modifies this, val, elems, arr`idx, set n | n in elems :: n.elem
      ensures Valid()
      ensures !(0 <= idx < |old(arr)|) ==>
        !ok && err == OutOfBounds && elems == old(elems) && arr == old(arr) && forall n :: n in old(elems) ==> Kept(n)
      ensures 0 <= idx < |old(arr)| && old(arr[idx].elem) == val ==>
        ok && elems == old(elems) && arr == old(arr) && forall n :: n in old(elems) ==> Kept(n)
      ensures 0 <= idx < |old(arr)| && old(arr[idx].elem) != val ==>
        (old(Observer.PreFire(variant.listeners, OP_SHRINK, verdict).0) <==> old(arr[idx]) !in elems)
      ensures 0 <= idx < |old(arr)| && old(arr[idx].elem) != val
              && !old(Observer.PreFire(variant.listeners, OP_SHRINK, verdict).0) ==>
        !ok && elems == old(elems) && arr == old(arr) && forall n :: n in old(elems) ==> Kept(n)
      ensures 0 <= idx < |old(arr)| ==> forall n :: n in old(elems) && n != old(arr[idx]) ==> n in elems
      ensures forall n :: n in old(elems) && n in elems && (val == null || val.kind != Object) ==> Kept(n)
      ensures val != null && val.kind == Object ==>
        forall n :: n in old(elems) && n in elems && n.kvs != Projection(keys, val.fields) ==> Kept(n)
      ensures ok && 0 <= idx < |old(arr)| && old(arr[idx].elem) != val ==>
        val != null && val.kind == Object
        && var mid := old(arr)[..idx] + old(arr)[idx + 1..];
           var j := KvsIndex(old(elems), Projection(keys, val.fields));
           if j < |old(elems)| && old(elems)[j] != old(arr[idx]) then
             arr == mid && old(elems)[j].elem.fields == Union(old(elems[j].elem.fields), val.fields)
           else
             |arr| == |mid| + 1 && arr[..|mid|] == mid && arr[|mid|].elem == val
      ensures 0 <= idx < |old(arr)| && old(arr[idx]) !in elems ==>
        old(arr[idx].elem).listeners == Revoked(old(arr[idx].elem.listeners), old(arr[idx].constraints))
        && (!ok ==> arr == old(arr)[..idx] + old(arr)[idx + 1..])
      ensures 0 <= idx < |old(arr)| && old(arr[idx]) !in elems && val != null && val.kind == Object ==>
        AddListeners(val, old(val.listeners), old(HolderOf(elems, Projection(keys, val.fields), arr[idx])),
                     |old(arr)| - 1, alloc, if ok then 0 else -1)
    {
      if idx < 0 || idx >= |arr| {
        return false, OutOfBounds;
      }
      if arr[idx].elem == val {
        return true, NoError;
      }
      ok, err := Replace(idx, val, verdict, alloc);
    }

    /** The part of `purc_variant_set_set_by_index` after its checks: the
        member at `idx`, which is not `val`, is removed unless the SHRINK
        listeners veto, and `val` is then added with overwrite. */
    method Replace(idx: nat, val: Variant?, verdict: Observer.Verdict, alloc: bool) returns (ok: bool, err: VarError)
      requires Valid() && idx < |arr| && arr[idx].elem != val
      modifies this, val, elems, arr`idx, set n | n in elems :: n.elem
      ensures Valid()
      ensures old(Observer.PreFire(variant.listeners, OP_SHRINK, verdict).0) <==> old(arr[idx]) !in elems
      ensures !old(Observer.PreFire(variant.listeners, OP_SHRINK, verdict).0) ==>
        !ok && elems == old(elems) && arr == old(arr) && forall n :: n in old(elems) ==> Kept(n)
      ensures forall n :: n in old(elems) && n != old(arr[idx]) ==> n in elems
      ensures forall n :: n in old(elems) && n in elems && (val == null || val.kind != Object) ==> Kept(n)
      ensures val != null && val.kind == Object ==>
        forall n :: n in old(elems) && n in elems && n.kvs != Projection(keys, val.fields) ==> Kept(n)
      ensures ok ==>
        val != null && val.kind == Object
        && var mid := old(arr)[..idx] + old(arr)[idx + 1..];
           var j := KvsIndex(old(elems), Projection(keys, val.fields));
           if j < |old(elems)| && old(elems)[j] != old(arr[idx]) then
             arr == mid && old(elems)[j].elem.fields == Union(old(elems[j].elem.fields), val.fields)
           else
             |arr| == |mid| + 1 && arr[..|mid|] == mid && arr[|mid|].elem == val
      ensures old(arr[idx]) !in elems ==>
        old(arr[idx].elem).listeners == Revoked(old(arr[idx].elem.listeners), old(arr[idx].constraints))
        && (!ok ==> arr == old(arr)[..idx] + old(arr)[idx + 1..])
      ensures old(arr[idx]) !in elems && val != null && val.kind == Object ==>
        AddListeners(val, old(val.listeners), old(HolderOf(elems, Projection(keys, val.fields), arr[idx])),
                     |old(arr)| - 1, alloc, if ok then 0 else -1)
    {
      ghost var e0, t, te := elems, arr[idx], arr[idx].elem;
      ghost var m0 := set n | n in elems :: n.elem;
      ghost var key := if val != null then Projection(keys, val.fields) else map[];
      ghost var h0 := HolderOf(elems, key, t);
      ghost var vl0 := if val != null then val.listeners else [];
      var v, e := RemoveByIndex(idx, verdict);
      if v == null {
        assert t in elems;
        return false, e;
      }
      assert forall n :: n in elems ==> n in e0 && n.elem in m0;
      ghost var e1 := elems;
      ok, err := ReAdd(val, verdict, alloc, e0, m0, t, te, vl0, h0);
      forall n | n in e0 && n in elems && (val == null || val.kind != Object || n.kvs != key)
        ensures Kept(n)
      {
        assert n in e1;
      }
    }

    /** The `purc_variant_set_add(set, val, true)` call that completes
        `purc_variant_set_set_by_index`, once node `t`, holding `te`, has
        left the tree `es` whose members were `ms`; `vl` is `val`'s
        listener list and `h` what the holder of `val`'s key holds.  A held
        key takes the union of its holder's fields and `val`'s in place;
        otherwise `val` goes to the end of the array. */
    method ReAdd(val: Variant?, verdict: Observer.Verdict, alloc: bool, ghost es: seq<SetNode>,
                 ghost ms: set<Variant>, ghost t: SetNode, ghost te: Variant, ghost vl: seq<Listener>, ghost h: Holder)
      returns (ok: bool, err: VarError)
      requires Valid() && t !in elems && forall n :: n in elems ==> n in es
      requires val != te && forall n :: n in elems ==> n.elem in ms && n.elem != te
      requires val != null ==> vl == val.listeners && h == HolderOf(elems, Projection(keys, val.fields), null)
      modifies this, val, es, ms - {te}
      ensures Valid() && t !in elems && te.listeners == old(te.listeners)
      ensures forall n :: n in old(elems) ==> n in elems
      ensures forall n :: n in old(elems) && (val == null || val.kind != Object) ==> Kept(n)
      ensures val != null && val.kind == Object ==>
        forall n :: n in old(elems) && n.kvs != Projection(keys, val.fields) ==> Kept(n)
      ensures ok ==>
        val != null && val.kind == Object
        && if h.Holder? then arr == old(arr) && h.node.elem.fields == Union(h.member.fields, val.fields)
           else |arr| == |old(arr)| + 1 && arr[..|old(arr)|] == old(arr) && arr[|old(arr)|].elem == val
      ensures !ok ==> arr == old(arr)
      ensures val != null && val.kind == Object ==> AddListeners(val, vl, h, |old(arr)|, alloc, if ok then 0 else -1)
    {
      assert forall i :: 0 <= i < |arr| ==> arr[i] in elems && arr[i] in es;
      assert forall n :: n in elems ==> n in es && n.elem in ms - {te};
      ok, err := Add(val, true, verdict, alloc);
      if ok && h.Holder? {
        UnionSelf(val.fields);
      }
    }

    /** `variant_set_constraint_change_handler`: a member is about to set
        field `kn` to `vn`; the change is vetoed exactly when the edited
        member would project to a key that another member holds. */
    method ConstraintChangeHandler(source: Variant, kn: string, vn: Field) returns (ok: bool)
      requires Valid() && source.kind == Object
      ensures ok <==> forall i :: 0 <= i < |elems| && elems[i].kvs == Projection(keys, source.fields[kn := vn]) ==>
                        elems[i].elem == source
    {
      var kvs := KvsFromVal(keys, source.fields[kn := vn]);
      var found, pos := FindElement(kvs);
      AscendingKeysDiffer(rank, elems);
      return !(found && elems[pos].elem != source);
    }

    /** `pcvariant_set_sort`: sorts the array by key (the tree's order) and
        renumbers every node from 0. */
    method Sort()
      requires Valid()
      modifies this, elems`idx
      ensures Valid() && elems == old(elems)
      ensures arr == elems && Ascending(rank, arr) && multiset(arr) == multiset(old(arr))
    {
      ElemsDistinct();
      ArrDistinct();
      SameNodesPermutation(elems, arr);
      arr := elems;
      RefreshArr(0);
    }
  }
}
