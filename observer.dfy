/** The listener registry and the reverse-update edges of PurC variants
    (Source/PurC/variant/observer.c).

    A container keeps its listeners in one list: PRE listeners are pushed
    at the head and POST listeners appended at the tail.  Firing the PRE
    listeners walks the list from the head and stops at the first veto;
    firing the POST listeners walks it from the tail.  A reverse-update
    edge is a slot in the container's data naming its parent and the two
    listeners that relay its changes upward. */
module Observer {
  import opened Variants

  // ---------------------------------------------------------------------
  // The listener list

  /** No listener appears twice. */
  predicate Distinct(ls: seq<Listener>)
  {
    forall i, j :: 0 <= i < j < |ls| ==> ls[i] != ls[j]
  }

  /** Every PRE listener comes before every POST listener. */
  predicate PhaseOrdered(ls: seq<Listener>)
  {
    forall i, j :: 0 <= i < j < |ls| && ls[j].pre ==> ls[i].pre
  }

  /** The list once its first entry that is `l` is unlinked. */
  function Without(ls: seq<Listener>, l: Listener): (r: seq<Listener>)
    ensures l !in ls ==> r == ls
    ensures l in ls ==> |r| == |ls| - 1
    decreases |ls|
  {
    if ls == [] then []
    else if ls[0] == l then ls[1..]
    else [ls[0]] + Without(ls[1..], l)
  }

  /** Unlinking the entry at `k`, the first that is `l`, keeps the entries
      before and after it in order. */
  lemma {:induction false} WithoutAt(ls: seq<Listener>, l: Listener, k: nat)
    requires k < |ls| && ls[k] == l && l !in ls[..k]
    ensures Without(ls, l) == ls[..k] + ls[k + 1..]
    decreases k
  {
    if k > 0 {
      assert ls[0] != l by { assert ls[0] == ls[..k][0]; }
      assert ls[1..][..k - 1] == ls[1..k];
      assert l !in ls[1..][..k - 1] by {
        var t := ls[1..][..k - 1];
        forall i | 0 <= i < |t| ensures t[i] != l {
          assert t[i] == ls[..k][i + 1];
        }
      }
      WithoutAt(ls[1..], l, k - 1);
      assert ls[..k] == [ls[0]] + ls[1..][..k - 1];
      assert ls[k + 1..] == ls[1..][k..];
    }
  }

  /** In a list without repeats, unlinking `l` removes every trace of it,
      keeps every other entry and keeps the list free of repeats and in
      phase order. */
  lemma WithoutDistinct(ls: seq<Listener>, l: Listener)
    requires Distinct(ls)
    ensures l !in Without(ls, l)
    ensures Distinct(Without(ls, l))
    ensures forall x :: x in ls && x != l <==> x in Without(ls, l)
    ensures PhaseOrdered(ls) ==> PhaseOrdered(Without(ls, l))
  {
    if l in ls {
      var k :| 0 <= k < |ls| && ls[k] == l;
      assert l !in ls[..k] by {
        forall i | 0 <= i < k ensures ls[..k][i] != l { assert ls[..k][i] == ls[i]; }
      }
      WithoutAt(ls, l, k);
      var r := ls[..k] + ls[k + 1..];
      assert forall i :: 0 <= i < |r| ==> r[i] == ls[if i < k then i else i + 1];
    }
  }

  /** A PRE listener pushed at the head, or a POST listener appended at
      the tail, keeps the list in phase order. */
  lemma PhaseOrderedRegister(ls: seq<Listener>, l: Listener)
    requires PhaseOrdered(ls)
    ensures l.pre ==> PhaseOrdered([l] + ls)
    ensures !l.pre ==> PhaseOrdered(ls + [l])
  {
    if l.pre {
      var r := [l] + ls;
      forall i, j | 0 <= i < j < |r| && r[j].pre ensures r[i].pre {
        if i > 0 { assert r[i] == ls[i - 1] && r[j] == ls[j - 1]; }
      }
    } else {
      var r := ls + [l];
      forall i, j | 0 <= i < j < |r| && r[j].pre ensures r[i].pre {
        assert j < |ls|;
        assert r[i] == ls[i] && r[j] == ls[j];
      }
    }
  }

  /** Unlinking a listener that was just registered at either end puts
      the list back as it was. */
  lemma {:induction false} RevokeUndoesRegister(ls: seq<Listener>, l: Listener)
    requires l !in ls
    ensures Without([l] + ls, l) == ls
    ensures Without(ls + [l], l) == ls
    decreases |ls|
  {
    assert ([l] + ls)[1..] == ls;
    if ls != [] {
      assert ls[0] != l;
      assert (ls + [l])[1..] == ls[1..] + [l];
      RevokeUndoesRegister(ls[1..], l);
      assert [ls[0]] + ls[1..] == ls;
    }
  }

  // ---------------------------------------------------------------------
  // Registration

  /** The argument checks shared by both registration functions. */
  predicate RegisterArgsOk(v: Variant?, op: Op, handler: Handler)
  {
    op & OP_ALL == op && v != null && op != 0 && handler != NoHandler
  }

  /** `register_listener`: allocates the listener (`alloc` says whether
      that succeeds) and links it at the head for PRE, at the tail for
      POST. */
  method RegisterListener(v: Variant, pre: bool, op: Op, handler: Handler, ctxt: object?, alloc: bool)
    returns (l: Listener?, err: VarError)
    modifies v`listeners
    ensures !alloc ==> l == null && err == OutOfMemory && v.listeners == old(v.listeners)
    ensures alloc ==> l != null && fresh(l) && err == NoError
    ensures alloc ==> l.pre == pre && l.op == op && l.handler == handler && l.ctxt == ctxt
    ensures alloc && pre ==> v.listeners == [l] + old(v.listeners)
    ensures alloc && !pre ==> v.listeners == old(v.listeners) + [l]
  {
    if !alloc {
      return null, OutOfMemory;
    }
    l := new Listener(pre, op, handler, ctxt);
    if pre {
      v.listeners := [l] + v.listeners;
    } else {
      v.listeners := v.listeners + [l];
    }
    err := NoError;
  }

  /** `purc_variant_register_pre_listener` (`pre` true) and
      `purc_variant_register_post_listener` (`pre` false): bad arguments
      and non-containers are refused and nothing is linked. */
  method RegisterPhaseListener(v: Variant?, pre: bool, op: Op, handler: Handler, ctxt: object?, alloc: bool)
    returns (l: Listener?, err: VarError)
    modifies v
    ensures v != null ==> v.chain == old(v.chain)
    ensures !RegisterArgsOk(v, op, handler) ==> l == null && err == WrongArgs
    ensures RegisterArgsOk(v, op, handler) && !IsContainer(v.kind) ==> l == null && err == NotSupported
    ensures l == null ==> v != null ==> v.listeners == old(v.listeners)
    ensures RegisterArgsOk(v, op, handler) && IsContainer(v.kind) ==>
      (if alloc then l != null && fresh(l) && err == NoError
         && l.pre == pre && l.op == op && l.handler == handler && l.ctxt == ctxt
         && v.listeners == (if pre then [l] + old(v.listeners) else old(v.listeners) + [l])
       else l == null && err == OutOfMemory)
  {
    if op & OP_ALL != op {
      return null, WrongArgs;
    }
    if v == null || op == 0 || handler == NoHandler {
      return null, WrongArgs;
    }
    if !IsContainer(v.kind) {
      return null, NotSupported;
    }
    l, err := RegisterListener(v, pre, op, handler, ctxt, alloc);
  }

  /** `purc_variant_register_pre_listener`. */
  method RegisterPreListener(v: Variant?, op: Op, handler: Handler, ctxt: object?, alloc: bool)
    returns (l: Listener?, err: VarError)
    modifies v
    ensures v != null ==> v.chain == old(v.chain)
    ensures !RegisterArgsOk(v, op, handler) ==> l == null && err == WrongArgs
    ensures RegisterArgsOk(v, op, handler) && !IsContainer(v.kind) ==> l == null && err == NotSupported
    ensures l == null ==> v != null ==> v.listeners == old(v.listeners)
    ensures RegisterArgsOk(v, op, handler) && IsContainer(v.kind) ==>
      (if alloc then l != null && fresh(l) && err == NoError
         && l.pre && l.op == op && l.handler == handler && l.ctxt == ctxt
         && v.listeners == [l] + old(v.listeners)
       else l == null && err == OutOfMemory)
  {
    l, err := RegisterPhaseListener(v, true, op, handler, ctxt, alloc);
  }

  /** `purc_variant_register_post_listener`. */
  method RegisterPostListener(v: Variant?, op: Op, handler: Handler, ctxt: object?, alloc: bool)
    returns (l: Listener?, err: VarError)
    modifies v
    ensures v != null ==> v.chain == old(v.chain)
    ensures !RegisterArgsOk(v, op, handler) ==> l == null && err == WrongArgs
    ensures RegisterArgsOk(v, op, handler) && !IsContainer(v.kind) ==> l == null && err == NotSupported
    ensures l == null ==> v != null ==> v.listeners == old(v.listeners)
    ensures RegisterArgsOk(v, op, handler) && IsContainer(v.kind) ==>
      (if alloc then l != null && fresh(l) && err == NoError
         && !l.pre && l.op == op && l.handler == handler && l.ctxt == ctxt
         && v.listeners == old(v.listeners) + [l]
       else l == null && err == OutOfMemory)
  {
    l, err := RegisterPhaseListener(v, false, op, handler, ctxt, alloc);
  }

  /** `purc_variant_revoke_listener`: unlinks the entry that is `l`, if the
      list holds it, and says whether it did. */
  method RevokeListener(v: Variant?, l: Listener?) returns (ok: bool, err: VarError)
    modifies v
    ensures v != null ==> v.chain == old(v.chain)
    ensures v == null || l == null ==> !ok && err == WrongArgs
    ensures v != null && l != null && !IsContainer(v.kind) ==> !ok && err == NotSupported
    ensures v != null && !(l != null && IsContainer(v.kind)) ==> v.listeners == old(v.listeners)
    ensures v != null && l != null && IsContainer(v.kind) ==>
      err == NoError && (ok <==> l in old(v.listeners)) && v.listeners == Without(old(v.listeners), l)
  {
    if v == null || l == null {
      return false, WrongArgs;
    }
    if !IsContainer(v.kind) {
      return false, NotSupported;
    }
    var ls := v.listeners;
    var i := 0;
    while i < |ls|
      invariant 0 <= i <= |ls|
      invariant l !in ls[..i]
    {
      if ls[i] == l {
        WithoutAt(ls, l, i);
        v.listeners := ls[..i] + ls[i + 1..];
        return true, NoError;
      }
      assert ls[..i + 1] == ls[..i] + [ls[i]];
      i := i + 1;
    }
    assert ls[..i] == ls;
    return false, NoError;
  }

  // ---------------------------------------------------------------------
  // Firing

  /** The verdict a PRE handler gives when called for an operation.  The
      handlers are foreign code, so the verdicts are an input. */
  type Verdict = (Listener, Op) -> bool

  /** Whether a listener is called for `op`. */
  predicate Matches(l: Listener, op: Op) { l.op & op != 0 }

  /** What `pcvariant_on_pre_fired` does from the head of `ls`: whether
      the operation may go ahead, and the listeners it calls, in order. */
  function PreFire(ls: seq<Listener>, op: Op, verdict: Verdict): (bool, seq<Listener>)
    decreases |ls|
  {
    if ls == [] then (true, [])
    else
      var l := ls[0];
      if !Matches(l, op) then PreFire(ls[1..], op, verdict)
      else if !l.pre then (true, [])
      else if !verdict(l, op) then (false, [l])
      else
        var rest := PreFire(ls[1..], op, verdict);
        (rest.0, [l] + rest.1)
  }

  /** Firing calls only matching PRE listeners; it lets the operation go
      ahead exactly when every listener it called agreed, and when it
      does not, the last listener called is the one that vetoed. */
  lemma {:induction false} PreFireFacts(ls: seq<Listener>, op: Op, verdict: Verdict)
    ensures forall c :: c in PreFire(ls, op, verdict).1 ==> c in ls && c.pre && Matches(c, op)
    ensures PreFire(ls, op, verdict).0 <==> forall c :: c in PreFire(ls, op, verdict).1 ==> verdict(c, op)
    ensures !PreFire(ls, op, verdict).0 ==>
              var calls := PreFire(ls, op, verdict).1;
              |calls| > 0 && !verdict(calls[|calls| - 1], op)
    decreases |ls|
  {
    if ls != [] {
      var l := ls[0];
      PreFireFacts(ls[1..], op, verdict);
      if Matches(l, op) && l.pre && verdict(l, op) {
        var rest := PreFire(ls[1..], op, verdict);
        assert forall c :: c in [l] + rest.1 ==> c == l || c in rest.1;
        if !rest.0 {
          assert ([l] + rest.1)[|rest.1|] == rest.1[|rest.1| - 1];
        }
      } else if !Matches(l, op) {
        assert forall c :: c in ls[1..] ==> c in ls;
      }
    }
  }

  /** The PRE listeners that match `op`, head to tail. */
  function MatchingPre(ls: seq<Listener>, op: Op): seq<Listener>
    decreases |ls|
  {
    if ls == [] then []
    else if ls[0].pre && Matches(ls[0], op) then [ls[0]] + MatchingPre(ls[1..], op)
    else MatchingPre(ls[1..], op)
  }

  /** The POST listeners that match `op`, head to tail. */
  function MatchingPost(ls: seq<Listener>, op: Op): seq<Listener>
    decreases |ls|
  {
    if ls == [] then []
    else if !ls[0].pre && Matches(ls[0], op) then [ls[0]] + MatchingPost(ls[1..], op)
    else MatchingPost(ls[1..], op)
  }

  function Reverse(s: seq<Listener>): seq<Listener>
  {
    if s == [] then [] else Reverse(s[1..]) + [s[0]]
  }

  lemma MatchingPostNone(ls: seq<Listener>, op: Op)
    requires forall i :: 0 <= i < |ls| ==> ls[i].pre
    ensures MatchingPost(ls, op) == []
  {
  }

  lemma MatchingPreNone(ls: seq<Listener>, op: Op)
    requires forall i :: 0 <= i < |ls| ==> !ls[i].pre
    ensures MatchingPre(ls, op) == []
  {
  }

  /** In a phase-ordered list whose handlers all agree, firing the PRE
      listeners calls exactly the matching PRE listeners, newest first:
      stopping at the first matching POST listener loses none. And the
      first veto stops the walk at that listener. */
  lemma {:induction false} PreFireAllAgree(ls: seq<Listener>, op: Op, verdict: Verdict)
    requires PhaseOrdered(ls)
    requires forall c :: c in ls ==> verdict(c, op)
    ensures PreFire(ls, op, verdict) == (true, MatchingPre(ls, op))
    decreases |ls|
  {
    if ls != [] {
      var l := ls[0];
      assert PhaseOrdered(ls[1..]) by {
        forall i, j | 0 <= i < j < |ls[1..]| && ls[1..][j].pre ensures ls[1..][i].pre {
          assert ls[1..][i] == ls[i + 1] && ls[1..][j] == ls[j + 1];
        }
      }
      PreFireAllAgree(ls[1..], op, verdict);
      if !l.pre {
        assert forall i :: 0 <= i < |ls| ==> !ls[i].pre;
        MatchingPreNone(ls, op);
        MatchingPreNone(ls[1..], op);
      }
    }
  }

  /** One step of `PreFire` at position `i`. */
  lemma PreFireAt(ls: seq<Listener>, i: nat, op: Op, verdict: Verdict)
    requires i < |ls|
    ensures !Matches(ls[i], op) ==> PreFire(ls[i..], op, verdict) == PreFire(ls[i + 1..], op, verdict)
    ensures Matches(ls[i], op) && !ls[i].pre ==> PreFire(ls[i..], op, verdict) == (true, [])
    ensures Matches(ls[i], op) && ls[i].pre && !verdict(ls[i], op) ==>
              PreFire(ls[i..], op, verdict) == (false, [ls[i]])
    ensures Matches(ls[i], op) && ls[i].pre && verdict(ls[i], op) ==>
              PreFire(ls[i..], op, verdict).0 == PreFire(ls[i + 1..], op, verdict).0
              && PreFire(ls[i..], op, verdict).1 == [ls[i]] + PreFire(ls[i + 1..], op, verdict).1
  {
    assert ls[i..][0] == ls[i] && ls[i..][1..] == ls[i + 1..];
  }

  /** `pcvariant_on_pre_fired`: `op` is masked with `PCVAR_OPERATION_ALL`
      and must not then be all of it. */
  method OnPreFired(source: Variant, op: Op, verdict: Verdict) returns (ok: bool, calls: seq<Listener>)
    requires op & OP_ALL != OP_ALL
    ensures (ok, calls) == PreFire(source.listeners, op & OP_ALL, verdict)
  {
    var o := op & OP_ALL;
    var ls := source.listeners;
    var i := 0;
    calls := [];
    assert ls[i..] == ls;
    assert calls + PreFire(ls, o, verdict).1 == PreFire(ls, o, verdict).1;
    while i < |ls|
      invariant 0 <= i <= |ls|
      invariant PreFire(ls, o, verdict).0 == PreFire(ls[i..], o, verdict).0
      invariant PreFire(ls, o, verdict).1 == calls + PreFire(ls[i..], o, verdict).1
    {
      var curr := ls[i];
      PreFireAt(ls, i, o, verdict);
      if curr.op & o == 0 {
        i := i + 1;
        continue;
      }
      if !curr.pre {
        assert calls + [] == calls;
        return true, calls;
      }
      if !verdict(curr, o) {
        return false, calls + [curr];
      }
      ghost var rest := PreFire(ls[i + 1..], o, verdict).1;
      assert calls + ([curr] + rest) == (calls + [curr]) + rest;
      calls := calls + [curr];
      i := i + 1;
    }
    assert ls[i..] == [];
    assert calls + [] == calls;
    return true, calls;
  }

  /** What `pcvariant_on_post_fired` does from the tail of `ls`: the
      listeners it calls, in order. */
  function PostFire(ls: seq<Listener>, op: Op): (r: seq<Listener>)
    ensures forall c :: c in r ==> c in ls && !c.pre && Matches(c, op)
    decreases |ls|
  {
    if ls == [] then []
    else
      var l := ls[|ls| - 1];
      var init := ls[..|ls| - 1];
      if !Matches(l, op) then PostFire(init, op)
      else if l.pre then []
      else
        var rest := PostFire(init, op);
        assert forall c :: c in [l] + rest ==> c == l || c in rest;
        [l] + rest
  }

  lemma {:induction false} MatchingPostSnoc(ls: seq<Listener>, l: Listener, op: Op)
    ensures MatchingPost(ls + [l], op) == MatchingPost(ls, op) + (if !l.pre && Matches(l, op) then [l] else [])
    decreases |ls|
  {
    if ls == [] {
    } else {
      assert (ls + [l])[1..] == ls[1..] + [l];
      MatchingPostSnoc(ls[1..], l, op);
    }
  }

  lemma ReverseSnoc(s: seq<Listener>, l: Listener)
    ensures Reverse(s + [l]) == [l] + Reverse(s)
    decreases |s|
  {
    if s != [] {
      assert (s + [l])[1..] == s[1..] + [l];
      ReverseSnoc(s[1..], l);
    }
  }

  /** In a phase-ordered list, firing the POST listeners calls exactly the
      matching POST listeners, newest first. */
  lemma {:induction false} PostFireIsReverse(ls: seq<Listener>, op: Op)
    requires PhaseOrdered(ls)
    ensures PostFire(ls, op) == Reverse(MatchingPost(ls, op))
    decreases |ls|
  {
    if ls != [] {
      var l := ls[|ls| - 1];
      var init := ls[..|ls| - 1];
      assert ls == init + [l];
      assert PhaseOrdered(init) by {
        forall i, j | 0 <= i < j < |init| && init[j].pre ensures init[i].pre {
          assert init[i] == ls[i] && init[j] == ls[j];
        }
      }
      MatchingPostSnoc(init, l, op);
      PostFireIsReverse(init, op);
      if l.pre {
        assert forall i :: 0 <= i < |init| ==> init[i].pre by {
          forall i | 0 <= i < |init| ensures init[i].pre { assert init[i] == ls[i]; }
        }
        MatchingPostNone(init, op);
      } else if Matches(l, op) {
        ReverseSnoc(MatchingPost(init, op), l);
      } else {
        assert MatchingPost(init, op) + [] == MatchingPost(init, op);
      }
    }
  }

  /** `pcvariant_on_post_fired`.  The handlers' results are not looked at
      here beyond the source's debug assertion. */
  method OnPostFired(source: Variant, op: Op) returns (calls: seq<Listener>)
    requires op & OP_ALL != OP_ALL
    ensures calls == PostFire(source.listeners, op & OP_ALL)
  {
    var o := op & OP_ALL;
    var ls := source.listeners;
    var i := |ls|;
    calls := [];
    assert ls[..i] == ls;
    while i > 0
      invariant 0 <= i <= |ls|
      invariant PostFire(ls, o) == calls + PostFire(ls[..i], o)
    {
      var curr := ls[i - 1];
      assert ls[..i][..i - 1] == ls[..i - 1];
      if curr.op & o == 0 {
        i := i - 1;
        continue;
      }
      if curr.pre {
        break;
      }
      calls := calls + [curr];
      i := i - 1;
    }
    if i == 0 {
      assert PostFire(ls[..i], o) == [];
    }
  }

  // ---------------------------------------------------------------------
  // Reverse-update edges

  /** `pcvar_container_belongs_to_set`: a container whose edge slot has a
      parent.  Other values never belong to a set. */
  predicate BelongsToSet(val: Variant)
    reads val
  {
    IsContainer(val.kind) && val.chain.parent != null
  }

  /** The slot is empty, as `pcvar_build_edge` demands of it. */
  predicate EmptySlot(e: Edge)
  {
    e.parent == null && e.preListener == null && e.postListener == null
  }

  /** What `pcvar_build_edge` demands of the edge to install. */
  predicate InstallableEdge(edge: Edge)
    reads edge.parent
  {
    edge.preListener == null && edge.postListener == null
    && edge.parent != null && (edge.parent.kind == Set || BelongsToSet(edge.parent))
  }

  /** `pcvar_build_edge` with the rollback revoking the PRE listener it
      has just registered.  `allocPre` and `allocPost` say whether the two
      listeners can be allocated. */
  method BuildEdge(val: Variant, edge: Edge, allocPre: bool, allocPost: bool) returns (r: int)
    requires InstallableEdge(edge)
    requires EmptySlot(val.chain)
    modifies val
    ensures r == 0 <==> IsContainer(val.kind) && allocPre && allocPost
    ensures r != 0 ==> r == -1 && val.listeners == old(val.listeners) && val.chain == old(val.chain)
    ensures r == 0 ==>
      var p, q := val.chain.preListener, val.chain.postListener;
      p != null && q != null && fresh(p) && fresh(q)
      && p.pre && p.op == OP_ALL && p.handler == RevUpdatePre && p.ctxt == val
      && !q.pre && q.op == OP_ALL && q.handler == RevUpdatePost && q.ctxt == val
      && val.listeners == [p] + old(val.listeners) + [q]
      && val.chain == edge.(preListener := p, postListener := q)
  {
    var pre, err := RegisterPreListener(val, OP_ALL, RevUpdatePre, val, allocPre);
    if pre == null {
      return -1;
    }
    var post, err2 := RegisterPostListener(val, OP_ALL, RevUpdatePost, val, allocPost);
    if post == null {
      var ok, err3 := RevokeListener(val, pre);
      RevokeUndoesRegister(old(val.listeners), pre);
      return -1;
    }
    val.chain := edge.(preListener := pre, postListener := post);
    r := 0;
  }

  /** `pcvar_build_edge` as written: when the POST listener cannot be
      allocated, the rollback revokes the slot's PRE listener, still NULL
      at that point, instead of the one just registered.  The revocation
      fails and the new PRE listener stays linked. */
  method BuildEdgeAsWritten(val: Variant, edge: Edge, allocPre: bool, allocPost: bool)
    returns (r: int, rollbackOk: bool)
    requires InstallableEdge(edge)
    requires EmptySlot(val.chain)
    modifies val
    ensures IsContainer(val.kind) && allocPre && !allocPost ==>
      r == -1 && !rollbackOk && val.chain == old(val.chain)
      && |val.listeners| == |old(val.listeners)| + 1 && val.listeners[1..] == old(val.listeners)
      && val.listeners[0].pre && val.listeners[0].handler == RevUpdatePre
  {
    rollbackOk := true;
    var pre, err := RegisterPreListener(val, OP_ALL, RevUpdatePre, val, allocPre);
    if pre == null {
      return -1, rollbackOk;
    }
    var post, err2 := RegisterPostListener(val, OP_ALL, RevUpdatePost, val, allocPost);
    if post == null {
      var err3;
      rollbackOk, err3 := RevokeListener(val, val.chain.preListener);
      return -1, rollbackOk;
    }
    val.chain := edge.(preListener := pre, postListener := post);
    r := 0;
  }

  /** What `pcvar_break_edge` demands of a slot that holds an edge: both
      listeners are linked and distinct, and both ends are containers. */
  predicate BreakableSlot(val: Variant)
    reads val, val.chain.parent
  {
    val.chain.parent != null
    && val.chain.preListener != null && val.chain.postListener != null
    && val.chain.preListener != val.chain.postListener
    && val.chain.preListener in val.listeners && val.chain.postListener in val.listeners
    && IsContainer(val.kind) && IsContainer(val.chain.parent.kind)
  }

  /** `pcvar_break_edge`: nothing to do on an empty slot; otherwise both
      listeners are revoked and the slot is cleared.  `edge` is the
      caller's view of the same edge. */
  method BreakEdge(val: Variant, edge: Edge)
    requires edge.parent == val.chain.parent && edge.anchor == val.chain.anchor
    requires val.chain.parent != null ==> BreakableSlot(val)
    modifies val
    ensures old(val.chain.parent) == null ==> val.listeners == old(val.listeners) && val.chain == old(val.chain)
    ensures old(val.chain.parent) != null ==>
      val.chain == NoEdge
      && val.listeners == Without(Without(old(val.listeners), old(val.chain.preListener)), old(val.chain.postListener))
  {
    if val.chain.parent == null {
      return;
    }
    var pre, post := val.chain.preListener, val.chain.postListener;
    var ok, err := RevokeListener(val, pre);
    assert post in Without(old(val.listeners), pre) by {
      var ls := old(val.listeners);
      var k :| 0 <= k < |ls| && ls[k] == pre && pre !in ls[..k] by {
        FirstIndex(ls, pre);
      }
      WithoutAt(ls, pre, k);
      var j :| 0 <= j < |ls| && ls[j] == post;
      assert j < k ==> (ls[..k] + ls[k + 1..])[j] == post;
      assert j > k ==> (ls[..k] + ls[k + 1..])[j - 1] == post;
    }
    val.chain := val.chain.(preListener := null);
    ok, err := RevokeListener(val, post);
    val.chain := NoEdge;
  }

  lemma FirstIndex(ls: seq<Listener>, l: Listener)
    requires l in ls
    ensures exists k :: 0 <= k < |ls| && ls[k] == l && l !in ls[..k]
  {
    var k := 0;
    while ls[k] != l
      invariant 0 <= k < |ls| && l in ls[k..] && l !in ls[..k]
      decreases |ls| - k
    {
      assert ls[k..] == [ls[k]] + ls[k + 1..];
      assert ls[..k + 1] == ls[..k] + [ls[k]];
      k := k + 1;
    }
  }

  /** A freshly built edge, broken again, leaves the listener list as it
      was before the build. */
  lemma BuildBreakRestores(ls: seq<Listener>, p: Listener, q: Listener)
    requires p !in ls && q !in ls && p != q
    ensures Without(Without([p] + ls + [q], p), q) == ls
  {
    assert [p] + ls + [q] == [p] + (ls + [q]);
    RevokeUndoesRegister(ls + [q], p);
    RevokeUndoesRegister(ls, q);
  }

  /** A chain of parents from a container upward: each value's slot names
      the next one, and the last has no parent. */
  predicate ParentPath(path: seq<Variant>)
    reads path
  {
    |path| > 0
    && (forall i :: 0 <= i < |path| ==> IsContainer(path[i].kind))
    && (forall i :: 0 <= i < |path| - 1 ==> path[i].chain.parent == path[i + 1])
    && path[|path| - 1].chain.parent == null
  }

  /** Only the last value of a parent chain has no parent. */
  lemma OnlyTopHasNoParent(path: seq<Variant>)
    requires ParentPath(path)
    ensures forall i :: 0 <= i < |path| && path[i].chain.parent == null ==> i == |path| - 1
  {
    forall i | 0 <= i < |path| - 1 ensures path[i].chain.parent != null {
      assert path[i].chain.parent == path[i + 1];
    }
  }

  /** A value has at most one chain of parents. */
  lemma {:induction false} ParentPathUnique(p: seq<Variant>, q: seq<Variant>)
    requires ParentPath(p) && ParentPath(q) && p[0] == q[0]
    ensures p == q
    decreases |p|
  {
    OnlyTopHasNoParent(p);
    OnlyTopHasNoParent(q);
    if |p| > 1 {
      assert q[1] == p[1];
      ParentPathUnique(p[1..], q[1..]);
      assert p == [p[0]] + p[1..] && q == [q[0]] + q[1..];
    }
  }

  /** `pcvar_top_in_rev_update_chain`: follows the parents upward to the
      first value that has none.  The source loops for ever on a cycle of
      parents; `path` is the chain the caller knows to exist. */
  method TopInRevUpdateChain(val: Variant, ghost path: seq<Variant>) returns (top: Variant)
    requires ParentPath(path) && path[0] == val
    ensures top == path[|path| - 1] && top.chain.parent == null
    ensures forall i :: 0 <= i < |path| - 1 ==> path[i].chain.parent != null
  {
    OnlyTopHasNoParent(path);
    var v := val;
    ghost var i := 0;
    while v.chain.parent != null
      invariant 0 <= i < |path| && v == path[i]
      invariant forall j :: 0 <= j < i ==> path[j].chain.parent != null
      decreases |path| - i
    {
      v := v.chain.parent;
      i := i + 1;
    }
    return v;
  }

  /** Which walker a typed dispatch hands a value to. */
  datatype Walk = ArrayWalk | ObjectWalk | SetWalk | NoWalk

  /** `pcvar_build_rue_downward` and `pcvar_break_rue_downward`: arrays and
      objects walk their children; sets and scalars do nothing. */
  function RueDownward(k: Kind): (w: Walk)
    ensures w != SetWalk
    ensures w == NoWalk <==> k != Array && k != Object
  {
    match k
    case Array => ArrayWalk
    case Object => ObjectWalk
    case _ => NoWalk
  }

  /** `pcvar_build_edge_to_parent` and `pcvar_break_edge_to_parent`: an
      immutable value does nothing; each container goes to its own
      walker. */
  function EdgeToParent(k: Kind): (w: Walk)
    ensures w == NoWalk <==> !IsMutable(k)
    ensures k == Set ==> w == SetWalk
  {
    match k
    case Array => ArrayWalk
    case Object => ObjectWalk
    case Set => SetWalk
    case _ => NoWalk
  }
}
