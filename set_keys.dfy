/** The unique key of a PurC set and what it picks out of a member: the
    key names `variant_set_init` cuts from the unique-key string, the key
    projection (`kvs`) of a member object, the key tuple a caller spells
    out argument by argument, and the union that overwriting a member
    builds. */
module SetKeys {
  import opened Wrappers
  import opened Variants

  // ---------------------------------------------------------------------
  // Unique key and key names

  /** The length of the run of non-space characters at the head of `s`. */
  function WordLen(s: string): (n: nat)
    ensures n <= |s|
    ensures forall i :: 0 <= i < n ==> s[i] != ' '
    ensures n < |s| ==> s[n] == ' '
  {
    if s == [] || s[0] == ' ' then 0 else 1 + WordLen(s[1..])
  }

  /** The tokens `strtok_r` with the delimiter " " returns from `s`, in
      order: the maximal runs of non-space characters. */
  function Tokens(s: string): seq<string>
    decreases |s|
  {
    if s == [] then []
    else if s[0] == ' ' then Tokens(s[1..])
    else [s[..WordLen(s)]] + Tokens(s[WordLen(s)..])
  }

  /** A set's key: the unique-key string it keeps (`unique_key`) and the
      key names cut from it (`keynames`).  A set without a unique key keeps
      neither and compares whole members. */
  datatype KeySpec = KeySpec(uniqueKey: Option<string>, keynames: seq<string>)

  /** `nr_keynames`: one when there are no key names. */
  function NrKeynames(k: KeySpec): nat
  {
    if k.uniqueKey.None? then 1 else |k.keynames|
  }

  /** What `variant_set_init` keeps for the unique key `uk`: nothing for a
      missing, empty or all-space key, else the key and its tokens. */
  function KeysOf(uk: Option<string>): KeySpec
  {
    if uk.None? || Tokens(uk.value) == [] then KeySpec(None, [])
    else KeySpec(uk, Tokens(uk.value))
  }

  lemma TokensSpace(s: string, i: nat)
    requires i < |s| && s[i] == ' '
    ensures Tokens(s[i..]) == Tokens(s[i + 1..])
  {
    assert s[i..][1..] == s[i + 1..];
  }

  lemma {:induction false} WordLenIs(t: string, n: nat)
    requires n <= |t|
    requires forall k :: 0 <= k < n ==> t[k] != ' '
    requires n == |t| || t[n] == ' '
    ensures WordLen(t) == n
    decreases n
  {
    if n > 0 {
      WordLenIs(t[1..], n - 1);
    }
  }

  lemma TokensWord(s: string, i: nat, j: nat)
    requires i < j <= |s|
    requires forall k :: i <= k < j ==> s[k] != ' '
    requires j == |s| || s[j] == ' '
    ensures Tokens(s[i..]) == [s[i..j]] + Tokens(s[j..])
  {
    var t := s[i..];
    WordLenIs(t, j - i);
    assert t[..j - i] == s[i..j];
    assert t[j - i..] == s[j..];
  }

  /** `variant_set_init`'s handling of the unique key: the `strtok_r` loop
      over spaces. */
  method InitKeys(uk: Option<string>) returns (k: KeySpec)
    ensures k == KeysOf(uk)
  {
    if uk.None? || uk.value == "" {
      return KeySpec(None, []);
    }
    var s := uk.value;
    var names: seq<string> := [];
    var i := 0;
    assert s[i..] == s;
    while i < |s|
      invariant i <= |s|
      invariant Tokens(s) == names + Tokens(s[i..])
    {
      if s[i] == ' ' {
        TokensSpace(s, i);
        i := i + 1;
      } else {
        var j := i + 1;
        while j < |s| && s[j] != ' '
          invariant i < j <= |s|
          invariant forall t :: i <= t < j ==> s[t] != ' '
        {
          j := j + 1;
        }
        TokensWord(s, i, j);
        names := names + [s[i..j]];
        i := j;
      }
    }
    assert names + [] == names;
    if names == [] {
      return KeySpec(None, []);
    }
    return KeySpec(uk, names);
  }

  /** A non-empty run of non-space characters. */
  predicate Word(w: string)
  {
    w != [] && forall k :: 0 <= k < |w| ==> w[k] != ' '
  }

  /** Every token is non-empty and holds no space. */
  lemma {:induction false} TokensWellFormed(s: string)
    ensures forall t :: t in Tokens(s) ==> Word(t)
    decreases |s|
  {
    if s != [] {
      if s[0] == ' ' {
        TokensWellFormed(s[1..]);
      } else {
        var n := WordLen(s);
        TokensWellFormed(s[n..]);
        assert forall k :: 0 <= k < n ==> s[..n][k] != ' ';
      }
    }
  }

  /** A string has no tokens exactly when it is all spaces. */
  lemma {:induction false} NoTokensIffBlank(s: string)
    ensures Tokens(s) == [] <==> forall i :: 0 <= i < |s| ==> s[i] == ' '
    decreases |s|
  {
    if s != [] {
      NoTokensIffBlank(s[1..]);
      if s[0] == ' ' {
        assert forall i :: 1 <= i < |s| ==> s[i] == s[1..][i - 1];
      }
    }
  }

  /** The words separated by single spaces. */
  function Join(ws: seq<string>): string
  {
    if ws == [] then ""
    else if |ws| == 1 then ws[0]
    else ws[0] + " " + Join(ws[1..])
  }

  lemma TokensOfWord(w: string)
    requires Word(w)
    ensures Tokens(w) == [w]
  {
    WordLenIs(w, |w|);
    assert w[..|w|] == w && w[|w|..] == [];
  }

  lemma TokensOfWordThen(w: string, rest: string)
    requires Word(w)
    ensures Tokens(w + " " + rest) == [w] + Tokens(rest)
  {
    var s := w + " " + rest;
    assert forall k :: 0 <= k < |w| ==> s[k] == w[k];
    WordLenIs(s, |w|);
    assert s[..|w|] == w;
    assert s[|w|..] == " " + rest;
    TokensSpace(s[|w|..], 0);
    assert s[|w|..][1..] == rest;
  }

  /** Cutting the tokens of words joined by spaces gives the words back. */
  lemma {:induction false} TokensOfJoin(ws: seq<string>)
    requires forall w :: w in ws ==> Word(w)
    ensures Tokens(Join(ws)) == ws
    decreases |ws|
  {
    if ws == [] {
    } else if |ws| == 1 {
      TokensOfWord(ws[0]);
    } else {
      TokensOfWordThen(ws[0], Join(ws[1..]));
      assert forall w :: w in ws[1..] ==> w in ws;
      TokensOfJoin(ws[1..]);
      assert [ws[0]] + ws[1..] == ws;
    }
  }

  // ---------------------------------------------------------------------
  // The key names as `variant_set_init` leaves them, and the field walk
  // of `elem_node_break_rev_update_edges`

  /** The key fields as the source leaves them: `unique_key`, the slots of
      the `keynames` array it reads (`None` a NULL slot; the outer `None`
      a NULL array) and `nr_keynames`. */
  datatype RawKeys = RawKeys(uniqueKey: Option<string>, keynames: Option<seq<Option<string>>>, nr: nat)

  /** `variant_set_init` as written: for a non-empty key the key-name
      array is allocated before the tokens are cut, and when there turn
      out to be none only the key string is dropped, so the array stays,
      with its first slot NULL. */
  function InitAsWritten(uk: Option<string>): RawKeys
  {
    if uk.None? || uk.value == "" then RawKeys(None, None, 1)
    else
      var toks := Tokens(uk.value);
      if toks == [] then RawKeys(None, Some([None]), 1)
      else RawKeys(uk, Some(Slots(toks)), |toks|)
  }

  /** A key-name array holding the given names. */
  function Slots(ks: seq<string>): (r: seq<Option<string>>)
    ensures |r| == |ks|
  {
    if ks == [] then [] else [Some(ks[0])] + Slots(ks[1..])
  }

  /** The corrected key fields: no key-name array without a unique key. */
  function RawOf(k: KeySpec): RawKeys
  {
    if k.uniqueKey.None? then RawKeys(None, None, 1)
    else RawKeys(k.uniqueKey, Some(Slots(k.keynames)), |k.keynames|)
  }

  /** The inner loop of the walk: whether `sk` equals one of the slots,
      `None` when it reaches a NULL slot first (`strcmp` on NULL). */
  function SlotMatch(sk: string, slots: seq<Option<string>>): Option<bool>
  {
    if slots == [] then Some(false)
    else if slots[0].None? then None
    else if slots[0].value == sk then Some(true)
    else SlotMatch(sk, slots[1..])
  }

  /** The fields (by name, in walk order) whose values
      `elem_node_break_rev_update_edges` detaches: with a key-name array,
      the named ones; without, all.  `None`: the walk compares a field name
      with a NULL slot. */
  function BreakFieldsAsWritten(k: RawKeys, names: seq<string>): Option<seq<string>>
  {
    if names == [] then Some([])
    else
      var sel := if k.keynames.None? then Some(true) else SlotMatch(names[0], k.keynames.value[..if k.nr <= |k.keynames.value| then k.nr else |k.keynames.value|]);
      match sel
      case None => None
      case Some(b) =>
        match BreakFieldsAsWritten(k, names[1..])
        case None => None
        case Some(rest) => Some((if b then [names[0]] else []) + rest)
  }

  /** The walk's choice of fields for the corrected key fields. */
  function BreakFields(k: KeySpec, names: seq<string>): seq<string>
  {
    if names == [] then []
    else if k.uniqueKey.None? || names[0] in k.keynames then [names[0]] + BreakFields(k, names[1..])
    else BreakFields(k, names[1..])
  }

  /** The corrected walk detaches exactly the key fields, or every field
      when there is no unique key. */
  lemma {:induction false} BreakFieldsExact(k: KeySpec, names: seq<string>, x: string)
    ensures x in BreakFields(k, names) <==> x in names && (k.uniqueKey.None? || x in k.keynames)
    decreases |names|
  {
    if names != [] {
      BreakFieldsExact(k, names[1..], x);
      assert names == [names[0]] + names[1..];
    }
  }

  /** A non-empty all-space unique key leaves a key-name array whose one
      slot read is NULL, so the walk fails on the first field of any
      member. */
  lemma BlankKeyBreakFails(uk: string, names: seq<string>)
    requires uk != [] && forall i :: 0 <= i < |uk| ==> uk[i] == ' '
    requires names != []
    ensures InitAsWritten(Some(uk)) == RawKeys(None, Some([None]), 1)
    ensures BreakFieldsAsWritten(InitAsWritten(Some(uk)), names) == None
  {
    NoTokensIffBlank(uk);
    var slots: seq<Option<string>> := [None];
    assert slots[..1] == slots;
  }

  /** With the corrected key fields the same walk detaches every field, as
      for a set without a unique key. */
  lemma BlankKeyBreakCorrected(uk: string, names: seq<string>)
    requires forall i :: 0 <= i < |uk| ==> uk[i] == ' '
    ensures KeysOf(Some(uk)) == KeysOf(None)
    ensures BreakFields(KeysOf(Some(uk)), names) == names
  {
    NoTokensIffBlank(uk);
    BreakFieldsAll(KeysOf(None), names);
  }

  lemma {:induction false} BreakFieldsAll(k: KeySpec, names: seq<string>)
    requires k.uniqueKey.None?
    ensures BreakFields(k, names) == names
    decreases |names|
  {
    if names != [] {
      BreakFieldsAll(k, names[1..]);
    }
  }

  lemma {:induction false} SlotMatchNames(sk: string, ks: seq<string>)
    ensures SlotMatch(sk, Slots(ks)) == Some(sk in ks)
    decreases |ks|
  {
    if ks != [] {
      SlotMatchNames(sk, ks[1..]);
      assert ks == [ks[0]] + ks[1..];
    }
  }

  lemma {:induction false} BreakFieldsRaw(k: KeySpec, names: seq<string>)
    ensures BreakFieldsAsWritten(RawOf(k), names) == Some(BreakFields(k, names))
    decreases |names|
  {
    if names != [] {
      BreakFieldsRaw(k, names[1..]);
      var raw := RawOf(k);
      if k.uniqueKey.Some? {
        var slots := Slots(k.keynames);
        assert raw.keynames == Some(slots) && raw.nr == |slots|;
        assert slots[..raw.nr] == slots;
        SlotMatchNames(names[0], k.keynames);
        assert SlotMatch(names[0], slots[..raw.nr]) == Some(names[0] in k.keynames);
      }
      var rest := BreakFields(k, names[1..]);
      assert [] + rest == rest;
    }
  }

  /** Away from non-empty all-space keys, the source's key fields are the
      corrected ones, so its walk is the corrected walk. */
  lemma AsWrittenAgrees(uk: Option<string>, names: seq<string>)
    requires uk.None? || uk.value == "" || Tokens(uk.value) != []
    ensures InitAsWritten(uk) == RawOf(KeysOf(uk))
    ensures BreakFieldsAsWritten(InitAsWritten(uk), names) == Some(BreakFields(KeysOf(uk), names))
  {
    BreakFieldsRaw(KeysOf(uk), names);
  }

  // ---------------------------------------------------------------------
  // Key projection

  /** `variant_set_kvs_from_val`: the named fields the member has, or the
      whole member when there are no key names. */
  function Projection(k: KeySpec, f: Obj): Obj
  {
    if k.uniqueKey.None? then f
    else map n | n in f.Keys && n in k.keynames :: f[n]
  }

  /** The projection holds exactly the named fields present in the member,
      with the member's values, and never a field the member lacks. */
  lemma ProjectionExact(k: KeySpec, f: Obj, n: string)
    ensures n in Projection(k, f) <==> n in f && (k.uniqueKey.None? || n in k.keynames)
    ensures n in Projection(k, f) ==> Projection(k, f)[n] == f[n]
  {
  }

  /** `variant_set_kvs_from_val`: the loop over the key names, skipping
      those the member lacks. */
  method KvsFromVal(k: KeySpec, f: Obj) returns (kvs: Obj)
    ensures kvs == Projection(k, f)
  {
    if k.uniqueKey.None? {
      return f;
    }
    var names := k.keynames;
    kvs := map[];
    var i := 0;
    while i < |names|
      invariant i <= |names|
      invariant kvs == map n | n in f.Keys && n in names[..i] :: f[n]
    {
      var sk := names[i];
      assert names[..i + 1] == names[..i] + [sk];
      if sk in f {
        kvs := kvs[sk := f[sk]];
      }
      i := i + 1;
    }
    assert names[..i] == names;
  }

  // ---------------------------------------------------------------------
  // Key tuples

  /** One argument of a key-tuple lookup: `PURC_VARIANT_INVALID`,
      `undefined` (the field is absent), or a value. */
  datatype Arg = Invalid | Undefined | Val(v: Field)

  /** The object the first `n` arguments build, each value under its key
      name, the later of two equal names winning. */
  function TupleOf(names: seq<string>, args: seq<Arg>, n: nat): Obj
    requires n <= |names| && n <= |args|
  {
    if n == 0 then map[]
    else
      var m := TupleOf(names, args, n - 1);
      match args[n - 1]
      case Val(v) => m[names[n - 1] := v]
      case _ => m
  }

  /** `variant_set_create_kvs_n`: one argument per key name; an invalid
      one fails with `PURC_ERROR_INVALID_VALUE`, `undefined` is skipped. */
  method CreateKvsN(k: KeySpec, args: seq<Arg>) returns (r: Result<Obj, VarError>)
    requires k.uniqueKey.Some?
    requires |args| >= |k.keynames|
    ensures r.Err? <==> exists i :: 0 <= i < |k.keynames| && args[i] == Invalid
    ensures r.Err? ==> r.error == InvalidValue
    ensures r.Ok? ==> r.value == TupleOf(k.keynames, args, |k.keynames|)
  {
    var names := k.keynames;
    var kvs: Obj := map[];
    var i := 0;
    while i < |names|
      invariant i <= |names|
      invariant forall j :: 0 <= j < i ==> args[j] != Invalid
      invariant kvs == TupleOf(names, args, i)
    {
      var v := args[i];
      if v == Invalid {
        return Err(InvalidValue);
      }
      if v.Val? {
        kvs := kvs[names[i] := v.v];
      }
      i := i + 1;
    }
    return Ok(kvs);
  }

  /** The arguments a caller passes to look a member up: for each key name,
      the member's value, or `undefined` when it lacks the field. */
  predicate ArgsOf(names: seq<string>, f: Obj, args: seq<Arg>)
  {
    |args| >= |names|
    && forall i :: 0 <= i < |names| ==>
         args[i] == (if names[i] in f then Val(f[names[i]]) else Undefined)
  }

  lemma {:induction false} TupleOfPrefix(names: seq<string>, f: Obj, args: seq<Arg>, n: nat)
    requires ArgsOf(names, f, args) && n <= |names|
    ensures TupleOf(names, args, n) == map x | x in f.Keys && x in names[..n] :: f[x]
    decreases n
  {
    if n > 0 {
      TupleOfPrefix(names, f, args, n - 1);
      assert names[..n] == names[..n - 1] + [names[n - 1]];
    }
  }

  /** Spelling out a member's key values argument by argument gives its
      projection: the key-tuple lookups find the member by them. */
  lemma TupleOfMember(k: KeySpec, f: Obj, args: seq<Arg>)
    requires k.uniqueKey.Some?
    requires ArgsOf(k.keynames, f, args)
    ensures TupleOf(k.keynames, args, |k.keynames|) == Projection(k, f)
  {
    TupleOfPrefix(k.keynames, f, args, |k.keynames|);
    assert k.keynames[..|k.keynames|] == k.keynames;
  }

  // ---------------------------------------------------------------------
  // Union

  /** `variant_set_union` as a value: every field of either object, the
      new one winning. */
  function Union(o: Obj, n: Obj): Obj
  {
    map x | x in o.Keys + n.Keys :: if x in n then n[x] else o[x]
  }

  /** `variant_set_union`: copies the new member's fields, then those of
      the old member the output does not hold yet. */
  method UnionFields(o: Obj, n: Obj) returns (out: Obj)
    ensures out == Union(o, n)
  {
    out := CopyFields(n);
    out := AddMissing(out, o, n);
  }

  /** The first loop of `variant_set_union`. */
  method CopyFields(n: Obj) returns (out: Obj)
    ensures out == n
  {
    out := map[];
    var todo := n.Keys;
    while todo != {}
      invariant todo <= n.Keys
      invariant out.Keys == n.Keys - todo
      invariant forall x :: x in out ==> out[x] == n[x]
      decreases |todo|
    {
      var x :| x in todo;
      out := out[x := n[x]];
      todo := todo - {x};
    }
  }

  /** The second loop of `variant_set_union`: the old member's fields the
      output lacks. */
  method AddMissing(out0: Obj, o: Obj, n: Obj) returns (out: Obj)
    requires out0 == n
    ensures out == Union(o, n)
  {
    out := out0;
    var todo := o.Keys;
    while todo != {}
      invariant todo <= o.Keys
      invariant UnionSoFar(out, o, n, todo)
      decreases |todo|
    {
      var x :| x in todo;
      UnionStep(out, o, n, todo, x);
      if x !in out {
        out := out[x := o[x]];
      }
      todo := todo - {x};
    }
    UnionByParts(out, o, n);
  }

  /** The output of the second loop so far: the new member's fields and
      the old member's fields already visited. */
  ghost predicate UnionSoFar(out: Obj, o: Obj, n: Obj, todo: set<string>)
  {
    (forall x :: x in out <==> x in n || (x in o && x !in todo))
    && (forall x :: x in n ==> out[x] == n[x])
    && (forall x :: x in out && x !in n ==> out[x] == o[x])
  }

  lemma UnionStep(out: Obj, o: Obj, n: Obj, todo: set<string>, x: string)
    requires UnionSoFar(out, o, n, todo) && x in todo && todo <= o.Keys
    ensures x in out ==> UnionSoFar(out, o, n, todo - {x})
    ensures x !in out ==> UnionSoFar(out[x := o[x]], o, n, todo - {x})
  {
  }

  lemma UnionByParts(out: Obj, o: Obj, n: Obj)
    requires UnionSoFar(out, o, n, {})
    ensures out == Union(o, n)
  {
  }

  /** Overwriting a member by itself changes no field. */
  lemma UnionSelf(o: Obj)
    ensures Union(o, o) == o
  {
  }

  /** Overwriting a member by one with the same key keeps the key: the
      union projects as the new member does, so the node's cached `kvs`
      stays right. */
  lemma UnionKeepsKey(k: KeySpec, o: Obj, n: Obj)
    requires Projection(k, o) == Projection(k, n)
    ensures Projection(k, Union(o, n)) == Projection(k, n)
  {
    if k.uniqueKey.Some? {
      forall x | x in k.keynames
        ensures (x in Union(o, n)) == (x in n)
        ensures x in n ==> Union(o, n)[x] == n[x]
      {
        assert x in Projection(k, o) <==> x in o;
        assert x in Projection(k, n) <==> x in n;
      }
    }
  }
}
