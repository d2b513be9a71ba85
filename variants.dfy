/** The parts of a PurC variant that the listener registry, the
    reverse-update edges and the set container work on: its type, its
    listener list, its reverse-update edge slot and, for an object, its
    fields. */
module Variants {

  /** `purc_variant_type`. */
  datatype Kind =
    | Null | Boolean | Exception | Number | LongInt | ULongInt | LongDouble
    | AtomString | String | BSequence | Dynamic | Native
    | Array | Object | Set

  /** `IS_CONTAINER`. */
  predicate IsContainer(k: Kind) { k == Array || k == Object || k == Set }

  /** `pcvariant_is_mutable`: the containers. */
  predicate IsMutable(k: Kind) { IsContainer(k) }

  /** `pcvar_op_t`, an `unsigned int` bit mask. */
  type Op = bv32

  const OP_GROW: Op := 1
  const OP_SHRINK: Op := 2
  const OP_CHANGE: Op := 4
  const OP_ALL: Op := 7

  /** The handler a listener calls back.  Handlers are foreign code; the
      model only tells them apart, and `NoHandler` is the NULL pointer. */
  datatype Handler =
    | NoHandler
    | RevUpdatePre        // rev_update_chain_pre_handler
    | RevUpdatePost       // rev_update_chain_post_handler
    | SetConstraints      // variant_set_constraints_handler
    | User(id: nat)

  /** The errors `pcinst_set_error` records for these operations. */
  datatype VarError =
    | NoError
    | WrongArgs           // PCVARIANT_ERROR_WRONG_ARGS
    | NotSupported        // PURC_ERROR_NOT_SUPPORTED
    | OutOfMemory         // PURC_ERROR_OUT_OF_MEMORY
    | InvalidValue        // PURC_ERROR_INVALID_VALUE
    | NotFound            // PCVARIANT_ERROR_NOT_FOUND
    | OutOfBounds         // PCVARIANT_ERROR_OUT_OF_BOUNDS

  /** The value of an object field.  Fields hold scalars here. */
  datatype Field = NullField | BoolField(b: bool) | NumberField(n: int) | StringField(s: string)

  /** An object's fields by key. */
  type Obj = map<string, Field>

  /** `struct pcvar_listener`: fixed when it is registered. */
  class Listener {
    const pre: bool           // PCVAR_LISTENER_PRE, else POST
    const op: Op
    const handler: Handler
    const ctxt: object?

    constructor (pre: bool, op: Op, handler: Handler, ctxt: object?)
      ensures this.pre == pre && this.op == op && this.handler == handler && this.ctxt == ctxt
    {
      this.pre := pre;
      this.op := op;
      this.handler := handler;
      this.ctxt := ctxt;
    }
  }

  /** `struct pcvar_rev_update_edge`: the parent container, the node of the
      parent that holds this value (`arr_me`/`obj_me`/`set_me`), and the
      two listeners the edge registered on this value. */
  datatype Edge = Edge(parent: Variant?, anchor: object?, preListener: Listener?, postListener: Listener?)

  /** The cleared slot. */
  const NoEdge: Edge := Edge(null, null, null, null)

  /** A variant: its type, its `listeners` list and, for containers, the
      `rev_update_chain` slot of its data. */
  class Variant {
    const kind: Kind
    const fields: Obj
    var listeners: seq<Listener>
    var chain: Edge

    constructor (kind: Kind, fields: Obj)
      ensures this.kind == kind && this.fields == fields
      ensures listeners == [] && chain == NoEdge
    {
      this.kind := kind;
      this.fields := fields;
      listeners := [];
      chain := NoEdge;
    }
  }
}
