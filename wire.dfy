// Shared vocabulary of the driver: optional values, the wire's operation codes and
// value-type tags, the reserved element ids, and the per-value `Extra` record
// (affinity.rb:395-431).

module Common {
  datatype Option<+T> = None | Some(value: T)

  /** Ruby's `Integer#<=>` on two integers. */
  function Spaceship(a: int, b: int): (r: int)
    ensures r == -1 || r == 0 || r == 1
    ensures r == 0 <==> a == b
    ensures r < 0 <==> a < b
  {
    if a < b then -1 else if a == b then 0 else 1
  }
}

module Wire {
  import opened Common

  /** Reserved element ids (affinity.rb:417-419): "no particular element", and the two
      insert-position markers. Real element ids are assigned by the store. */
  const EID_COLLECTION: nat := 4294967295
  const EID_LAST_ELEMENT: nat := 4294967294
  const EID_FIRST_ELEMENT: nat := 4294967293

  predicate IsSentinel(eid: nat) {
    eid == EID_COLLECTION || eid == EID_LAST_ELEMENT || eid == EID_FIRST_ELEMENT
  }

  /** Modification operations carried by a wire value (the first six entries of OP_NAMES,
      affinity.rb:402); every other code (OP_EDIT, arithmetic ops, ...) is `OpOther`. */
  datatype ModOp = OpSet | OpAdd | OpAddBefore | OpMove | OpMoveBefore | OpDelete | OpOther(code: nat)

  /** Value-type tags (VT_NAMES, affinity.rb:407-416, and VT_QUERY used at affinity.rb:1072).
      Tags the driver never distinguishes (VT_INTERVAL, VT_STRUCT, ...) are `VtOther`. */
  datatype VType =
    | VtAny | VtInt | VtUint | VtInt64 | VtUint64 | VtFloat | VtDouble | VtBool
    | VtDateTime | VtUriId | VtString | VtBstr | VtUrl | VtRefId | VtRefIdProp | VtRefIdElt
    | VtQuery | VtArray | VtOther(code: nat)

  /** The hidden adornments of one stored value (class Extra, affinity.rb:398-431). */
  datatype Extra = Extra(propID: Option<nat>, vtype: VType, op: ModOp, eid: nat, meta: nat)

  /** `Extra.new` with all defaults (affinity.rb:420). */
  function NewExtra(): Extra {
    Extra(None, VtAny, OpSet, EID_COLLECTION, 0)
  }

  /** `Extra.collOp(op, eid)` (affinity.rb:430): defaults except operation and element id. */
  function CollOp(op: ModOp, eid: nat): Extra {
    NewExtra().(op := op, eid := eid)
  }

  /** The element ids of a sequence of extras, in order. */
  function Eids(xs: seq<Extra>): seq<nat> {
    seq(|xs|, k requires 0 <= k < |xs| => xs[k].eid)
  }
}
