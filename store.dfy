// A reference model of how the store applies the element operations a collection emits:
// the store's copy of one collection property is a sequence of cells, each an element id
// (unknown for an element the driver has added but not yet heard back about) and a value.
// This is the yardstick the diff engine is measured against; it is not driver code.

module Store {
  import opened Common
  import opened Wire
  import opened Marshal

  /** One collection update as PIN::Collection emits it: the `[value, Extra]` pair stored
      under the property of the update PIN. */
  datatype ElemOp = ElemOp(v: Native, x: Extra)

  datatype Cell = Cell(eid: Option<nat>, v: Native)

  /** The element id a local Extra stands for: the reserved ids mean "not known yet". */
  function KnownEid(eid: nat): (r: Option<nat>)
    ensures r.Some? <==> !IsSentinel(eid)
    ensures r.Some? ==> r.value == eid
  {
    if IsSentinel(eid) then None else Some(eid)
  }

  /** The store's copy of a collection whose values and extras are aligned. */
  function Mirror(vs: seq<Native>, xs: seq<Extra>): (s: seq<Cell>)
    requires |vs| == |xs|
    ensures |s| == |vs|
    ensures forall k :: 0 <= k < |s| ==> s[k] == Cell(KnownEid(xs[k].eid), vs[k])
  {
    seq(|vs|, k requires 0 <= k < |vs| => Cell(KnownEid(xs[k].eid), vs[k]))
  }

  /** No element id occurs twice. */
  predicate DistinctKnown(s: seq<Cell>) {
    forall j, k :: 0 <= j < |s| && 0 <= k < |s| && j != k && s[j].eid.Some? ==> s[j].eid != s[k].eid
  }

  /** The position of the element with id `e`. */
  function Find(s: seq<Cell>, e: nat): (r: Option<nat>)
    ensures r.Some? ==> r.value < |s| && s[r.value].eid == Some(e)
    ensures r.Some? ==> forall k :: 0 <= k < r.value ==> s[k].eid != Some(e)
    ensures r.None? ==> forall k :: 0 <= k < |s| ==> s[k].eid != Some(e)
  {
    if s == [] then None
    else if s[0].eid == Some(e) then Some(0)
    else match Find(s[1..], e)
      case None => None
      case Some(j) => Some(j + 1)
  }

  lemma FindDistinct(s: seq<Cell>, k: nat)
    requires DistinctKnown(s) && k < |s| && s[k].eid.Some?
    ensures Find(s, s[k].eid.value) == Some(k)
  {
  }

  function Remove(s: seq<Cell>, j: nat): seq<Cell>
    requires j < |s|
  {
    s[..j] + s[j + 1..]
  }

  function InsertAt(s: seq<Cell>, j: nat, c: Cell): seq<Cell>
    requires j <= |s|
  {
    s[..j] + [c] + s[j..]
  }

  /** Applies one element operation; `None` when the store would reject it (an unknown
      element id, or an operation collections never emit). */
  function Apply(s: seq<Cell>, op: ElemOp): Option<seq<Cell>> {
    var e := op.x.eid;
    match op.x.op
    case OpAdd =>
      if e == EID_LAST_ELEMENT then Some(s + [Cell(None, op.v)])
      else (match Find(s, e) case None => None case Some(j) => Some(InsertAt(s, j + 1, Cell(None, op.v))))
    case OpAddBefore =>
      if e == EID_FIRST_ELEMENT then Some([Cell(None, op.v)] + s)
      else (match Find(s, e) case None => None case Some(j) => Some(InsertAt(s, j, Cell(None, op.v))))
    case OpSet =>
      (match Find(s, e) case None => None case Some(j) => Some(s[j := Cell(s[j].eid, op.v)]))
    case OpDelete =>
      (match Find(s, e) case None => None case Some(j) => Some(Remove(s, j)))
    case OpMove =>
      (match (Find(s, e), op.v)
       case (Some(j), Int(a)) =>
         (if a < 0 then None else
           var r := Remove(s, j);
           match Find(r, a) case None => None case Some(q) => Some(InsertAt(r, q + 1, s[j])))
       case _ => None)
    case OpMoveBefore =>
      (match (Find(s, e), op.v)
       case (Some(j), Int(a)) =>
         (if a < 0 then None else
           var r := Remove(s, j);
           if a == EID_FIRST_ELEMENT then Some([s[j]] + r)
           else match Find(r, a) case None => None case Some(q) => Some(InsertAt(r, q, s[j])))
       case _ => None)
    case OpOther(_) => None
  }

  /** Applies operations in order, stopping at the first one the store rejects. */
  function Replay(s: seq<Cell>, ops: seq<ElemOp>): Option<seq<Cell>>
    decreases |ops|
  {
    if ops == [] then Some(s)
    else match Apply(s, ops[0])
      case None => None
      case Some(t) => Replay(t, ops[1..])
  }

  lemma {:induction false} ReplayAppend(s: seq<Cell>, a: seq<ElemOp>, b: seq<ElemOp>)
    ensures Replay(s, a + b) == (match Replay(s, a) case None => None case Some(t) => Replay(t, b))
    decreases |a|
  {
    if a == [] {
      assert a + b == b;
    } else {
      assert (a + b)[0] == a[0];
      assert (a + b)[1..] == a[1..] + b;
      match Apply(s, a[0]) {
        case None =>
        case Some(t) => ReplayAppend(t, a[1..], b);
      }
    }
  }

  lemma ReplayOne(s: seq<Cell>, op: ElemOp)
    ensures Replay(s, [op]) == Apply(s, op)
  {
    assert [op][1..] == [];
  }
}
