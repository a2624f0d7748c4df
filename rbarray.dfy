// The Ruby Array primitives that PIN::Collection reaches through `super`
// (Array#insert, Array#[]=, Array#delete_at, Array#pop), on sequences of native values.

module RbArray {
  import opened Common
  import opened Marshal

  /** `n` nils: what Ruby pads with when writing past the end of an array. */
  function Nils(n: nat): (r: seq<Native>)
    ensures |r| == n && forall k :: 0 <= k < n ==> r[k] == Nil
  {
    seq(n, _ => Nil)
  }

  /** Where `Array#insert(pos, ...)` inserts: a negative position counts from the end, -1
      meaning after the last element; `None` is the IndexError for a position before the start. */
  function InsertPos(len: nat, pos: int): (p: Option<nat>)
    ensures pos >= 0 ==> p == Some(pos)
    ensures pos < 0 ==> (p.Some? <==> pos + 1 + len >= 0)
    ensures p.Some? && pos < 0 ==> p.value == pos + 1 + len
  {
    if pos >= 0 then Some(pos) else if pos + 1 + len < 0 then None else Some(pos + 1 + len)
  }

  /** `Array#insert`: no objects leaves the array alone; a position past the end pads with nil. */
  function Insert(a: seq<Native>, pos: int, objs: seq<Native>): (r: Option<seq<Native>>)
    ensures objs == [] ==> r == Some(a)
    ensures objs != [] ==> (r.Some? <==> InsertPos(|a|, pos).Some?)
    ensures objs != [] && r.Some? ==>
      var p := InsertPos(|a|, pos).value;
      |r.value| == (if p <= |a| then |a| else p) + |objs| &&
      r.value[..(if p <= |a| then p else |a|)] == a[..(if p <= |a| then p else |a|)] &&
      (p <= |a| ==> r.value[p..p + |objs|] == objs && r.value[p + |objs|..] == a[p..]) &&
      (p > |a| ==> r.value[|a|..p] == Nils(p - |a|) && r.value[p..] == objs)
  {
    if objs == [] then Some(a)
    else match InsertPos(|a|, pos)
      case None => None
      case Some(p) => Some(if p <= |a| then a[..p] + objs + a[p..] else a + Nils(p - |a|) + objs)
  }

  /** `Array#[]=(index, v)`: a negative index counts from the end (IndexError before the
      start), and an index past the end pads with nil. */
  function SetAt(a: seq<Native>, idx: int, v: Native): (r: Option<seq<Native>>)
    ensures r.Some? <==> idx >= -|a|
    ensures 0 <= idx < |a| ==> r == Some(a[idx := v])
    ensures -|a| <= idx < 0 ==> r == Some(a[idx + |a| := v])
    ensures idx >= |a| ==> r.Some? && |r.value| == idx + 1 && r.value[..|a|] == a && r.value[idx] == v
  {
    var j := if idx < 0 then idx + |a| else idx;
    if j < 0 then None
    else if j < |a| then Some(a[j := v])
    else Some(a + Nils(j - |a|) + [v])
  }

  /** `Array#delete_at(index)` for a non-negative index: the array without that element and
      the element, or the array unchanged and nil past the end. */
  function DeleteAt(a: seq<Native>, idx: nat): (r: (seq<Native>, Native))
    ensures idx < |a| ==> r.0 == a[..idx] + a[idx + 1..] && r.1 == a[idx]
    ensures idx >= |a| ==> r == (a, Nil)
  {
    if idx < |a| then (a[..idx] + a[idx + 1..], a[idx]) else (a, Nil)
  }

  /** `Array#pop(n)` for a positive count: the array without its last `min(n, |a|)`
      elements, and those elements in order. */
  function PopN(a: seq<Native>, n: nat): (r: (seq<Native>, seq<Native>))
    ensures r.0 + r.1 == a
    ensures |r.1| == if n <= |a| then n else |a|
  {
    var keep := if n <= |a| then |a| - n else 0;
    (a[..keep], a[keep..])
  }
}
