// What each PIN::Collection mutator (affinity.rb:133-316) does, as a function of the
// collection's values and its extras (absent when the PIN holds no extras for the
// property, which makes the collection "untracked"). A mutator may raise part-way; the
// outcome then keeps the state and the updates up to the raise, as Ruby does.

module Edits {
  import opened Common
  import opened Wire
  import opened Marshal
  import opened Store
  import opened Diff
  import RbArray

  /** A collection: its values and, when tracked, `@pin.extras[@property]`. */
  datatype Coll = Coll(vs: seq<Native>, xs: Option<seq<Extra>>)

  /** The outcome of a mutator: `ok` is false when it raised; `c` is the state it left,
      `ops` the updates it handed to `_handlePINUpdate`, in order, and `ret` its result. */
  datatype Run<R> = Run(ok: bool, c: Coll, ops: seq<ElemOp>, ret: R)

  /** The store can follow the collection: tracked, values and extras aligned, and no
      element id twice. */
  predicate InSync(c: Coll) {
    c.xs.Some? && Keyed(c.vs, c.xs.value)
  }

  /** Also every element id is known (the collection was saved and its ids back-filled). */
  predicate Saved(c: Coll) {
    InSync(c) && forall k :: 0 <= k < |c.xs.value| ==> !IsSentinel(c.xs.value[k].eid)
  }

  /** The store's copy of an in-sync collection. */
  function StoreCopy(c: Coll): seq<Cell>
    requires InSync(c)
  {
    Mirror(c.vs, c.xs.value)
  }

  /** The store ends where the collection ends: replaying the updates of a run that
      returned normally turns the store's copy of `c` into that of the new state. */
  predicate Follows(c: Coll, ops: seq<ElemOp>, c': Coll)
    requires InSync(c)
  {
    InSync(c') && Replay(StoreCopy(c), ops) == Some(StoreCopy(c'))
  }

  // ------------------------------------------------------------------ indices

  /** `hi, hi-1, ..., lo`: the positions of a `hi.downto(lo)` loop. */
  function Countdown(hi: int, lo: int): (r: seq<int>)
    ensures |r| == if hi < lo then 0 else hi - lo + 1
    ensures forall k :: 0 <= k < |r| ==> r[k] == hi - k
    decreases hi - lo + 1
  {
    if hi < lo then [] else [hi] + Countdown(hi - 1, lo)
  }

  /** The positions below `n` satisfying `P`, highest first: what the backward loops of
      delete, uniq! and slice! visit and delete. */
  function Positions(n: nat, P: nat -> bool): (r: seq<nat>)
    ensures |r| <= n
    decreases n
  {
    if n == 0 then [] else (if P(n - 1) then [n - 1] else []) + Positions(n - 1, P)
  }

  /** `Positions` lists positions below `n`, strictly descending. */
  lemma {:induction false} PositionsDescending(n: nat, P: nat -> bool)
    ensures Descending(Positions(n, P), n)
    decreases n
  {
    if n > 0 {
      PositionsDescending(n - 1, P);
    }
  }

  /** `Positions` lists exactly the positions satisfying `P`. */
  lemma {:induction false} PositionsExact(n: nat, P: nat -> bool)
    ensures forall k :: 0 <= k < |Positions(n, P)| ==> P(Positions(n, P)[k])
    ensures forall i: nat :: i < n && P(i) ==> i in Positions(n, P)
    decreases n
  {
    if n > 0 {
      PositionsExact(n - 1, P);
    }
  }

  /** Position `i` holds a value `==` to `x` (`self[i] == value`). */
  function ValueAt(vs: seq<Native>, x: Native): nat -> bool {
    (i: nat) => i < |vs| && RubyEq(vs[i], x)
  }

  /** Position `i` holds a Hash key met at an earlier position. */
  function RepeatAt(vs: seq<Native>): nat -> bool {
    (i: nat) => i < |vs| && exists j :: 0 <= j < i && KeyEq(vs[j], vs[i])
  }

  /** Position `i` lies in `[from, to]`. */
  function Within(from: int, to: int): nat -> bool {
    (i: nat) => from <= i <= to
  }

  /** Position `i` holds a value satisfying `P`. */
  function SatisfiesAt(vs: seq<Native>, P: Native -> bool): nat -> bool {
    (i: nat) => i < |vs| && P(vs[i])
  }

  /** The elements at the positions not satisfying `P`, in order. */
  function Keep<T>(s: seq<T>, P: nat -> bool): (r: seq<T>)
    ensures |r| <= |s|
    decreases |s|
  {
    if s == [] then [] else Keep(s[..|s| - 1], P) + (if P(|s| - 1) then [] else [s[|s| - 1]])
  }

  /** A non-empty sequence is its front and its last element. */
  lemma SplitLast<T>(s: seq<T>)
    requires s != []
    ensures s == s[..|s| - 1] + [s[|s| - 1]]
    ensures multiset(s) == multiset(s[..|s| - 1]) + multiset{s[|s| - 1]}
  {
    assert s == s[..|s| - 1] + [s[|s| - 1]];
  }

  /** The elements at `idx`, in that order. */
  function Picked<T>(s: seq<T>, idx: seq<nat>): (r: seq<T>)
    requires forall k :: 0 <= k < |idx| ==> idx[k] < |s|
    ensures |r| == |idx| && forall k :: 0 <= k < |idx| ==> r[k] == s[idx[k]]
  {
    seq(|idx|, k requires 0 <= k < |idx| => s[idx[k]])
  }

  // ------------------------------------------------------------------ insert

  /** `insert` first turns a negative position into `length + i + 1` (affinity.rb:135). */
  function InsertIndex(len: nat, i: int): int {
    if i < 0 then len + i + 1 else i
  }

  /** `insert(i, *rest)` (affinity.rb:133-156), with the anchoring of several values
      corrected (see Findings). A tracked collection raises when the normalised position
      is outside the extras; the values then go to `Array#insert` with the normalised
      position, which an untracked collection normalises a second time. */
  function InsertF(c: Coll, i: int, rest: seq<Native>): (r: Run<()>)
    ensures !r.ok ==> r.c == c && r.ops == []
    ensures rest == [] ==> r == Run(true, c, [], ())
    ensures c.xs.Some? && rest != [] ==> (r.ok <==> 0 <= InsertIndex(|c.vs|, i) <= |c.xs.value|)
    ensures c.xs.Some? && r.ok ==> r.c.xs.Some? && |r.c.xs.value| == |c.xs.value| + |rest| && |r.ops| == |rest|
    ensures c.xs.None? ==> r.ops == [] && r.c.xs.None?
    ensures r.ok ==> RbArray.Insert(c.vs, InsertIndex(|c.vs|, i), rest) == Some(r.c.vs)
  {
    var p := InsertIndex(|c.vs|, i);
    if rest == [] then Run(true, c, [], ())
    else match c.xs
      case Some(xs) =>
        if !(0 <= p <= |xs|) then Run(false, c, [], ())
        else (match RbArray.Insert(c.vs, p, rest)
          case None => Run(false, c, [], ())
          case Some(vs') => Run(true, Coll(vs', Some(InsertExtras(xs, p, |rest|))), InsertOps(xs, p, rest), ()))
      case None =>
        (match RbArray.Insert(c.vs, p, rest)
          case None => Run(false, c, [], ())
          case Some(vs') => Run(true, Coll(vs', None), [], ()))
  }

  /** `push(*rest)`, `<<` and each step of `concat` (affinity.rb:157-159). */
  function PushF(c: Coll, rest: seq<Native>): (r: Run<()>)
    ensures r == InsertF(c, -1, rest)
  {
    InsertF(c, -1, rest)
  }

  /** `concat(other)`: `push` of each value in turn, stopping at the first that raises. */
  function ConcatF(c: Coll, other: seq<Native>): (r: Run<()>)
    ensures other == [] ==> r.ok && r.c == c && r.ops == []
    ensures c.xs.None? ==> r.ops == [] && r.c.xs.None?
    decreases |other|
  {
    if other == [] then Run(true, c, [], ())
    else
      var s := PushF(c, [other[0]]);
      if !s.ok then s
      else
        var rest := ConcatF(s.c, other[1..]);
        Run(rest.ok, rest.c, s.ops + rest.ops, ())
  }

  /** An untracked collection just gains the values, and nothing is sent. */
  lemma {:induction false} ConcatUntracked(c: Coll, other: seq<Native>)
    requires c.xs.None?
    ensures ConcatF(c, other) == Run(true, Coll(c.vs + other, None), [], ())
    decreases |other|
  {
    if other == [] {
      assert c.vs + other == c.vs;
    } else {
      PushUntracked(c, other);
      ConcatUntracked(Coll(c.vs + [other[0]], None), other[1..]);
    }
  }

  lemma PushUntracked(c: Coll, other: seq<Native>)
    requires c.xs.None? && other != []
    ensures PushF(c, [other[0]]) == Run(true, Coll(c.vs + [other[0]], None), [], ())
    ensures c.vs + other == (c.vs + [other[0]]) + other[1..]
  {
    var p := |c.vs|;
    assert c.vs[..p] == c.vs && c.vs[p..] == [];
  }

  // ---------------------------------------------------------------- removing

  /** `delete_at(index)` (affinity.rb:209-223): raises on a negative index, and on a
      tracked collection on an index past the extras; emits one delete carrying the
      element's own id; then `Array#delete_at` (nil past the end). */
  function DeleteAtF(c: Coll, index: int): (r: Run<Native>)
    ensures r.ok <==> index >= 0 && (c.xs.Some? ==> index < |c.xs.value|)
    ensures !r.ok ==> r.c == c && r.ops == []
    ensures c.xs.None? ==> r.ops == [] && r.c.xs.None?
    ensures r.ok && c.xs.Some? ==> r.ops == [DeleteOp(c.xs.value[index].eid)]
    ensures r.ok ==> (r.c.vs, r.ret) == RbArray.DeleteAt(c.vs, index)
    ensures r.ok && c.xs.Some? ==> r.c.xs == Some(RemoveAt(c.xs.value, index))
  {
    if index < 0 then Run(false, c, [], Nil)
    else
      var (vs', v) := RbArray.DeleteAt(c.vs, index);
      match c.xs
      case None => Run(true, Coll(vs', None), [], v)
      case Some(xs) =>
        if index >= |xs| then Run(false, c, [], Nil)
        else Run(true, Coll(vs', Some(RemoveAt(xs, index))), [DeleteOp(xs[index].eid)], v)
  }

  /** `delete_at` at each position in turn, stopping at the first that raises; the
      deleted values in order. */
  function DeleteAtAll(c: Coll, idx: seq<int>): (r: Run<seq<Native>>)
    ensures c.xs.None? ==> r.ops == [] && r.c.xs.None?
    ensures r.ok ==> |r.ret| == |idx|
    decreases |idx|
  {
    if idx == [] then Run(true, c, [], [])
    else
      var d := DeleteAtF(c, idx[0]);
      if !d.ok then Run(false, d.c, d.ops, [])
      else
        var rest := DeleteAtAll(d.c, idx[1..]);
        Run(rest.ok, rest.c, d.ops + rest.ops, [d.ret] + rest.ret)
  }

  /** `pop(*rest)` (affinity.rb:161-173): the count defaults to 1 and must be positive;
      a tracked collection raises when it exceeds the extras, and otherwise drops that
      many extras from the end, emitting one delete each, last element first. Then
      `Array#pop`: one element (nil when empty) or, given a count, the last ones. */
  datatype Popped = Elem(v: Native) | Elems(vs: seq<Native>)

  function PopF(c: Coll, n: Option<int>): (r: Run<Popped>)
    ensures r.ok <==> (if n.Some? then n.value else 1) > 0 &&
                      (c.xs.Some? ==> (if n.Some? then n.value else 1) <= |c.xs.value|)
    ensures !r.ok ==> r.c == c && r.ops == []
    ensures c.xs.None? ==> r.ops == [] && r.c.xs.None?
    ensures r.ok && n.Some? ==> r.ret.Elems? && r.c.vs + r.ret.vs == c.vs
    ensures r.ok && n.None? ==>
      (r.ret.Elem? && if c.vs == [] then r.c.vs == [] && r.ret.v == Nil else r.c.vs + [r.ret.v] == c.vs)
  {
    var count := if n.Some? then n.value else 1;
    if count <= 0 then Run(false, c, [], Elems([]))
    else if c.xs.Some? && count > |c.xs.value| then Run(false, c, [], Elems([]))
    else
      var xs' := match c.xs case None => None case Some(xs) => Some(xs[..|xs| - count]);
      var ops := match c.xs case None => [] case Some(xs) => DeleteOps(xs, Tail(|xs|, count));
      if n.None? then
        if c.vs == [] then Run(true, Coll([], xs'), ops, Elem(Nil))
        else Run(true, Coll(c.vs[..|c.vs| - 1], xs'), ops, Elem(c.vs[|c.vs| - 1]))
      else
        var (keep, popped) := RbArray.PopN(c.vs, count);
        Run(true, Coll(keep, xs'), ops, Elems(popped))
  }

  /** `n-1, n-2, ..., n-count`: the extras `pop` removes, in the order it removes them. */
  function Tail(n: nat, count: nat): (r: seq<nat>)
    requires count <= n
    ensures Descending(r, n) && |r| == count
    ensures forall k :: 0 <= k < count ==> r[k] == n - 1 - k
  {
    seq(count, k requires 0 <= k < count => n - 1 - k)
  }

  /** `delete(value)` (affinity.rb:196-207): every position holding the value, deleted
      highest first; the value when there was one, else nil (the block form is left out). */
  function DeleteValueF(c: Coll, x: Native): (r: Run<Option<Native>>)
    ensures r.ret.Some? ==> r.ret.value == x
    ensures c.xs.None? ==> r.ops == [] && r.c.xs.None?
  {
    var idx := Positions(|c.vs|, ValueAt(c.vs, x));
    var d := DeleteAtAll(c, idx);
    Run(d.ok, d.c, d.ops, if |idx| > 0 then Some(x) else None)
  }

  /** `uniq!` (affinity.rb:245-252): deletes, highest first, every position that repeats
      an earlier value; reports whether anything was deleted (the source returns self or nil). */
  function UniqF(c: Coll): (r: Run<bool>)
    ensures c.xs.None? ==> r.ops == [] && r.c.xs.None?
  {
    var idx := Positions(|c.vs|, RepeatAt(c.vs));
    var d := DeleteAtAll(c, idx);
    Run(d.ok, d.c, d.ops, |idx| > 0)
  }

  /** The arguments of `slice!` and `fill`: none, one position, a range `b..e`, or a start and a count. */
  datatype Bounds = Whole | At(i: int) | Between(b: int, e: int) | Counted(start: int, len: int)

  /** `slice!`'s reading of its arguments (affinity.rb:254-266): `None` for no arguments,
      which raises; negative positions are taken as they are. */
  function SliceBounds(b: Bounds): (r: Option<(int, int)>)
    ensures r.None? <==> b.Whole?
  {
    match b
    case Whole => None
    case At(i) => Some((i, i))
    case Between(lo, hi) => Some((lo, hi))
    case Counted(s, n) => Some((s, s + n - 1))
  }

  /** `slice!(from, to)` (affinity.rb:267-273): deletes the positions in `[from, to]`,
      highest first, and returns the deleted values in that order. */
  function SliceF(c: Coll, from: int, to: int): (r: Run<seq<Native>>)
    ensures r.ok ==> |r.ret| == |Positions(|c.vs|, Within(from, to))|
    ensures c.xs.None? ==> r.ops == [] && r.c.xs.None?
  {
    DeleteAtAll(c, Positions(|c.vs|, Within(from, to)))
  }

  /** `delete_if`, `reject!` (affinity.rb:225-233) as corrected: deletes every position
      whose value satisfies `P`, highest first (see Findings). `keep_if`/`select!` is the
      same with `P` negated. */
  function DeleteIfF(c: Coll, P: Native -> bool): (r: Run<()>)
    ensures c.xs.None? ==> r.ops == [] && r.c.xs.None?
  {
    var d := DeleteAtAll(c, Positions(|c.vs|, SatisfiesAt(c.vs, P)));
    Run(d.ok, d.c, d.ops, ())
  }

  /** `_delete_if_impl` as written (affinity.rb:232): `delete_at(i)` inside `each_index`,
      so the element moving into position `i` is never looked at. */
  function DeleteIfAsWritten(c: Coll, P: Native -> bool, i: nat): (r: Run<()>)
    ensures c.xs.None? ==> r.ops == [] && r.c.xs.None?
    decreases |c.vs| - i
  {
    if i >= |c.vs| then Run(true, c, [], ())
    else if !P(c.vs[i]) then DeleteIfAsWritten(c, P, i + 1)
    else
      var d := DeleteAtF(c, i);
      if !d.ok then Run(false, d.c, d.ops, ())
      else
        var rest := DeleteIfAsWritten(d.c, P, i + 1);
        Run(rest.ok, rest.c, d.ops + rest.ops, ())
  }

  // ---------------------------------------------------------------- setting

  /** `self[at] = v` (affinity.rb:175-189, integer index): a tracked collection emits a
      set carrying the id of `extras[at]` (a negative index counting from the end; no
      such extra raises) and then `Array#[]=` stores the value, which raises for an index
      before the start after the update went out. An untracked collection raises. */
  function SetIndexF(c: Coll, at: int, v: Native): (r: Run<()>)
    ensures c.xs.None? ==> !r.ok && r.c == c && r.ops == []
    ensures !r.ok ==> r.c == c
    ensures r.ok ==> r.c.xs == c.xs && RbArray.SetAt(c.vs, at, v) == Some(r.c.vs)
    ensures c.xs.Some? && 0 <= at < |c.xs.value| && at < |c.vs| ==>
      r.ok && r.ops == [SetOp(c.xs.value, at, v)] && r.c.vs == c.vs[at := v]
  {
    match c.xs
    case None => Run(false, c, [], ())
    case Some(xs) =>
      var j := if at < 0 then at + |xs| else at;
      if !(0 <= j < |xs|) then Run(false, c, [], ())
      else match RbArray.SetAt(c.vs, at, v)
        case None => Run(false, c, [SetOp(xs, j, v)], ())
        case Some(vs') => Run(true, Coll(vs', c.xs), [SetOp(xs, j, v)], ())
  }

  /** `self[b..e] = v` and `self[start, len] = v` (affinity.rb:177-183): `delete_at`
      from the end of the range down to its begin, then `insert(b, v)`. */
  function SetRangeF(c: Coll, b: int, e: int, v: Native): (r: Run<()>)
    ensures c.xs.None? ==> r.ops == [] && r.c.xs.None?
  {
    var d := DeleteAtAll(c, Countdown(e, b));
    if !d.ok then Run(false, d.c, d.ops, ())
    else
      var ins := InsertF(d.c, b, [v]);
      Run(ins.ok, ins.c, d.ops + ins.ops, ())
  }

  /** `self[i] = gen(i)` for `i` from `i` up to `to`, stopping at the first that raises. */
  function SetFrom(c: Coll, i: int, to: int, gen: int -> Native): (r: Run<()>)
    ensures c.xs.None? && i <= to ==> !r.ok && r.ops == []
    decreases if i > to then 0 else to - i + 1
  {
    if i > to then Run(true, c, [], ())
    else
      var s := SetIndexF(c, i, gen(i));
      if !s.ok then s
      else
        var rest := SetFrom(s.c, i + 1, to, gen);
        Run(rest.ok, rest.c, s.ops + rest.ops, ())
  }

  /** `fill`'s reading of its bounds (affinity.rb:278-296). */
  function FillBounds(b: Bounds, len: nat): (r: (int, int))
    ensures b.Whole? ==> r == (0, len - 1)
  {
    match b
    case Whole => (0, len - 1)
    case At(i) => (i, len - 1)
    case Between(lo, hi) => (lo, hi)
    case Counted(s, n) => (s, s + n - 1)
  }

  /** `fill(v, bounds)` and `fill(bounds) { |i| ... }` (affinity.rb:276-303): `self[i] =`
      the value, or the block's value for `i`, for each position of the bounds in turn. */
  function FillF(c: Coll, b: Bounds, gen: int -> Native): (r: Run<()>)
    ensures c.xs.None? && FillBounds(b, |c.vs|).0 <= FillBounds(b, |c.vs|).1 ==> !r.ok && r.ops == []
  {
    var (from, to) := FillBounds(b, |c.vs|);
    SetFrom(c, from, to, gen)
  }

  /** `collect!`/`map!` (affinity.rb:311-315): `self[i] = f(self[i])` for each index in
      turn, the length read again before each step. */
  function CollectFrom(c: Coll, i: nat, f: Native -> Native): (r: Run<()>)
    ensures c.xs.None? && i < |c.vs| ==> !r.ok && r.ops == []
    decreases |c.vs| - i
  {
    if i >= |c.vs| then Run(true, c, [], ())
    else
      var s := SetIndexF(c, i, f(c.vs[i]));
      if !s.ok then s
      else
        var rest := CollectFrom(s.c, i + 1, f);
        Run(rest.ok, rest.c, s.ops + rest.ops, ())
  }

  /** Each step of `unshift`: `insert(0, v)`, written out for position 0, which never
      raises; `PrependIsInsert` shows it is `InsertF(c, 0, [v])`. */
  function PrependF(c: Coll, v: Native): (r: Run<()>)
    ensures r.ok && r.c.vs == [v] + c.vs && r.c.xs.Some? == c.xs.Some?
    ensures c.xs.Some? ==> r.c.xs.value == [NewExtra()] + c.xs.value && |r.ops| == 1
  {
    match c.xs
    case Some(xs) =>
      Run(true, Coll([v] + c.vs, Some([NewExtra()] + xs)), [ElemOp(v, CollOp(OpAddBefore, EID_FIRST_ELEMENT))], ())
    case None => Run(true, Coll([v] + c.vs, None), [], ())
  }

  /** `unshift(*rest)` (affinity.rb:305-309): `insert(0, rest[i])` for `i` from the last
      value down to the first; `i` counts the values still to insert. */
  function UnshiftFrom(c: Coll, rest: seq<Native>, i: nat): (r: Run<()>)
    requires i <= |rest|
    ensures c.xs.None? ==> r.ops == [] && r.c.xs.None?
    decreases i
  {
    if i == 0 then Run(true, c, [], ())
    else
      var s := PrependF(c, rest[i - 1]);
      var more := UnshiftFrom(s.c, rest, i - 1);
      Run(more.ok, more.c, s.ops + more.ops, ())
  }

  // ============================================================ proofs

  lemma {:induction false} WithoutAppend<T>(t: seq<T>, u: seq<T>, idx: seq<nat>)
    requires Descending(idx, |t|)
    ensures Descending(idx, |t + u|)
    ensures Without(t + u, idx) == Without(t, idx) + u
    decreases |idx|
  {
    if idx != [] {
      var i := idx[0];
      assert RemoveAt(t + u, i) == RemoveAt(t, i) + u;
      assert Descending(idx[1..], |RemoveAt(t, i)|) by {
        forall k | 0 <= k < |idx[1..]| ensures idx[1..][k] < |RemoveAt(t, i)| {
          assert idx[1..][k] == idx[k + 1] < idx[0];
        }
      }
      WithoutAppend(RemoveAt(t, i), u, idx[1..]);
    }
  }

  lemma WithoutTop<T>(s: seq<T>, idx: seq<nat>)
    requires |s| > 0 && Descending(idx, |s| - 1)
    ensures Descending([|s| - 1] + idx, |s|)
    ensures Without(s, [|s| - 1] + idx) == Without(s[..|s| - 1], idx)
  {
    var d := [|s| - 1] + idx;
    assert d[1..] == idx;
    assert RemoveAt(s, |s| - 1) == s[..|s| - 1];
  }

  lemma WithoutLast<T>(s: seq<T>, idx: seq<nat>)
    requires |s| > 0 && Descending(idx, |s| - 1)
    ensures Descending(idx, |s|)
    ensures Without(s, idx) == Without(s[..|s| - 1], idx) + [s[|s| - 1]]
  {
    assert s == s[..|s| - 1] + [s[|s| - 1]];
    WithoutAppend(s[..|s| - 1], [s[|s| - 1]], idx);
  }

  /** Deleting the positions `Positions` lists, highest first, leaves what `Keep` keeps. */
  lemma {:induction false} WithoutPositions<T>(s: seq<T>, P: nat -> bool)
    ensures Descending(Positions(|s|, P), |s|) && Without(s, Positions(|s|, P)) == Keep(s, P)
    decreases |s|
  {
    if s == [] {
      PositionsDescending(0, P);
    } else {
      WithoutPositions(s[..|s| - 1], P);
      if P(|s| - 1) {
        WithoutPositionsHit(s, P);
      } else {
        WithoutPositionsMiss(s, P);
      }
    }
  }

  /** The step of `WithoutPositions` when the last position is deleted. */
  lemma WithoutPositionsHit<T>(s: seq<T>, P: nat -> bool)
    requires s != [] && P(|s| - 1)
    requires Descending(Positions(|s| - 1, P), |s| - 1)
    requires Without(s[..|s| - 1], Positions(|s| - 1, P)) == Keep(s[..|s| - 1], P)
    ensures Descending(Positions(|s|, P), |s|) && Without(s, Positions(|s|, P)) == Keep(s, P)
  {
    var D := Positions(|s| - 1, P);
    assert Positions(|s|, P) == [|s| - 1] + D;
    assert Keep(s, P) == Keep(s[..|s| - 1], P);
    WithoutTop(s, D);
  }

  /** The step of `WithoutPositions` when the last position is kept. */
  lemma WithoutPositionsMiss<T>(s: seq<T>, P: nat -> bool)
    requires s != [] && !P(|s| - 1)
    requires Descending(Positions(|s| - 1, P), |s| - 1)
    requires Without(s[..|s| - 1], Positions(|s| - 1, P)) == Keep(s[..|s| - 1], P)
    ensures Descending(Positions(|s|, P), |s|) && Without(s, Positions(|s|, P)) == Keep(s, P)
  {
    var D := Positions(|s| - 1, P);
    assert Positions(|s|, P) == D;
    WithoutLast(s, D);
  }

  /** Removing strictly decreasing positions one by one with `delete_at`, on a tracked
      collection whose values and extras are aligned, never raises and removes them from
      both; it emits one delete per element, carrying that element's id, and returns the
      removed values in order. */
  lemma {:induction false} DeleteAtAllAligned(vs: seq<Native>, xs: seq<Extra>, idx: seq<nat>)
    requires |vs| == |xs| && Descending(idx, |xs|)
    ensures DeleteAtAll(Coll(vs, Some(xs)), idx)
              == Run(true, Coll(Without(vs, idx), Some(Without(xs, idx))), DeleteOps(xs, idx), Picked(vs, idx))
    decreases |idx|
  {
    if idx != [] {
      var i := idx[0];
      var vs', xs' := RemoveAt(vs, i), RemoveAt(xs, i);
      DeleteOpsCons(xs, idx);
      DeleteAtAllAligned(vs', xs', idx[1..]);
      DeleteOpsCons(xs, idx);
      PickedCons(vs, idx);
    }
  }

  lemma DeleteOpsCons(xs: seq<Extra>, idx: seq<nat>)
    requires Descending(idx, |xs|) && idx != []
    ensures Descending(idx[1..], |RemoveAt(xs, idx[0])|)
    ensures DeleteOps(xs, idx) == [DeleteOp(xs[idx[0]].eid)] + DeleteOps(RemoveAt(xs, idx[0]), idx[1..])
  {
    var xs' := RemoveAt(xs, idx[0]);
    assert Descending(idx[1..], |xs'|) by {
      forall k | 0 <= k < |idx[1..]| ensures idx[1..][k] < |xs'| {
        assert idx[1..][k] == idx[k + 1] < idx[0];
      }
    }
    forall k | 1 <= k < |idx| ensures DeleteOps(xs, idx)[k] == DeleteOps(xs', idx[1..])[k - 1] {
      assert idx[k] < idx[0];
      assert xs'[idx[k]] == xs[idx[k]];
    }
  }

  lemma PickedCons(vs: seq<Native>, idx: seq<nat>)
    requires Descending(idx, |vs|) && idx != []
    ensures forall k :: 0 <= k < |idx[1..]| ==> idx[1..][k] < |RemoveAt(vs, idx[0])|
    ensures Picked(vs, idx) == [vs[idx[0]]] + Picked(RemoveAt(vs, idx[0]), idx[1..])
  {
    var vs' := RemoveAt(vs, idx[0]);
    forall k | 0 <= k < |idx[1..]| ensures idx[1..][k] < |vs'| {
      assert idx[1..][k] == idx[k + 1] < idx[0];
    }
    forall k | 1 <= k < |idx| ensures Picked(vs, idx)[k] == Picked(vs', idx[1..])[k - 1] {
      assert idx[k] < idx[0];
      assert vs'[idx[k]] == vs[idx[k]];
    }
  }

  lemma WithoutKeepsKnown(xs: seq<Extra>, idx: seq<nat>)
    requires Descending(idx, |xs|)
    requires forall k :: 0 <= k < |xs| ==> !IsSentinel(xs[k].eid)
    ensures forall k :: 0 <= k < |Without(xs, idx)| ==> !IsSentinel(Without(xs, idx)[k].eid)
    decreases |idx|
  {
    if idx != [] {
      var xs' := RemoveAt(xs, idx[0]);
      assert Descending(idx[1..], |xs'|) by {
        forall k | 0 <= k < |idx[1..]| ensures idx[1..][k] < |xs'| {
          assert idx[1..][k] == idx[k + 1] < idx[0];
        }
      }
      WithoutKeepsKnown(xs', idx[1..]);
    }
  }

  /** The store follows a run of deletes at decreasing positions of a saved collection. */
  lemma DeleteAtAllSyncs(c: Coll, idx: seq<nat>)
    requires Saved(c) && Descending(idx, |c.vs|)
    ensures var r := DeleteAtAll(c, idx);
      r.ok && Follows(c, r.ops, r.c) && Saved(r.c) &&
      r.c.vs == Without(c.vs, idx) && r.ret == Picked(c.vs, idx)
  {
    var xs := c.xs.value;
    DeleteAtAllAligned(c.vs, xs, idx);
    DeleteAllReplays(c.vs, xs, idx);
    WithoutKeepsKnown(xs, idx);
  }

  // ----------------------------------------------------------------- insert

  lemma DistinctSplice(m: seq<Cell>, p: nat, w: seq<Cell>)
    requires DistinctKnown(m) && p <= |m|
    requires forall k :: 0 <= k < |w| ==> w[k].eid.None?
    ensures DistinctKnown(m[..p] + w + m[p..])
  {
    var s := m[..p] + w + m[p..];
    assert forall k :: p <= k < p + |w| ==> s[k] == w[k - p];
    forall a, b | 0 <= a < |s| && 0 <= b < |s| && a != b && s[a].eid.Some? ensures s[a].eid != s[b].eid {
      if (a < p || a >= p + |w|) && (b < p || b >= p + |w|) {
        var a' := if a < p then a else a - |w|;
        var b' := if b < p then b else b - |w|;
        assert s[a] == m[a'] && s[b] == m[b'];
      }
    }
  }

  lemma InsertKeepsKeyed(vs: seq<Native>, xs: seq<Extra>, p: nat, ins: seq<Native>)
    requires Keyed(vs, xs) && p <= |xs|
    ensures Keyed(vs[..p] + ins + vs[p..], InsertExtras(xs, p, |ins|))
  {
    InsertedCells(vs, xs, p, ins);
    var m := Mirror(vs, xs);
    assert ins[..|ins|] == ins;
    DistinctSplice(m, p, NoneCells(ins));
  }

  /** Inserting values into a saved collection raises exactly when the normalised
      position is outside the collection; otherwise the values land at that position and
      the store, replaying the updates, does the same. */
  lemma InsertSyncs(c: Coll, i: int, rest: seq<Native>)
    requires Saved(c) && rest != []
    ensures var r := InsertF(c, i, rest); var p := InsertIndex(|c.vs|, i);
      (r.ok <==> 0 <= p <= |c.vs|) &&
      (r.ok ==> Follows(c, r.ops, r.c) && r.c.vs == c.vs[..p] + rest + c.vs[p..])
  {
    var xs := c.xs.value;
    var p := InsertIndex(|c.vs|, i);
    if 0 <= p <= |c.vs| {
      InsertReplays(c.vs, xs, p, rest);
      InsertKeepsKeyed(c.vs, xs, p, rest);
    }
  }

  /** `push` onto a collection the store follows never raises: the values go at the end,
      each update adding after the last element, and the store does the same. */
  lemma PushSyncs(c: Coll, rest: seq<Native>)
    requires InSync(c)
    ensures var r := PushF(c, rest);
      r.ok && Follows(c, r.ops, r.c) && r.c.vs == c.vs + rest &&
      r.c.xs == Some(c.xs.value + News(|rest|)) &&
      forall k :: 0 <= k < |rest| ==> r.ops[k] == ElemOp(rest[k], InsertExtra(c.xs.value, |c.vs|, k))
  {
    var xs := c.xs.value;
    var p := |c.vs|;
    assert c.vs[..p] == c.vs && c.vs[p..] == [] && xs[..p] == xs && xs[p..] == [];
    if rest != [] {
      InsertReplays(c.vs, xs, p, rest);
      InsertKeepsKeyed(c.vs, xs, p, rest);
      assert InsertIndex(|c.vs|, -1) == p;
      assert c.vs[..p] + rest + c.vs[p..] == c.vs + rest;
      assert RbArray.Insert(c.vs, p, rest) == Some(c.vs + rest);
      assert InsertExtras(xs, p, |rest|) == xs + News(|rest|);
      assert InsertF(c, -1, rest) == Run(true, Coll(c.vs + rest, Some(xs + News(|rest|))), InsertOps(xs, p, rest), ());
    } else {
      assert xs + News(0) == xs;
    }
  }

  /** `concat(other)` onto a collection the store follows appends the values in order,
      and the store does the same. */
  lemma {:induction false} ConcatSyncs(c: Coll, other: seq<Native>)
    requires InSync(c)
    ensures var r := ConcatF(c, other);
      r.ok && Follows(c, r.ops, r.c) && r.c.vs == c.vs + other && |r.ops| == |other|
    decreases |other|
  {
    if other != [] {
      var s := PushF(c, [other[0]]);
      PushSyncs(c, [other[0]]);
      assert s.ok && |s.ops| == 1;
      ConcatSyncs(s.c, other[1..]);
      var rest := ConcatF(s.c, other[1..]);
      assert ConcatF(c, other) == Run(rest.ok, rest.c, s.ops + rest.ops, ());
      FollowsThen(c, s.ops, s.c, rest.ops, rest.c);
      HeadSplit(c.vs, other);
    } else {
      assert Replay(StoreCopy(c), []) == Some(StoreCopy(c));
    }
  }

  lemma HeadSplit<T>(a: seq<T>, b: seq<T>)
    requires b != []
    ensures a + b == a + [b[0]] + b[1..]
  {
    assert b == [b[0]] + b[1..];
  }

  /** Runs compose: the store following two runs in turn follows their updates together. */
  lemma FollowsThen(c: Coll, a: seq<ElemOp>, c': Coll, b: seq<ElemOp>, c'': Coll)
    requires InSync(c) && Follows(c, a, c') && Follows(c', b, c'')
    ensures Follows(c, a + b, c'')
  {
    ReplayAppend(StoreCopy(c), a, b);
  }

  // -------------------------------------------------------------- pop, delete_at

  lemma {:induction false} WithoutTail<T>(s: seq<T>, count: nat)
    requires count <= |s|
    ensures Without(s, Tail(|s|, count)) == s[..|s| - count]
    decreases count
  {
    if count > 0 {
      var t := Tail(|s|, count);
      var s' := RemoveAt(s, |s| - 1);
      assert s' == s[..|s| - 1];
      assert t[1..] == Tail(|s'|, count - 1);
      WithoutTail(s', count - 1);
      assert s'[..|s'| - (count - 1)] == s[..|s| - count];
    }
  }

  /** `pop` on a saved collection raises exactly when the count is not positive or
      exceeds the length; otherwise it deletes the last elements, last first, and the
      store does the same. */
  lemma PopSyncs(c: Coll, n: Option<int>)
    requires Saved(c)
    ensures var r := PopF(c, n); var count := if n.Some? then n.value else 1;
      (r.ok <==> 0 < count <= |c.vs|) &&
      (r.ok ==> Follows(c, r.ops, r.c) && r.c.vs == c.vs[..|c.vs| - count] &&
                r.ops == DeleteOps(c.xs.value, Tail(|c.vs|, count)))
  {
    var count := if n.Some? then n.value else 1;
    if 0 < count <= |c.vs| {
      var xs := c.xs.value;
      DeleteAllReplays(c.vs, xs, Tail(|xs|, count));
      WithoutTail(c.vs, count);
      WithoutTail(xs, count);
    }
  }

  /** `delete_at` on a saved collection raises exactly outside the collection; otherwise
      it removes and returns that element, and the store removes the same one. */
  lemma DeleteAtSyncs(c: Coll, index: int)
    requires Saved(c)
    ensures var r := DeleteAtF(c, index);
      (r.ok <==> 0 <= index < |c.vs|) &&
      (r.ok ==> Follows(c, r.ops, r.c) && Saved(r.c) && r.c.vs == RemoveAt(c.vs, index) && r.ret == c.vs[index])
  {
    if 0 <= index < |c.vs| {
      DeleteReplays(c.vs, c.xs.value, index);
      RemoveKeepsKeyed(c.vs, c.xs.value, index);
    }
  }

  // ------------------------------------------------------------ delete(value)

  /** `delete(value)` on a saved collection removes every element `==` the value (the
      value itself among them), keeps every other value in order and as often as before,
      and the store does the same. */
  lemma DeleteValueSyncs(c: Coll, x: Native)
    requires Saved(c)
    ensures var r := DeleteValueF(c, x);
      r.ok && Follows(c, r.ops, r.c) && Saved(r.c) &&
      r.c.vs == Keep(c.vs, ValueAt(c.vs, x)) && x !in r.c.vs &&
      (forall y :: y in r.c.vs ==> !RubyEq(y, x)) &&
      (forall y :: !RubyEq(y, x) ==> multiset(r.c.vs)[y] == multiset(c.vs)[y])
  {
    var idx := Positions(|c.vs|, ValueAt(c.vs, x));
    WithoutPositions(c.vs, ValueAt(c.vs, x));
    DeleteAtAllSyncs(c, idx);
    KeepSatisfying(c.vs, ValueAt(c.vs, x), (y: Native) => RubyEq(y, x));
    RubyEqEquivalence(x, x, x);
  }

  /** Some position is listed exactly when some position satisfies `P`. */
  lemma {:induction false} PositionsAny(n: nat, P: nat -> bool)
    ensures |Positions(n, P)| > 0 <==> exists i: nat :: i < n && P(i)
    decreases n
  {
    if n > 0 {
      PositionsAny(n - 1, P);
      var t := Positions(n - 1, P);
      if P(n - 1) {
        assert Positions(n, P) == [n - 1] + t;
      } else {
        assert Positions(n, P) == t;
        if exists i: nat :: i < n && P(i) {
          var i: nat :| i < n && P(i);
          assert i < n - 1;
        }
      }
    }
  }

  /** `delete(value)` returns the value when some element is `==` to it, and nil otherwise. */
  lemma DeleteValueAnswers(c: Coll, x: Native)
    ensures DeleteValueF(c, x).ret ==
              if exists i :: 0 <= i < |c.vs| && RubyEq(c.vs[i], x) then Some(x) else None
  {
    var P := ValueAt(c.vs, x);
    PositionsAny(|c.vs|, P);
    if exists i :: 0 <= i < |c.vs| && RubyEq(c.vs[i], x) {
      var i :| 0 <= i < |c.vs| && RubyEq(c.vs[i], x);
      assert P(i);
    }
  }

  /** `delete(1.0)` removes an integer 1 and keeps a string. */
  lemma DeleteValueExample(c: Coll)
    requires Saved(c) && c.vs == [Int(1), Str("b")]
    ensures DeleteValueF(c, Float(1.0)).c.vs == [Str("b")]
  {
    DeleteValueSyncs(c, Float(1.0));
    KeepOneFloat(c.vs);
  }

  lemma KeepOneFloat(vs: seq<Native>)
    requires vs == [Int(1), Str("b")]
    ensures Keep(vs, ValueAt(vs, Float(1.0))) == [Str("b")]
  {
    var P := ValueAt(vs, Float(1.0));
    assert P(0) && !P(1);
    assert vs[..1] == [Int(1)] && [Int(1)][..0] == [];
  }

  /** `delete("a")` finds a `Url("a")`. */
  lemma DeleteUrlExample()
    ensures DeleteValueF(Coll([Url("a")], None), Str("a")).ret == Some(Str("a"))
  {
    DeleteValueAnswers(Coll([Url("a")], None), Str("a"));
    assert RubyEq(Coll([Url("a")], None).vs[0], Str("a"));
  }

  // -------------------------------------------------------------------- uniq!

  /** No two elements are the same Hash key. */
  predicate NoRepeats(s: seq<Native>) {
    forall i, j :: 0 <= i < j < |s| ==> !KeyEq(s[i], s[j])
  }

  /** Each value of `s` is in `k` or collides with a key in `k`. */
  predicate Covered(s: seq<Native>, k: seq<Native>) {
    forall y :: y in s ==> y in k || exists z :: z in k && KeyEq(z, y)
  }

  lemma NoRepeatsSnoc(a: seq<Native>, x: Native)
    requires NoRepeats(a) && forall z :: z in a ==> !KeyEq(z, x)
    ensures NoRepeats(a + [x])
  {
    var b := a + [x];
    forall i, j | 0 <= i < j < |b| ensures !KeyEq(b[i], b[j]) {
      if j == |a| {
        assert b[i] == a[i] && a[i] in a;
      } else {
        assert b[i] == a[i] && b[j] == a[j];
      }
    }
  }

  /** `P` marks the positions of `s` whose key occurs earlier. */
  predicate MarksRepeats(s: seq<Native>, P: nat -> bool) {
    forall i: nat :: i < |s| ==> (P(i) <==> exists j :: 0 <= j < i && KeyEq(s[j], s[i]))
  }

  lemma FirstsPrefix(s: seq<Native>, P: nat -> bool)
    requires s != [] && MarksRepeats(s, P)
    ensures MarksRepeats(s[..|s| - 1], P)
  {
    var t := s[..|s| - 1];
    forall i: nat | i < |t| ensures P(i) <==> exists j :: 0 <= j < i && KeyEq(t[j], t[i]) {
      assert t[i] == s[i];
      assert forall j :: 0 <= j < i ==> t[j] == s[j];
    }
  }

  lemma {:induction false} KeepFirsts(s: seq<Native>, P: nat -> bool)
    requires MarksRepeats(s, P)
    ensures NoRepeats(Keep(s, P))
    ensures forall y :: y in Keep(s, P) ==> y in s
    ensures Covered(s, Keep(s, P))
    decreases |s|
  {
    if s != [] {
      var m := |s| - 1;
      FirstsPrefix(s, P);
      KeepFirsts(s[..m], P);
      SplitLast(s);
      if P(m) {
        KeepFirstsHit(s, P);
      } else {
        KeepFirstsMiss(s, P);
      }
    }
  }

  /** The step of `KeepFirsts` when the last value repeats an earlier key. */
  lemma KeepFirstsHit(s: seq<Native>, P: nat -> bool)
    requires s != [] && MarksRepeats(s, P) && P(|s| - 1)
    requires var t := s[..|s| - 1];
      NoRepeats(Keep(t, P)) && (forall y :: y in Keep(t, P) ==> y in t) && Covered(t, Keep(t, P))
    requires s == s[..|s| - 1] + [s[|s| - 1]]
    ensures NoRepeats(Keep(s, P))
    ensures forall y :: y in Keep(s, P) ==> y in s
    ensures Covered(s, Keep(s, P))
  {
    var m := |s| - 1;
    var t, kt := s[..m], Keep(s[..m], P);
    assert Keep(s, P) == kt;
    var j :| 0 <= j < m && KeyEq(s[j], s[m]);
    assert t[j] == s[j] && s[j] in t;
    var z := if s[j] in kt then s[j] else var z :| z in kt && KeyEq(z, s[j]); z;
    assert s[j] !in kt ==> KeyEq(z, s[j]);
    KeyEqProperties(z, s[j], s[m]);
    assert z in kt && (z == s[j] || KeyEq(z, s[m]));
  }

  /** The step of `KeepFirsts` when the last value is a new key. */
  lemma KeepFirstsMiss(s: seq<Native>, P: nat -> bool)
    requires s != [] && MarksRepeats(s, P) && !P(|s| - 1)
    requires var t := s[..|s| - 1];
      NoRepeats(Keep(t, P)) && (forall y :: y in Keep(t, P) ==> y in t) && Covered(t, Keep(t, P))
    requires s == s[..|s| - 1] + [s[|s| - 1]]
    ensures NoRepeats(Keep(s, P))
    ensures forall y :: y in Keep(s, P) ==> y in s
    ensures Covered(s, Keep(s, P))
  {
    var m := |s| - 1;
    var t, kt := s[..m], Keep(s[..m], P);
    assert Keep(s, P) == kt + [s[m]];
    forall z | z in kt ensures !KeyEq(z, s[m]) {
      var j :| 0 <= j < m && t[j] == z;
      assert s[j] == z;
    }
    NoRepeatsSnoc(kt, s[m]);
  }

  /** `uniq!` on a saved collection keeps the first element of each Hash key, so no two
      kept elements collide, every value removed collides with a kept one, and the store
      does the same. */
  lemma UniqSyncs(c: Coll)
    requires Saved(c)
    ensures var r := UniqF(c);
      r.ok && Follows(c, r.ops, r.c) && Saved(r.c) &&
      r.c.vs == Keep(c.vs, RepeatAt(c.vs)) &&
      NoRepeats(r.c.vs) && (forall y :: y in r.c.vs ==> y in c.vs) && Covered(c.vs, r.c.vs)
  {
    var idx := Positions(|c.vs|, RepeatAt(c.vs));
    WithoutPositions(c.vs, RepeatAt(c.vs));
    DeleteAtAllSyncs(c, idx);
    KeepFirsts(c.vs, RepeatAt(c.vs));
  }

  /** `uniq!` reports a change (returns self rather than nil) exactly when two elements
      are the same Hash key. */
  lemma UniqAnswers(c: Coll)
    ensures UniqF(c).ret <==> !NoRepeats(c.vs)
  {
    var P := RepeatAt(c.vs);
    PositionsAny(|c.vs|, P);
    if !NoRepeats(c.vs) {
      var i, j :| 0 <= i < j < |c.vs| && KeyEq(c.vs[i], c.vs[j]);
      assert P(j);
    }
  }

  /** `uniq!` collapses `"a"` and `Url("a")` but keeps both `1` and `1.0`. */
  lemma UniqExample(c: Coll)
    requires Saved(c) && c.vs == [Str("a"), Url("a"), Int(1), Float(1.0)]
    ensures UniqF(c).c.vs == [Str("a"), Int(1), Float(1.0)]
  {
    UniqSyncs(c);
    KeepFirstsExample(c.vs);
  }

  lemma KeepFirstsExample(vs: seq<Native>)
    requires vs == [Str("a"), Url("a"), Int(1), Float(1.0)]
    ensures Keep(vs, RepeatAt(vs)) == [Str("a"), Int(1), Float(1.0)]
  {
    var P := RepeatAt(vs);
    assert !P(0);
    assert P(1) by { assert KeyEq(vs[0], vs[1]); }
    assert !P(2) && !P(3);
    var v3, v2, v1 := vs[..3], vs[..2], vs[..1];
    assert v3 == [Str("a"), Url("a"), Int(1)] && v3[..2] == v2 && v2[..1] == v1 && v1[..0] == [];
    assert Keep(v1, P) == [Str("a")];
    assert Keep(v2, P) == [Str("a")];
    assert Keep(v3, P) == [Str("a"), Int(1)];
  }

  // ------------------------------------------------------------------- slice!

  lemma {:induction false} PositionsWithin(n: nat, from: nat, to: int)
    ensures Positions(n, Within(from, to)) == Countdown(if to < n then to else n - 1, from)
    decreases n
  {
    if n > 0 {
      PositionsWithin(n - 1, from, to);
      var P := Within(from, to);
      var t := Positions(n - 1, P);
      if n - 1 > to {
        assert Positions(n, P) == [] + t;
      } else if n - 1 >= from {
        assert t == Countdown(n - 2, from);
        assert Positions(n, P) == [n - 1] + t;
        assert Countdown(n - 1, from) == [n - 1] + Countdown(n - 2, from);
      } else {
        assert t == [] && Countdown(n - 1, from) == [];
        assert Positions(n, P) == [] + t;
      }
    }
  }

  lemma {:induction false} WithoutRange<T>(s: seq<T>, b: nat, e: int)
    requires b <= e + 1 && e < |s|
    ensures Descending(Countdown(e, b), |s|)
    ensures Without(s, Countdown(e, b)) == s[..b] + s[e + 1..]
    decreases e - b + 1
  {
    if e < b {
      assert s == s[..b] + s[b..];
    } else {
      var s' := RemoveAt(s, e);
      WithoutRange(s', b, e - 1);
      assert Countdown(e, b)[1..] == Countdown(e - 1, b);
      assert s'[..b] + s'[e..] == s[..b] + s[e + 1..];
    }
  }

  /** Two tests that agree below `n` select the same positions. */
  lemma {:induction false} PositionsAgree(n: nat, P: nat -> bool, Q: nat -> bool)
    requires forall i: nat :: i < n ==> P(i) == Q(i)
    ensures Positions(n, P) == Positions(n, Q)
    decreases n
  {
    if n > 0 {
      PositionsAgree(n - 1, P, Q);
    }
  }

  /** `slice!(from, to)` visits the positions of the range clipped to `[0, n)`, so it
      does what the clipped range does, and nothing when that range is empty. */
  lemma SliceClip(n: nat, from: int, to: int)
    ensures var lo := if from < 0 then 0 else from;
      var hi := if to < n then to else n - 1;
      Positions(n, Within(from, to)) == Positions(n, Within(lo, hi)) &&
      (lo > hi + 1 ==> Positions(n, Within(from, to)) == [])
  {
    var lo := if from < 0 then 0 else from;
    var hi := if to < n then to else n - 1;
    PositionsAgree(n, Within(from, to), Within(lo, hi));
    PositionsWithin(n, lo, hi);
  }

  /** `slice!(from, to)` with `from` to `to` inside a saved collection removes those
      positions and returns them highest first; the store removes the same elements. */
  lemma SliceInBounds(c: Coll, from: int, to: int)
    requires Saved(c) && 0 <= from <= to + 1 && to < |c.vs|
    ensures var r := SliceF(c, from, to);
      r.ok && Follows(c, r.ops, r.c) && Saved(r.c) &&
      r.c.vs == c.vs[..from] + c.vs[to + 1..] &&
      |r.ret| == to - from + 1 && forall k :: 0 <= k < |r.ret| ==> r.ret[k] == c.vs[to - k]
  {
    PositionsWithin(|c.vs|, from, to);
    var idx := Positions(|c.vs|, Within(from, to));
    DeleteAtAllSyncs(c, idx);
    WithoutRange(c.vs, from, to);
  }

  /** `slice!(from, to)` on a saved collection never raises: it removes the positions of
      `[from, to]` that exist (the range clipped to the collection) and returns them
      highest first; the store removes the same elements. */
  lemma SliceSyncs(c: Coll, from: int, to: int)
    requires Saved(c)
    ensures var r := SliceF(c, from, to);
      var lo := if from < 0 then 0 else from;
      var hi := if to < |c.vs| then to else |c.vs| - 1;
      r.ok && Follows(c, r.ops, r.c) && Saved(r.c) &&
      (lo <= hi + 1 ==>
        r.c.vs == c.vs[..lo] + c.vs[hi + 1..] &&
        |r.ret| == hi - lo + 1 && forall k :: 0 <= k < |r.ret| ==> r.ret[k] == c.vs[hi - k]) &&
      (lo > hi + 1 ==> r.c.vs == c.vs && r.ret == [])
  {
    var lo := if from < 0 then 0 else from;
    var hi := if to < |c.vs| then to else |c.vs| - 1;
    SliceClip(|c.vs|, from, to);
    if lo <= hi + 1 {
      SliceClipped(c, from, to, lo, hi);
    } else {
      SliceEmpty(c, from, to);
    }
  }

  /** The case of `SliceSyncs` where the clipped range `[lo, hi]` may hold positions. */
  lemma SliceClipped(c: Coll, from: int, to: int, lo: nat, hi: int)
    requires Saved(c) && lo <= hi + 1 && hi < |c.vs|
    requires Positions(|c.vs|, Within(from, to)) == Positions(|c.vs|, Within(lo, hi))
    ensures var r := SliceF(c, from, to);
      r.ok && Follows(c, r.ops, r.c) && Saved(r.c) &&
      r.c.vs == c.vs[..lo] + c.vs[hi + 1..] &&
      |r.ret| == hi - lo + 1 && forall k :: 0 <= k < |r.ret| ==> r.ret[k] == c.vs[hi - k]
  {
    assert SliceF(c, from, to) == SliceF(c, lo, hi);
    SliceInBounds(c, lo, hi);
  }

  /** The case of `SliceSyncs` where the clipped range is empty. */
  lemma SliceEmpty(c: Coll, from: int, to: int)
    requires Saved(c) && Positions(|c.vs|, Within(from, to)) == []
    ensures var r := SliceF(c, from, to);
      r.ok && Follows(c, r.ops, r.c) && Saved(r.c) && r.c.vs == c.vs && r.ret == []
  {
    assert SliceF(c, from, to) == Run(true, c, [], []);
    DeleteAtAllSyncs(c, []);
  }

  // --------------------------------------------------------------------- []=

  /** `self[at] = v` on a saved collection raises exactly outside the collection (a
      negative index counting from the end); otherwise it emits one set for that
      element's id, changes no id, and the store changes the same value. */
  lemma SetIndexSyncs(c: Coll, at: int, v: Native)
    requires Saved(c)
    ensures var r := SetIndexF(c, at, v); var j := if at < 0 then at + |c.vs| else at;
      (r.ok <==> 0 <= j < |c.vs|) &&
      (r.ok ==> Follows(c, r.ops, r.c) && Saved(r.c) && r.c.xs == c.xs &&
                r.c.vs == c.vs[j := v] && r.ops == [SetOp(c.xs.value, j, v)])
  {
    var j := if at < 0 then at + |c.vs| else at;
    if 0 <= j < |c.vs| {
      SetReplays(c.vs, c.xs.value, j, v);
    }
  }

  /** `self[b..e] = v` on a saved collection, within it, replaces those elements by `v`;
      the store, replaying the deletes and the insert, does the same. */
  lemma SetRangeSyncs(c: Coll, b: int, e: int, v: Native)
    requires Saved(c) && 0 <= b <= e + 1 && e < |c.vs|
    ensures var r := SetRangeF(c, b, e, v);
      r.ok && Follows(c, r.ops, r.c) && r.c.vs == c.vs[..b] + [v] + c.vs[e + 1..]
  {
    WithoutRange(c.vs, b, e);
    var idx: seq<nat> := Countdown(e, b);
    DeleteAtAllSyncs(c, idx);
    var d := DeleteAtAll(c, idx);
    InsertSyncs(d.c, b, [v]);
    var ins := InsertF(d.c, b, [v]);
    FollowsThen(c, d.ops, d.c, ins.ops, ins.c);
    assert d.c.vs[..b] == c.vs[..b];
    assert d.c.vs[b..] == c.vs[e + 1..];
  }

  // -------------------------------------------------------------- fill, collect!

  lemma {:induction false} SetFromSyncs(c: Coll, i: int, to: int, gen: int -> Native)
    requires Saved(c) && 0 <= i && to < |c.vs|
    ensures var r := SetFrom(c, i, to, gen);
      r.ok && Follows(c, r.ops, r.c) && Saved(r.c) && r.c.xs == c.xs && |r.c.vs| == |c.vs| &&
      (forall k :: 0 <= k < |c.vs| ==> r.c.vs[k] == if i <= k <= to then gen(k) else c.vs[k]) &&
      |r.ops| == (if to < i then 0 else to - i + 1) &&
      (forall k :: 0 <= k < |r.ops| ==> r.ops[k] == SetOp(c.xs.value, i + k, gen(i + k)))
    decreases if i > to then 0 else to - i + 1
  {
    if i <= to {
      SetIndexSyncs(c, i, gen(i));
      var s := SetIndexF(c, i, gen(i));
      SetFromSyncs(s.c, i + 1, to, gen);
      var rest := SetFrom(s.c, i + 1, to, gen);
      FollowsThen(c, s.ops, s.c, rest.ops, rest.c);
    }
  }

  /** `fill` on a saved collection, with bounds inside it, sets each position of the
      bounds, in order, to the value (or the block's value for that position), changing
      no element id; the store does the same. */
  lemma FillSyncs(c: Coll, b: Bounds, gen: int -> Native)
    requires Saved(c)
    requires var (from, to) := FillBounds(b, |c.vs|); 0 <= from && to < |c.vs|
    ensures var r := FillF(c, b, gen); var (from, to) := FillBounds(b, |c.vs|);
      r.ok && Follows(c, r.ops, r.c) && Saved(r.c) && r.c.xs == c.xs && |r.c.vs| == |c.vs| &&
      forall k :: 0 <= k < |c.vs| ==> r.c.vs[k] == if from <= k <= to then gen(k) else c.vs[k]
  {
    var (from, to) := FillBounds(b, |c.vs|);
    SetFromSyncs(c, from, to, gen);
  }

  lemma {:induction false} CollectFromSyncs(c: Coll, i: nat, f: Native -> Native)
    requires Saved(c)
    ensures var r := CollectFrom(c, i, f);
      r.ok && Follows(c, r.ops, r.c) && Saved(r.c) && r.c.xs == c.xs && |r.c.vs| == |c.vs| &&
      forall k :: 0 <= k < |c.vs| ==> r.c.vs[k] == if k >= i then f(c.vs[k]) else c.vs[k]
    decreases |c.vs| - i
  {
    if i < |c.vs| {
      SetIndexSyncs(c, i, f(c.vs[i]));
      var s := SetIndexF(c, i, f(c.vs[i]));
      CollectFromSyncs(s.c, i + 1, f);
      var rest := CollectFrom(s.c, i + 1, f);
      FollowsThen(c, s.ops, s.c, rest.ops, rest.c);
    }
  }

  /** `collect!` on a saved collection replaces each value by the block's value for it,
      changing no element id; the store does the same. */
  lemma CollectSyncs(c: Coll, f: Native -> Native)
    requires Saved(c)
    ensures var r := CollectFrom(c, 0, f);
      r.ok && Follows(c, r.ops, r.c) && Saved(r.c) && r.c.xs == c.xs &&
      r.c.vs == seq(|c.vs|, k requires 0 <= k < |c.vs| => f(c.vs[k]))
  {
    CollectFromSyncs(c, 0, f);
  }

  // ----------------------------------------------------------------- unshift

  /** `insert(0, v)` puts `v` in front; on a tracked collection it adds an extra whose id
      is not known yet and one update anchored at the first-element marker. */
  lemma PrependIsInsert(c: Coll, v: Native)
    ensures PrependF(c, v) == InsertF(c, 0, [v])
  {
    assert c.vs[..0] + [v] + c.vs[0..] == [v] + c.vs;
    if c.xs.Some? {
      var xs := c.xs.value;
      assert InsertExtras(xs, 0, 1) == [NewExtra()] + xs;
      assert InsertOps(xs, 0, [v]) == [ElemOp(v, CollOp(OpAddBefore, EID_FIRST_ELEMENT))];
    }
  }

  lemma MirrorCons(v: Native, vs: seq<Native>, xs: seq<Extra>)
    requires |vs| == |xs|
    ensures Mirror([v] + vs, [NewExtra()] + xs) == [Cell(None, v)] + Mirror(vs, xs)
  {
    var a := Mirror([v] + vs, [NewExtra()] + xs);
    var b := [Cell(None, v)] + Mirror(vs, xs);
    forall k | 0 <= k < |a| ensures a[k] == b[k] {
      if k > 0 {
        assert ([v] + vs)[k] == vs[k - 1] && ([NewExtra()] + xs)[k] == xs[k - 1];
      }
    }
  }

  /** The store follows `insert(0, v)` on a collection it follows. */
  lemma PrependReplays(c: Coll, v: Native)
    requires InSync(c)
    ensures var r := PrependF(c, v); Follows(c, r.ops, r.c)
  {
    var xs := c.xs.value;
    var op := ElemOp(v, CollOp(OpAddBefore, EID_FIRST_ELEMENT));
    var m := Mirror(c.vs, xs);
    ReplayOne(m, op);
    MirrorCons(v, c.vs, xs);
    DistinctSplice(m, 0, [Cell(None, v)]);
    assert m[..0] + [Cell(None, v)] + m[0..] == [Cell(None, v)] + m;
  }

  lemma {:induction false} UnshiftFromState(c: Coll, rest: seq<Native>, i: nat)
    requires c.xs.Some? && i <= |rest|
    ensures var r := UnshiftFrom(c, rest, i); r.ok && r.c.vs == rest[..i] + c.vs
    decreases i
  {
    if i > 0 {
      var v := rest[i - 1];
      var s := PrependF(c, v);
      assert s.ok && s.c.vs == [v] + c.vs && s.c.xs.Some?;
      UnshiftFromState(s.c, rest, i - 1);
      assert rest[..i - 1] + ([v] + c.vs) == rest[..i] + c.vs;
    } else {
      assert rest[..0] + c.vs == c.vs;
    }
  }

  lemma {:induction false} UnshiftFromExtras(c: Coll, rest: seq<Native>, i: nat)
    requires c.xs.Some? && i <= |rest|
    ensures UnshiftFrom(c, rest, i).c.xs == Some(News(i) + c.xs.value)
    decreases i
  {
    if i > 0 {
      var v := rest[i - 1];
      var s := PrependF(c, v);
      assert s.c.xs == Some([NewExtra()] + c.xs.value);
      UnshiftFromExtras(s.c, rest, i - 1);
      assert News(i - 1) + ([NewExtra()] + c.xs.value) == News(i) + c.xs.value;
    } else {
      assert News(0) + c.xs.value == c.xs.value;
    }
  }

  lemma {:induction false} UnshiftFromOps(c: Coll, rest: seq<Native>, i: nat)
    requires c.xs.Some? && i <= |rest|
    ensures var r := UnshiftFrom(c, rest, i);
      |r.ops| == i &&
      forall k :: 0 <= k < i ==> r.ops[k] == ElemOp(rest[i - 1 - k], CollOp(OpAddBefore, EID_FIRST_ELEMENT))
    decreases i
  {
    if i > 0 {
      var s := PrependF(c, rest[i - 1]);
      assert s.c.xs.Some? && s.ops == [ElemOp(rest[i - 1], CollOp(OpAddBefore, EID_FIRST_ELEMENT))];
      UnshiftFromOps(s.c, rest, i - 1);
      var more := UnshiftFrom(s.c, rest, i - 1);
      var r := UnshiftFrom(c, rest, i);
      assert r.ops == s.ops + more.ops;
      forall k | 0 <= k < i
        ensures r.ops[k] == ElemOp(rest[i - 1 - k], CollOp(OpAddBefore, EID_FIRST_ELEMENT))
      {
        if k > 0 {
          assert r.ops[k] == more.ops[k - 1];
        }
      }
    }
  }

  lemma {:induction false} UnshiftFromFollows(c: Coll, rest: seq<Native>, i: nat)
    requires InSync(c) && i <= |rest|
    ensures var r := UnshiftFrom(c, rest, i); Follows(c, r.ops, r.c)
    decreases i
  {
    if i > 0 {
      PrependReplays(c, rest[i - 1]);
      var s := PrependF(c, rest[i - 1]);
      UnshiftFromFollows(s.c, rest, i - 1);
      var more := UnshiftFrom(s.c, rest, i - 1);
      FollowsThen(c, s.ops, s.c, more.ops, more.c);
    } else {
      assert Replay(StoreCopy(c), []) == Some(StoreCopy(c));
    }
  }

  /** `unshift(*rest)` on a collection the store follows puts the values in front, in
      their order, each update anchored at the first-element marker, last value first. */
  lemma UnshiftSyncs(c: Coll, rest: seq<Native>)
    requires InSync(c)
    ensures var r := UnshiftFrom(c, rest, |rest|);
      r.ok && Follows(c, r.ops, r.c) &&
      r.c.vs == rest + c.vs && r.c.xs == Some(News(|rest|) + c.xs.value) &&
      |r.ops| == |rest| &&
      forall k :: 0 <= k < |rest| ==> r.ops[k] == ElemOp(rest[|rest| - 1 - k], CollOp(OpAddBefore, EID_FIRST_ELEMENT))
  {
    var n := |rest|;
    assert rest[..n] == rest;
    UnshiftFromState(c, rest, n);
    UnshiftFromExtras(c, rest, n);
    UnshiftFromOps(c, rest, n);
    UnshiftFromFollows(c, rest, n);
  }

  // ----------------------------------------------------------- delete_if

  lemma {:induction false} KeepSatisfying(s: seq<Native>, Q: nat -> bool, P: Native -> bool)
    requires forall i: nat :: i < |s| ==> (Q(i) <==> P(s[i]))
    ensures forall y :: y in Keep(s, Q) ==> !P(y)
    ensures forall y :: !P(y) ==> multiset(Keep(s, Q))[y] == multiset(s)[y]
    decreases |s|
  {
    if s != [] {
      var m := |s| - 1;
      forall i: nat | i < m
        ensures Q(i) <==> P(s[..m][i])
      {
        assert s[..m][i] == s[i];
      }
      KeepSatisfying(s[..m], Q, P);
      KeepSatisfyingStep(s, Q, P);
    }
  }

  /** The step of `KeepSatisfying` for the last position. */
  lemma KeepSatisfyingStep(s: seq<Native>, Q: nat -> bool, P: Native -> bool)
    requires s != [] && (Q(|s| - 1) <==> P(s[|s| - 1]))
    requires forall y :: y in Keep(s[..|s| - 1], Q) ==> !P(y)
    requires forall y :: !P(y) ==> multiset(Keep(s[..|s| - 1], Q))[y] == multiset(s[..|s| - 1])[y]
    ensures forall y :: y in Keep(s, Q) ==> !P(y)
    ensures forall y :: !P(y) ==> multiset(Keep(s, Q))[y] == multiset(s)[y]
  {
    SplitLast(s);
    var m := |s| - 1;
    if Q(m) {
      assert Keep(s, Q) == Keep(s[..m], Q);
      KeepSatisfyingHit(s, Keep(s, Q), P);
    } else {
      assert Keep(s, Q) == Keep(s[..m], Q) + [s[m]];
      KeepSatisfyingMiss(s, Keep(s[..m], Q), P);
    }
  }

  /** Dropping a last value that satisfies `P` keeps the counts of the others. */
  lemma KeepSatisfyingHit(s: seq<Native>, k: seq<Native>, P: Native -> bool)
    requires s != [] && P(s[|s| - 1])
    requires multiset(s) == multiset(s[..|s| - 1]) + multiset{s[|s| - 1]}
    requires forall y :: !P(y) ==> multiset(k)[y] == multiset(s[..|s| - 1])[y]
    ensures forall y :: !P(y) ==> multiset(k)[y] == multiset(s)[y]
  {
    var ms, mt := multiset(s), multiset(s[..|s| - 1]);
    forall y | !P(y)
      ensures multiset(k)[y] == ms[y]
    {
      assert ms[y] == mt[y] + multiset{s[|s| - 1]}[y];
    }
  }

  /** Keeping a last value that does not satisfy `P` keeps every count of the others. */
  lemma KeepSatisfyingMiss(s: seq<Native>, k: seq<Native>, P: Native -> bool)
    requires s != [] && !P(s[|s| - 1])
    requires multiset(s) == multiset(s[..|s| - 1]) + multiset{s[|s| - 1]}
    requires forall y :: y in k ==> !P(y)
    requires forall y :: !P(y) ==> multiset(k)[y] == multiset(s[..|s| - 1])[y]
    ensures forall y :: y in k + [s[|s| - 1]] ==> !P(y)
    ensures forall y :: !P(y) ==> multiset(k + [s[|s| - 1]])[y] == multiset(s)[y]
  {
    var x := s[|s| - 1];
    var ks := k + [x];
    var mk, ms, mt := multiset(ks), multiset(s), multiset(s[..|s| - 1]);
    assert mk == multiset(k) + multiset{x};
    forall y | y in ks
      ensures !P(y)
    {
      assert y in k || y == x;
    }
    forall y | !P(y)
      ensures mk[y] == ms[y]
    {
      assert mk[y] == multiset(k)[y] + multiset{x}[y];
      assert ms[y] == mt[y] + multiset{x}[y];
    }
  }

  /** `delete_if`, corrected to look at every element, on a saved collection removes
      exactly the values satisfying the block, keeping the others in order; the store
      does the same. */
  lemma DeleteIfSyncs(c: Coll, P: Native -> bool)
    requires Saved(c)
    ensures var r := DeleteIfF(c, P);
      r.ok && Follows(c, r.ops, r.c) && Saved(r.c) &&
      r.c.vs == Keep(c.vs, SatisfiesAt(c.vs, P)) &&
      (forall y :: y in r.c.vs ==> !P(y)) &&
      (forall y :: !P(y) ==> multiset(r.c.vs)[y] == multiset(c.vs)[y])
  {
    var Q := SatisfiesAt(c.vs, P);
    WithoutPositions(c.vs, Q);
    DeleteAtAllSyncs(c, Positions(|c.vs|, Q));
    KeepSatisfying(c.vs, Q, P);
  }

  /** As written, `delete_if` misses a match that moves into the position just deleted:
      two equal values, both matching, leave one behind, where the corrected version
      removes both. */
  lemma DeleteIfAsWrittenSkips()
    ensures var c := Coll([Int(1), Int(1)], None);
      DeleteIfAsWritten(c, (v: Native) => v == Int(1), 0).c.vs == [Int(1)] &&
      DeleteIfF(c, (v: Native) => v == Int(1)).c.vs == []
  {
    var c := Coll([Int(1), Int(1)], None);
    var P := (v: Native) => v == Int(1);
    var d := DeleteAtF(c, 0);
    assert d.ok && d.c == Coll([Int(1)], None);
    assert DeleteIfAsWritten(d.c, P, 1) == Run(true, d.c, [], ());
    var Q := SatisfiesAt(c.vs, P);
    assert Positions(2, Q) == [1, 0];
    var d1 := DeleteAtF(c, 1);
    assert d1.c == Coll([Int(1)], None);
    var d2 := DeleteAtF(d1.c, 0);
    assert d2.c == Coll([], None);
    assert DeleteAtAll(c, [1, 0]).c == Coll([], None);
  }
}
