// What the PIN::Collection mutators (affinity.rb:133-316) do to a collection's values and
// extras and which element operations they emit, as functions; and, for each, the proof
// that the store, replaying those operations on its copy of the collection, ends with the
// copy of the new local state.

module Diff {
  import opened Common
  import opened Wire
  import opened Marshal
  import opened Store
  import RbArray

  /** `n` fresh placeholder extras (`Extra.new`), one per element added locally. */
  function News(n: nat): (r: seq<Extra>)
    ensures |r| == n && forall k :: 0 <= k < n ==> r[k] == NewExtra()
  {
    seq(n, _ => NewExtra())
  }

  function NoneCells(ws: seq<Native>): (r: seq<Cell>)
    ensures |r| == |ws| && forall k :: 0 <= k < |ws| ==> r[k] == Cell(None, ws[k])
  {
    seq(|ws|, k requires 0 <= k < |ws| => Cell(None, ws[k]))
  }

  /** Holds for collections the store can follow: values and extras aligned, no element id twice. */
  predicate Keyed(vs: seq<Native>, xs: seq<Extra>) {
    |vs| == |xs| && DistinctKnown(Mirror(vs, xs))
  }

  // ------------------------------------------------------------------ insert

  /** The Extra of the update for the `k`-th of several values inserted at position `p`
      of a collection whose extras were `xs` (corrected anchoring, see Findings): the
      position just in front of the first element, before the element that was at `p`,
      or after the last element. */
  function InsertExtra(xs: seq<Extra>, p: nat, k: nat): (r: Extra)
    requires p <= |xs|
    ensures r.op == OpAddBefore || r.op == OpAdd
    ensures r.op == OpAdd <==> p == |xs| && (p, k) != (0, 0)
    ensures r.op == OpAdd ==> r.eid == EID_LAST_ELEMENT
    ensures (p, k) == (0, 0) ==> r.eid == EID_FIRST_ELEMENT
    ensures p < |xs| && (p, k) != (0, 0) ==> r.eid == xs[p].eid
  {
    if p == 0 && k == 0 then CollOp(OpAddBefore, EID_FIRST_ELEMENT)
    else if p < |xs| then CollOp(OpAddBefore, xs[p].eid)
    else CollOp(OpAdd, EID_LAST_ELEMENT)
  }

  function InsertOps(xs: seq<Extra>, p: nat, ins: seq<Native>): (ops: seq<ElemOp>)
    requires p <= |xs|
    ensures |ops| == |ins|
    ensures forall k :: 0 <= k < |ins| ==> ops[k] == ElemOp(ins[k], InsertExtra(xs, p, k))
  {
    seq(|ins|, k requires 0 <= k < |ins| => ElemOp(ins[k], InsertExtra(xs, p, k)))
  }

  /** The store's copy while the `k` first of the values `ins` have been added at `p`. */
  function InsertingCells(m: seq<Cell>, p: nat, ins: seq<Native>, k: nat): seq<Cell>
    requires p <= |m| && k <= |ins|
  {
    m[..p] + NoneCells(ins[..k]) + m[p..]
  }

  lemma NoneCellsSnoc(ins: seq<Native>, k: nat)
    requires k < |ins|
    ensures NoneCells(ins[..k + 1]) == NoneCells(ins[..k]) + [Cell(None, ins[k])]
  {
    assert ins[..k + 1] == ins[..k] + [ins[k]];
  }

  lemma InsertStepBefore(m: seq<Cell>, p: nat, ins: seq<Native>, k: nat)
    requires DistinctKnown(m) && p < |m| && k < |ins| && m[p].eid.Some?
    ensures Find(InsertingCells(m, p, ins, k), m[p].eid.value) == Some(p + k)
    ensures InsertingCells(m, p, ins, k + 1) == InsertAt(InsertingCells(m, p, ins, k), p + k, Cell(None, ins[k]))
  {
    var s := InsertingCells(m, p, ins, k);
    var e := m[p].eid.value;
    NoneCellsSnoc(ins, k);
    assert s[p + k] == m[p];
    forall j | 0 <= j < p + k ensures s[j].eid != Some(e) {
      if j < p {
        assert s[j] == m[j];
      } else {
        assert s[j] == Cell(None, ins[j - p]);
      }
    }
  }

  lemma InsertStep(vs: seq<Native>, xs: seq<Extra>, p: nat, ins: seq<Native>, k: nat)
    requires Keyed(vs, xs) && p <= |xs| && k < |ins|
    requires p < |xs| ==> !IsSentinel(xs[p].eid)
    ensures Apply(InsertingCells(Mirror(vs, xs), p, ins, k), ElemOp(ins[k], InsertExtra(xs, p, k)))
              == Some(InsertingCells(Mirror(vs, xs), p, ins, k + 1))
  {
    var m := Mirror(vs, xs);
    if p == 0 && k == 0 {
      InsertStepFront(m, ins);
    } else if p < |xs| {
      InsertStepBefore(m, p, ins, k);
      InsertStepMiddle(m, p, ins, k);
    } else {
      InsertStepEnd(m, ins, k);
    }
  }

  /** The first value inserted at position 0 goes in front of the first element. */
  lemma InsertStepFront(m: seq<Cell>, ins: seq<Native>)
    requires 0 < |ins|
    ensures Apply(InsertingCells(m, 0, ins, 0), ElemOp(ins[0], CollOp(OpAddBefore, EID_FIRST_ELEMENT)))
              == Some(InsertingCells(m, 0, ins, 1))
  {
    NoneCellsSnoc(ins, 0);
    assert InsertingCells(m, 0, ins, 0) == m;
    assert InsertingCells(m, 0, ins, 1) == [Cell(None, ins[0])] + m;
  }

  /** A value inserted in front of a known element goes just before it. */
  lemma InsertStepMiddle(m: seq<Cell>, p: nat, ins: seq<Native>, k: nat)
    requires p < |m| && k < |ins| && m[p].eid.Some? && m[p].eid.value != EID_FIRST_ELEMENT
    requires Find(InsertingCells(m, p, ins, k), m[p].eid.value) == Some(p + k)
    requires InsertingCells(m, p, ins, k + 1) == InsertAt(InsertingCells(m, p, ins, k), p + k, Cell(None, ins[k]))
    ensures Apply(InsertingCells(m, p, ins, k), ElemOp(ins[k], CollOp(OpAddBefore, m[p].eid.value)))
              == Some(InsertingCells(m, p, ins, k + 1))
  {
  }

  /** A value inserted past the last element is appended. */
  lemma InsertStepEnd(m: seq<Cell>, ins: seq<Native>, k: nat)
    requires k < |ins|
    ensures Apply(InsertingCells(m, |m|, ins, k), ElemOp(ins[k], CollOp(OpAdd, EID_LAST_ELEMENT)))
              == Some(InsertingCells(m, |m|, ins, k + 1))
  {
    NoneCellsSnoc(ins, k);
    assert m[|m|..] == [];
    assert InsertingCells(m, |m|, ins, k + 1) == InsertingCells(m, |m|, ins, k) + [Cell(None, ins[k])];
  }

  lemma {:induction false} InsertReplaysFrom(vs: seq<Native>, xs: seq<Extra>, p: nat, ins: seq<Native>, k: nat)
    requires Keyed(vs, xs) && p <= |xs| && k <= |ins|
    requires p < |xs| ==> !IsSentinel(xs[p].eid)
    ensures Replay(InsertingCells(Mirror(vs, xs), p, ins, k), InsertOps(xs, p, ins)[k..])
              == Some(InsertingCells(Mirror(vs, xs), p, ins, |ins|))
    decreases |ins| - k
  {
    var ops := InsertOps(xs, p, ins);
    if k < |ins| {
      InsertStep(vs, xs, p, ins, k);
      assert ops[k..][0] == ops[k];
      assert ops[k..][1..] == ops[k + 1..];
      InsertReplaysFrom(vs, xs, p, ins, k + 1);
    }
  }

  /** The local state after inserting `ins` at position `p`. */
  function InsertExtras(xs: seq<Extra>, p: nat, n: nat): seq<Extra>
    requires p <= |xs|
  {
    xs[..p] + News(n) + xs[p..]
  }

  /** Replaying the updates of an insert on the store's copy of the collection adds the
      values at the same position as the local insert does, as elements whose ids the
      driver does not know yet. */
  lemma InsertReplays(vs: seq<Native>, xs: seq<Extra>, p: nat, ins: seq<Native>)
    requires Keyed(vs, xs) && p <= |xs|
    requires p < |xs| ==> !IsSentinel(xs[p].eid)
    ensures Replay(Mirror(vs, xs), InsertOps(xs, p, ins))
              == Some(Mirror(vs[..p] + ins + vs[p..], InsertExtras(xs, p, |ins|)))
  {
    var m := Mirror(vs, xs);
    assert InsertingCells(m, p, ins, 0) == m;
    assert InsertOps(xs, p, ins)[0..] == InsertOps(xs, p, ins);
    InsertReplaysFrom(vs, xs, p, ins, 0);
    InsertedCells(vs, xs, p, ins);
  }

  lemma InsertedCells(vs: seq<Native>, xs: seq<Extra>, p: nat, ins: seq<Native>)
    requires |vs| == |xs| && p <= |xs|
    ensures InsertingCells(Mirror(vs, xs), p, ins, |ins|) == Mirror(vs[..p] + ins + vs[p..], InsertExtras(xs, p, |ins|))
  {
    var m := Mirror(vs, xs);
    var a := InsertingCells(m, p, ins, |ins|);
    var b := Mirror(vs[..p] + ins + vs[p..], InsertExtras(xs, p, |ins|));
    assert ins[..|ins|] == ins;
    assert |a| == |b|;
    forall k | 0 <= k < |a| ensures a[k] == b[k] {
      if k < p {
        assert a[k] == m[k];
      } else if k < p + |ins| {
        assert a[k] == Cell(None, ins[k - p]);
      } else {
        assert a[k] == m[k - |ins|];
      }
    }
  }

  /** The updates for a multi-value insert as affinity.rb:139-152 computes them: the
      position is not advanced, so every value after the first is anchored on the
      placeholder just added (or again on the front of the collection). */
  function InsertOpsAsWritten(xs: seq<Extra>, p: nat, ins: seq<Native>): (ops: seq<ElemOp>)
    requires p <= |xs|
    ensures |ops| == |ins|
    decreases |ins|
  {
    if ins == [] then []
    else
      var x := if p == 0 then CollOp(OpAddBefore, EID_FIRST_ELEMENT)
               else if p < |xs| then CollOp(OpAddBefore, xs[p].eid)
               else CollOp(OpAdd, EID_LAST_ELEMENT);
      [ElemOp(ins[0], x)] + InsertOpsAsWritten(xs[..p] + [NewExtra()] + xs[p..], p, ins[1..])
  }

  /** For a single value the source's anchoring and the corrected one agree. */
  lemma InsertOneAsWrittenAgrees(xs: seq<Extra>, p: nat, v: Native)
    requires p <= |xs|
    ensures InsertOpsAsWritten(xs, p, [v]) == InsertOps(xs, p, [v])
  {
    assert [v][1..] == [];
  }

  /** `insert(0, 1, 2)` on an empty tracked collection: locally `[1, 2]`, but the two
      updates the source emits both add at the front, so the store ends with `[2, 1]`.
      Likewise `push(1, 2)` on `[0]` anchors the second value on EID_COLLECTION. */
  lemma InsertAsWrittenMisorders()
    ensures Replay([], InsertOpsAsWritten([], 0, [Int(1), Int(2)]))
              == Some([Cell(None, Int(2)), Cell(None, Int(1))])
    ensures Replay([], InsertOps([], 0, [Int(1), Int(2)]))
              == Some([Cell(None, Int(1)), Cell(None, Int(2))])
    ensures Mirror([Int(1), Int(2)], InsertExtras([], 0, 2)) == [Cell(None, Int(1)), Cell(None, Int(2))]
    ensures InsertOpsAsWritten([CollOp(OpSet, 7)], 1, [Int(1), Int(2)])[1].x.eid == EID_COLLECTION
    ensures InsertOps([CollOp(OpSet, 7)], 1, [Int(1), Int(2)])[1].x == CollOp(OpAdd, EID_LAST_ELEMENT)
  {
    var front := CollOp(OpAddBefore, EID_FIRST_ELEMENT);
    var ops := InsertOpsAsWritten([], 0, [Int(1), Int(2)]);
    assert [Int(1), Int(2)][1..] == [Int(2)];
    assert ops == [ElemOp(Int(1), front), ElemOp(Int(2), front)];
    assert front.op == OpAddBefore && front.eid == EID_FIRST_ELEMENT;
    assert [Cell(None, Int(1))] + [] == [Cell(None, Int(1))];
    assert Apply([], ops[0]) == Some([Cell(None, Int(1))]);
    assert [Cell(None, Int(2))] + [Cell(None, Int(1))] == [Cell(None, Int(2)), Cell(None, Int(1))];
    assert Apply([Cell(None, Int(1))], ops[1]) == Some([Cell(None, Int(2)), Cell(None, Int(1))]);
    assert ops[1..] == [ops[1]];
    ReplayOne([Cell(None, Int(1))], ops[1]);
    var good := InsertOps([], 0, [Int(1), Int(2)]);
    assert good == [ElemOp(Int(1), front), ElemOp(Int(2), CollOp(OpAdd, EID_LAST_ELEMENT))];
    assert Apply([], good[0]) == Some([Cell(None, Int(1))]);
    assert CollOp(OpAdd, EID_LAST_ELEMENT).op == OpAdd;
    assert [Cell(None, Int(1))] + [Cell(None, Int(2))] == [Cell(None, Int(1)), Cell(None, Int(2))];
    assert Apply([Cell(None, Int(1))], good[1]) == Some([Cell(None, Int(1)), Cell(None, Int(2))]);
    assert good[1..] == [good[1]];
    ReplayOne([Cell(None, Int(1))], good[1]);
    var xs := [CollOp(OpSet, 7)];
    var w := InsertOpsAsWritten(xs, 1, [Int(1), Int(2)]);
    assert xs[..1] + [NewExtra()] + xs[1..] == [CollOp(OpSet, 7), NewExtra()];
    assert w[1..] == InsertOpsAsWritten([CollOp(OpSet, 7), NewExtra()], 1, [Int(2)]);
  }

  // ------------------------------------------------------------------ delete

  /** The update that removes the element with id `eid` (affinity.rb:169, 219). */
  function DeleteOp(eid: nat): (r: ElemOp)
    ensures r.x.op == OpDelete && r.x.eid == eid
  {
    ElemOp(Int(0), CollOp(OpDelete, eid))
  }

  function RemoveAt<T>(s: seq<T>, i: nat): (r: seq<T>)
    requires i < |s|
    ensures |r| == |s| - 1
    ensures forall k :: 0 <= k < i ==> r[k] == s[k]
    ensures forall k :: i <= k < |r| ==> r[k] == s[k + 1]
  {
    s[..i] + s[i + 1..]
  }

  lemma RemoveKeepsKeyed(vs: seq<Native>, xs: seq<Extra>, i: nat)
    requires Keyed(vs, xs) && i < |xs|
    ensures Keyed(RemoveAt(vs, i), RemoveAt(xs, i))
    ensures Mirror(RemoveAt(vs, i), RemoveAt(xs, i)) == Remove(Mirror(vs, xs), i)
  {
    var m := Mirror(vs, xs);
    var m' := Mirror(RemoveAt(vs, i), RemoveAt(xs, i));
    assert m' == Remove(m, i);
    forall a, b | 0 <= a < |m'| && 0 <= b < |m'| && a != b && m'[a].eid.Some?
      ensures m'[a].eid != m'[b].eid
    {
      var a' := if a < i then a else a + 1;
      var b' := if b < i then b else b + 1;
      assert m'[a] == m[a'] && m'[b] == m[b'];
    }
  }

  /** Replaying the update of `delete_at(i)` on the store's copy removes the same element,
      provided the store knows its id. */
  lemma DeleteReplays(vs: seq<Native>, xs: seq<Extra>, i: nat)
    requires Keyed(vs, xs) && i < |xs| && !IsSentinel(xs[i].eid)
    ensures Replay(Mirror(vs, xs), [DeleteOp(xs[i].eid)]) == Some(Mirror(RemoveAt(vs, i), RemoveAt(xs, i)))
  {
    var m := Mirror(vs, xs);
    FindDistinct(m, i);
    ReplayOne(m, DeleteOp(xs[i].eid));
    RemoveKeepsKeyed(vs, xs, i);
  }

  /** Removal at strictly decreasing positions, one at a time: what the backward
      `downto` loops of pop, delete, uniq!, slice! and the range form of `[]=` do. */
  predicate Descending(idx: seq<nat>, n: nat) {
    (forall k :: 0 <= k < |idx| ==> idx[k] < n) &&
    (forall j, k :: 0 <= j < k < |idx| ==> idx[j] > idx[k])
  }

  function Without<T>(s: seq<T>, idx: seq<nat>): (r: seq<T>)
    requires Descending(idx, |s|)
    ensures |r| == |s| - |idx|
    decreases |idx|
  {
    if idx == [] then s else Without(RemoveAt(s, idx[0]), idx[1..])
  }

  lemma {:induction false} WithoutSnoc<T>(s: seq<T>, idx: seq<nat>, i: nat)
    requires Descending(idx + [i], |s|)
    ensures Descending(idx, |s|)
    ensures i < |Without(s, idx)|
    ensures Without(s, idx + [i]) == RemoveAt(Without(s, idx), i)
    ensures forall k :: 0 <= k <= i ==> Without(s, idx)[k] == s[k]
    decreases |idx|
  {
    assert forall k :: 0 <= k < |idx| ==> (idx + [i])[k] == idx[k];
    if idx == [] {
      assert idx + [i] == [i];
      assert [i][0] == i;
    } else {
      var s' := RemoveAt(s, idx[0]);
      assert (idx + [i])[1..] == idx[1..] + [i];
      assert Descending(idx[1..] + [i], |s'|) by {
        forall k | 0 <= k < |idx[1..] + [i]| ensures (idx[1..] + [i])[k] < |s'| {
          assert (idx[1..] + [i])[k] == (idx + [i])[k + 1];
          assert (idx + [i])[k + 1] < (idx + [i])[0];
        }
        forall j, k | 0 <= j < k < |idx[1..] + [i]| ensures (idx[1..] + [i])[j] > (idx[1..] + [i])[k] {
          assert (idx[1..] + [i])[j] == (idx + [i])[j + 1];
          assert (idx[1..] + [i])[k] == (idx + [i])[k + 1];
        }
      }
      WithoutSnoc(s', idx[1..], i);
      assert i < idx[0] by { assert (idx + [i])[|idx|] == i; }
    }
  }

  /** The updates of removing the elements at `idx`, positions strictly decreasing. */
  function DeleteOps(xs: seq<Extra>, idx: seq<nat>): (ops: seq<ElemOp>)
    requires Descending(idx, |xs|)
    ensures |ops| == |idx|
    ensures forall k :: 0 <= k < |idx| ==> ops[k] == DeleteOp(xs[idx[k]].eid)
  {
    seq(|idx|, k requires 0 <= k < |idx| => DeleteOp(xs[idx[k]].eid))
  }

  predicate KnownAt(xs: seq<Extra>, idx: seq<nat>) {
    forall k :: 0 <= k < |idx| && idx[k] < |xs| ==> !IsSentinel(xs[idx[k]].eid)
  }

  /** Replaying the updates of removing the elements at decreasing positions removes the
      same elements from the store's copy. */
  lemma {:induction false} DeleteAllReplays(vs: seq<Native>, xs: seq<Extra>, idx: seq<nat>)
    requires Keyed(vs, xs) && Descending(idx, |xs|) && KnownAt(xs, idx)
    ensures Keyed(Without(vs, idx), Without(xs, idx))
    ensures Replay(Mirror(vs, xs), DeleteOps(xs, idx)) == Some(Mirror(Without(vs, idx), Without(xs, idx)))
    decreases |idx|
  {
    if idx != [] {
      var i := idx[0];
      var ops := DeleteOps(xs, idx);
      DeleteReplays(vs, xs, i);
      RemoveKeepsKeyed(vs, xs, i);
      var vs', xs' := RemoveAt(vs, i), RemoveAt(xs, i);
      assert Descending(idx[1..], |xs'|) by {
        forall k | 0 <= k < |idx[1..]| ensures idx[1..][k] < |xs'| {
          assert idx[1..][k] == idx[k + 1] < idx[0];
        }
      }
      assert KnownAt(xs', idx[1..]) by {
        forall k | 0 <= k < |idx[1..]| && idx[1..][k] < |xs'| ensures !IsSentinel(xs'[idx[1..][k]].eid) {
          assert idx[1..][k] == idx[k + 1] < idx[0];
          assert xs'[idx[k + 1]] == xs[idx[k + 1]];
        }
      }
      DeleteAllReplays(vs', xs', idx[1..]);
      assert DeleteOps(xs, idx) == [DeleteOp(xs[i].eid)] + DeleteOps(xs', idx[1..]) by {
        forall k | 1 <= k < |idx| ensures DeleteOps(xs, idx)[k] == DeleteOps(xs', idx[1..])[k - 1] {
          assert idx[k] < idx[0];
          assert xs'[idx[k]] == xs[idx[k]];
        }
      }
      ReplayAppend(Mirror(vs, xs), [DeleteOp(xs[i].eid)], DeleteOps(xs', idx[1..]));
    }
  }

  // --------------------------------------------------------------------- set

  /** The update of `self[i] = v` (affinity.rb:185). */
  function SetOp(xs: seq<Extra>, j: nat, v: Native): (r: ElemOp)
    requires j < |xs|
    ensures r.v == v && r.x.op == OpSet && r.x.eid == xs[j].eid
  {
    ElemOp(v, CollOp(OpSet, xs[j].eid))
  }

  /** Replaying the update of `self[i] = v` changes the same element's value and nothing else. */
  lemma SetReplays(vs: seq<Native>, xs: seq<Extra>, i: nat, v: Native)
    requires Keyed(vs, xs) && i < |xs| && !IsSentinel(xs[i].eid)
    ensures Keyed(vs[i := v], xs)
    ensures Replay(Mirror(vs, xs), [SetOp(xs, i, v)]) == Some(Mirror(vs[i := v], xs))
  {
    var m := Mirror(vs, xs);
    FindDistinct(m, i);
    ReplayOne(m, SetOp(xs, i, v));
    assert Mirror(vs[i := v], xs) == m[i := Cell(m[i].eid, v)];
  }
}
