// One step of each loop of the PIN::Collection mutators, stated on the functions of
// `Edits`: how the outcome of the whole loop splits into what one iteration does and
// the outcome of the iterations still to come. The methods of `Pins.Collection` carry
// these as their loop invariants.

module Loops {
  import opened Common
  import opened Wire
  import opened Marshal
  import opened Store
  import opened Diff
  import opened Edits
  import opened Reorder
  import RbArray

  /** A run preceded by the updates `ops` already sent and the values `ret` already deleted. */
  function Joined(ops: seq<ElemOp>, ret: seq<Native>, r: Run<seq<Native>>): Run<seq<Native>> {
    Run(r.ok, r.c, ops + r.ops, ret + r.ret)
  }

  /** A run without a result preceded by the updates `ops` already sent. */
  function After(ops: seq<ElemOp>, r: Run<()>): Run<()> {
    Run(r.ok, r.c, ops + r.ops, ())
  }

  lemma JoinedNothing(r: Run<seq<Native>>)
    ensures Joined([], [], r) == r
  {
    assert [] + r.ops == r.ops && [] + r.ret == r.ret;
  }

  lemma AfterNothing(r: Run<()>)
    ensures After([], r) == r
  {
    assert [] + r.ops == r.ops;
    match r.ret { case () => }
  }

  lemma PrefixSnoc<T>(s: seq<T>, k: nat)
    requires k < |s|
    ensures s[..k + 1] == s[..k] + [s[k]]
  {
  }

  /** One insert of `unshift`'s `downto` loop, as the loop carries it: `next` and `ops`
      are the collection and the updates `insert(0, rest[i - 1])` leaves. */
  lemma UnshiftNext(whole: Run<()>, c: Coll, rest: seq<Native>, i: nat, sent: seq<ElemOp>, next: Coll, ops: seq<ElemOp>)
    requires 0 < i <= |rest| && whole == After(sent, UnshiftFrom(c, rest, i))
    requires next == PrependF(c, rest[i - 1]).c && ops == PrependF(c, rest[i - 1]).ops
    ensures whole == After(sent + ops, UnshiftFrom(next, rest, i - 1))
  {
    UnshiftStep(c, rest, i, sent);
  }

  /** One `delete_at` of a loop over a list of positions. */
  lemma DeleteEachStep(c: Coll, idx: seq<int>, k: nat, sent: seq<ElemOp>, deleted: seq<Native>)
    requires k < |idx|
    ensures var d := DeleteAtF(c, idx[k]);
      Joined(sent, deleted, DeleteAtAll(c, idx[k..])) ==
        if !d.ok then Run(false, c, sent, deleted)
        else Joined(sent + d.ops, deleted + [d.ret], DeleteAtAll(d.c, idx[k + 1..]))
  {
    var t := idx[k..];
    assert t != [] && t[0] == idx[k] && t[1..] == idx[k + 1..];
    var d := DeleteAtF(c, idx[k]);
    if !d.ok {
      assert DeleteAtAll(c, t) == Run(false, c, [], []);
      assert sent + [] == sent && deleted + [] == deleted;
    } else {
      var r := DeleteAtAll(d.c, idx[k + 1..]);
      assert sent + (d.ops + r.ops) == sent + d.ops + r.ops;
      assert deleted + ([d.ret] + r.ret) == deleted + [d.ret] + r.ret;
    }
  }

  /** One position of a downward scan that deletes the positions satisfying `P`. */
  lemma DeleteWhereStep(c: Coll, P: nat -> bool, i: nat, sent: seq<ElemOp>, deleted: seq<Native>)
    requires i > 0
    ensures var d := DeleteAtF(c, i - 1);
      Joined(sent, deleted, DeleteAtAll(c, Positions(i, P))) ==
        if !P(i - 1) then Joined(sent, deleted, DeleteAtAll(c, Positions(i - 1, P)))
        else if !d.ok then Run(false, c, sent, deleted)
        else Joined(sent + d.ops, deleted + [d.ret], DeleteAtAll(d.c, Positions(i - 1, P)))
  {
    if P(i - 1) {
      var idx := [i - 1] + Positions(i - 1, P);
      assert Positions(i, P) == idx;
      assert idx[0..] == idx && idx[1..] == Positions(i - 1, P);
      DeleteEachStep(c, idx, 0, sent, deleted);
    } else {
      assert Positions(i, P) == [] + Positions(i - 1, P) == Positions(i - 1, P);
    }
  }

  /** The step of the downward scan that deletes position `j`. */
  lemma DeleteWhereNext(whole: Run<seq<Native>>, c: Coll, P: nat -> bool, j: nat, sent: seq<ElemOp>, deleted: seq<Native>,
                        next: Coll, ops: seq<ElemOp>, v: Native)
    requires P(j) && whole == Joined(sent, deleted, DeleteAtAll(c, Positions(j + 1, P)))
    requires DeleteAtF(c, j).ok && next == DeleteAtF(c, j).c
    requires ops == DeleteAtF(c, j).ops && v == DeleteAtF(c, j).ret
    ensures whole == Joined(sent + ops, deleted + [v], DeleteAtAll(next, Positions(j, P)))
  {
    DeleteWhereStep(c, P, j + 1, sent, deleted);
  }

  /** The step of the downward scan whose `delete_at(j)` raises: the scan stops. */
  lemma DeleteWhereFails(whole: Run<seq<Native>>, c: Coll, P: nat -> bool, j: nat, sent: seq<ElemOp>, deleted: seq<Native>)
    requires P(j) && whole == Joined(sent, deleted, DeleteAtAll(c, Positions(j + 1, P)))
    requires !DeleteAtF(c, j).ok
    ensures whole == Run(false, c, sent, deleted)
  {
    DeleteWhereStep(c, P, j + 1, sent, deleted);
  }

  /** The step of the downward scan that passes over position `j`. */
  lemma DeleteWhereSkips(whole: Run<seq<Native>>, c: Coll, P: nat -> bool, j: nat, sent: seq<ElemOp>, deleted: seq<Native>)
    requires !P(j) && whole == Joined(sent, deleted, DeleteAtAll(c, Positions(j + 1, P)))
    ensures whole == Joined(sent, deleted, DeleteAtAll(c, Positions(j, P)))
  {
    DeleteWhereStep(c, P, j + 1, sent, deleted);
  }

  /** The positions `Positions` lists, built by a forward scan that puts each new one in front. */
  lemma PositionsNext(n: nat, P: nat -> bool)
    ensures Positions(n + 1, P) == (if P(n) then [n] else []) + Positions(n, P)
  {
  }

  /** The extra the source picks for a value inserted at position `i` of a tracked
      collection whose extras are `xs` (affinity.rb:144-149). */
  function AddAnchor(xs: seq<Extra>, i: nat): (x: Extra)
    requires i <= |xs|
    ensures i == 0 ==> x == CollOp(OpAddBefore, EID_FIRST_ELEMENT)
    ensures 0 < i < |xs| ==> x == CollOp(OpAddBefore, xs[i].eid)
    ensures 0 < i == |xs| ==> x == CollOp(OpAdd, EID_LAST_ELEMENT)
  {
    if i == 0 then CollOp(OpAddBefore, EID_FIRST_ELEMENT)
    else if i < |xs| then CollOp(OpAddBefore, xs[i].eid)
    else CollOp(OpAdd, EID_LAST_ELEMENT)
  }

  /** The `k`-th value inserted at `p`, placed at `p + k` of the extras as they are after
      the `k` values before it: its anchor is the corrected one, and one more placeholder
      is in place. */
  lemma InsertAdvance(xs: seq<Extra>, p: nat, k: nat, rest: seq<Native>)
    requires p <= |xs| && k < |rest|
    ensures var cur := InsertExtras(xs, p, k);
      p + k <= |cur| &&
      cur[..p + k] + [NewExtra()] + cur[p + k..] == InsertExtras(xs, p, k + 1) &&
      InsertOps(xs, p, rest)[k] == ElemOp(rest[k], AddAnchor(cur, p + k))
  {
    var cur := InsertExtras(xs, p, k);
    assert cur[..p + k] == xs[..p] + News(k);
    assert cur[p + k..] == xs[p..];
    assert News(k) + [NewExtra()] == News(k + 1);
    if p < |xs| {
      assert cur[p + k] == xs[p];
    }
  }

  /** One `delete_at` of the `downto` loop of `pop`: the extras lose their last entry and
      the update carries its id. */
  lemma PopStep(xs: seq<Extra>, count: nat, k: nat)
    requires k < count <= |xs|
    ensures var cur := xs[..|xs| - k];
      |cur| > 0 && cur[..|cur| - 1] == xs[..|xs| - (k + 1)] &&
      DeleteOps(xs, Tail(|xs|, count))[k] == DeleteOp(cur[|cur| - 1].eid)
  {
  }

  /** One assignment of `fill`'s `upto` loop. */
  lemma SetFromStep(c: Coll, i: int, to: int, gen: int -> Native, sent: seq<ElemOp>)
    requires i <= to
    ensures var s := SetIndexF(c, i, gen(i));
      After(sent, SetFrom(c, i, to, gen)) ==
        if !s.ok then After(sent, s)
        else After(sent + s.ops, SetFrom(s.c, i + 1, to, gen))
  {
    var s := SetIndexF(c, i, gen(i));
    if s.ok {
      var r := SetFrom(s.c, i + 1, to, gen);
      assert sent + (s.ops + r.ops) == sent + s.ops + r.ops;
    }
  }

  /** One assignment of `collect!`'s `each_index` loop. */
  lemma CollectStep(c: Coll, i: nat, f: Native -> Native, sent: seq<ElemOp>)
    requires i < |c.vs|
    ensures var s := SetIndexF(c, i, f(c.vs[i]));
      After(sent, CollectFrom(c, i, f)) ==
        if !s.ok then After(sent, s)
        else After(sent + s.ops, CollectFrom(s.c, i + 1, f))
  {
    var s := SetIndexF(c, i, f(c.vs[i]));
    if s.ok {
      var r := CollectFrom(s.c, i + 1, f);
      assert sent + (s.ops + r.ops) == sent + s.ops + r.ops;
    }
  }

  /** One `push` of `concat`'s loop. */
  lemma ConcatStep(c: Coll, other: seq<Native>, k: nat, sent: seq<ElemOp>)
    requires k < |other|
    ensures var s := PushF(c, [other[k]]);
      After(sent, ConcatF(c, other[k..])) ==
        if !s.ok then After(sent, s)
        else After(sent + s.ops, ConcatF(s.c, other[k + 1..]))
  {
    var t := other[k..];
    assert t != [] && t[0] == other[k] && t[1..] == other[k + 1..];
    var s := PushF(c, [other[k]]);
    if s.ok {
      var r := ConcatF(s.c, other[k + 1..]);
      assert sent + (s.ops + r.ops) == sent + s.ops + r.ops;
    }
  }

  /** One insert of `unshift`'s `downto` loop. */
  lemma UnshiftStep(c: Coll, rest: seq<Native>, i: nat, sent: seq<ElemOp>)
    requires 0 < i <= |rest|
    ensures var s := PrependF(c, rest[i - 1]);
      After(sent, UnshiftFrom(c, rest, i)) == After(sent + s.ops, UnshiftFrom(s.c, rest, i - 1))
  {
    var s := PrependF(c, rest[i - 1]);
    var r := UnshiftFrom(s.c, rest, i - 1);
    assert sent + (s.ops + r.ops) == sent + s.ops + r.ops;
  }

  /** One position of `_shuffle_end`'s first loop. */
  lemma ResyncStep(xs: seq<Extra>, target: seq<Slot>, i: nat, prev: nat, sent: seq<ElemOp>)
    requires |target| <= |xs| && i < |target|
    ensures var e := target[i].eid;
      var r := Resync(xs, target, i, prev);
      (r.0, sent + r.1) ==
        if xs[i].eid == e then
          var t := Resync(xs, target, i + 1, e); (t.0, sent + t.1)
        else
          var t := Resync(Place(xs, i, |target|, e), target, i + 1, e); (t.0, (sent + [MoveOp(prev, e)]) + t.1)
  {
    var e := target[i].eid;
    if xs[i].eid != e {
      var t := Resync(Place(xs, i, |target|, e), target, i + 1, e);
      assert sent + ([MoveOp(prev, e)] + t.1) == sent + [MoveOp(prev, e)] + t.1;
    }
  }

  /** One position of `_shuffle_end`'s first loop, as the loop carries it: the extras
      after the step are `next` and the moves sent so far `sent'`. */
  lemma ResyncAdvance(whole: (seq<Extra>, seq<ElemOp>), xs: seq<Extra>, target: seq<Slot>, i: nat, prev: nat, sent: seq<ElemOp>)
    requires |target| <= |xs| && i < |target|
    requires var t := Resync(xs, target, i, prev); whole == (t.0, sent + t.1)
    ensures var e := target[i].eid;
      var next := if xs[i].eid == e then xs else Place(xs, i, |target|, e);
      var sent' := if xs[i].eid == e then sent else sent + [MoveOp(prev, e)];
      var t := Resync(next, target, i + 1, e);
      |next| == |xs| && whole == (t.0, sent' + t.1)
  {
    ResyncStep(xs, target, i, prev, sent);
  }

  /** `Place` as `_shuffle_end` performs it: the extra found at `j` is taken out and put back at `i`. */
  lemma PlaceFound(xs: seq<Extra>, i: nat, n: nat, e: nat, j: nat)
    requires i < n <= |xs| && FirstFrom(xs, i, n, e) == Some(j)
    ensures i <= j && Place(xs, i, n, e) == RemoveAt(xs, j)[..i] + [xs[j]] + RemoveAt(xs, j)[i..]
  {
    var r := RemoveAt(xs, j);
    assert r[..i] == xs[..i];
    assert r[i..] == xs[i..j] + xs[j + 1..];
  }
}
