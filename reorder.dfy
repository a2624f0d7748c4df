// Reordering a collection in place (reverse!, rotate!, shuffle!, sort!, sort_by!):
// `_shuffle_begin` pairs each value with its element id and position, the caller permutes
// those slots, and `_shuffle_end` emits one move per element that is not already in place
// and re-syncs the extras (affinity.rb:366-392).

module Reorder {
  import opened Common
  import opened Wire
  import opened Marshal
  import opened Store
  import opened Diff

  /** One entry of `_shuffle_begin`'s list: a value, its element id and its position. */
  datatype Slot = Slot(v: Native, eid: nat, origin: nat)

  /** `_shuffle_begin` (affinity.rb:366-369). */
  function Begin(vs: seq<Native>, xs: seq<Extra>): (r: seq<Slot>)
    requires |vs| <= |xs|
    ensures |r| == |vs|
    ensures forall k :: 0 <= k < |vs| ==> r[k] == Slot(vs[k], xs[k].eid, k)
  {
    seq(|vs|, k requires 0 <= k < |vs| => Slot(vs[k], xs[k].eid, k))
  }

  function SlotEids(ps: seq<Slot>): (r: seq<nat>)
    ensures |r| == |ps| && forall k :: 0 <= k < |ps| ==> r[k] == ps[k].eid
  {
    seq(|ps|, k requires 0 <= k < |ps| => ps[k].eid)
  }

  function SlotValues(ps: seq<Slot>): (r: seq<Native>)
    ensures |r| == |ps| && forall k :: 0 <= k < |ps| ==> r[k] == ps[k].v
  {
    seq(|ps|, k requires 0 <= k < |ps| => ps[k].v)
  }

  /** The update that places the element `eid` right after the element `prev`, or at the
      front when `prev` is EID_FIRST_ELEMENT (affinity.rb:384-385). */
  function MoveOp(prev: nat, eid: nat): (r: ElemOp)
    ensures r.x.eid == eid && r.v == Int(prev)
    ensures r.x.op == OpMove || r.x.op == OpMoveBefore
    ensures r.x.op == OpMoveBefore <==> prev == EID_FIRST_ELEMENT
  {
    ElemOp(Int(prev), Extra(None, VtUint, if prev == EID_FIRST_ELEMENT then OpMoveBefore else OpMove, eid, 0))
  }

  /** The anchor of the move for position `k` of the target order. */
  function AnchorAt(target: seq<Slot>, k: nat): nat
    requires k < |target|
  {
    if k == 0 then EID_FIRST_ELEMENT else target[k - 1].eid
  }

  /** The first position in `[lo, hi)` whose extra carries element id `e`. */
  function FirstFrom(xs: seq<Extra>, lo: nat, hi: nat, e: nat): (r: Option<nat>)
    requires lo <= hi <= |xs|
    ensures r.Some? ==> lo <= r.value < hi && xs[r.value].eid == e
    ensures r.Some? ==> forall j :: lo <= j < r.value ==> xs[j].eid != e
    ensures r.None? ==> forall j :: lo <= j < hi ==> xs[j].eid != e
    decreases hi - lo
  {
    if lo == hi then None else if xs[lo].eid == e then Some(lo) else FirstFrom(xs, lo + 1, hi, e)
  }

  /** Takes the entry at `j` out and puts it back at `i <= j`. */
  function MoveTo<T>(xs: seq<T>, j: nat, i: nat): (r: seq<T>)
    requires i <= j < |xs|
    ensures |r| == |xs|
    ensures forall k :: 0 <= k < i ==> r[k] == xs[k]
    ensures r[i] == xs[j]
    ensures forall k :: i < k <= j ==> r[k] == xs[k - 1]
    ensures forall k :: j < k < |xs| ==> r[k] == xs[k]
  {
    xs[..i] + [xs[j]] + xs[i..j] + xs[j + 1..]
  }

  /** Brings the extra carrying element id `e`, searched from position `i` up to `n`,
      to position `i`. */
  function Place(xs: seq<Extra>, i: nat, n: nat, e: nat): (r: seq<Extra>)
    requires i < n <= |xs|
    ensures |r| == |xs|
  {
    match FirstFrom(xs, i, n, e) case Some(j) => MoveTo(xs, j, i) case None => xs
  }

  /** `_shuffle_end`'s first loop with the re-sync corrected (see Findings): when the
      extra at position `i` does not carry the target element's id, the extra that does
      (found at or after `i`) is moved to `i`, and a move is emitted. Returns the new
      extras and the updates. */
  function Resync(xs: seq<Extra>, target: seq<Slot>, i: nat, prev: nat): (r: (seq<Extra>, seq<ElemOp>))
    requires |target| <= |xs| && i <= |target|
    ensures |r.0| == |xs|
    decreases |target| - i
  {
    if i == |target| then (xs, [])
    else
      var e := target[i].eid;
      if xs[i].eid == e then Resync(xs, target, i + 1, e)
      else
        var r := Resync(Place(xs, i, |target|, e), target, i + 1, e);
        (r.0, [MoveOp(prev, e)] + r.1)
  }

  /** `_shuffle_end`'s first loop as written (affinity.rb:382): the extra is taken from
      the element's ORIGINAL position in the current, already partly re-synced list. */
  function ResyncAsWritten(xs: seq<Extra>, target: seq<Slot>, i: nat, prev: nat): (r: (seq<Extra>, seq<ElemOp>))
    requires |target| <= |xs| && i <= |target|
    ensures |r.0| == |xs|
    decreases |target| - i
  {
    if i == |target| then (xs, [])
    else
      var e := target[i].eid;
      var o := target[i].origin;
      if xs[i].eid == e then ResyncAsWritten(xs, target, i + 1, e)
      else
        var xs' := if o < |xs| then RemoveAt(xs, o)[..i] + [xs[o]] + RemoveAt(xs, o)[i..] else xs;
        var r := ResyncAsWritten(xs', target, i + 1, e);
        (r.0, [MoveOp(prev, e)] + r.1)
  }

  // ------------------------------------------------------------ multisets

  lemma EidsAppend(a: seq<Extra>, b: seq<Extra>)
    ensures Eids(a + b) == Eids(a) + Eids(b)
  {
  }

  lemma SlotEidsAppend(a: seq<Slot>, b: seq<Slot>)
    ensures SlotEids(a + b) == SlotEids(a) + SlotEids(b)
  {
  }

  /** Permuting slots permutes their element ids. */
  lemma {:induction false} SlotEidsPermute(a: seq<Slot>, b: seq<Slot>)
    requires multiset(a) == multiset(b)
    ensures multiset(SlotEids(a)) == multiset(SlotEids(b))
    decreases |a|
  {
    if a == [] {
      assert |b| == |multiset(b)| == 0;
    } else {
      assert a[0] in multiset(b);
      var k :| 0 <= k < |b| && b[k] == a[0];
      var b' := b[..k] + b[k + 1..];
      assert b == b[..k] + [b[k]] + b[k + 1..];
      assert multiset(b) == multiset(b[..k]) + multiset{b[k]} + multiset(b[k + 1..]);
      assert a == [a[0]] + a[1..];
      assert multiset(a) == multiset{a[0]} + multiset(a[1..]);
      assert multiset(b') == multiset(b[..k]) + multiset(b[k + 1..]);
      assert multiset(a[1..]) == multiset(a) - multiset{a[0]};
      assert multiset(b') == multiset(b) - multiset{b[k]};
      SlotEidsPermute(a[1..], b');
      SlotEidsAppend([a[0]], a[1..]);
      SlotEidsAppend(b[..k] + [b[k]], b[k + 1..]);
      SlotEidsAppend(b[..k], [b[k]]);
      SlotEidsAppend(b[..k], b[k + 1..]);
    }
  }

  /** The invariant of the re-sync loop at position `i`: the first `i` extras carry the
      target's ids and the remaining ones, up to the target's length, carry the rest. */
  predicate Synced(xs: seq<Extra>, target: seq<Slot>, i: nat)
    requires |target| <= |xs| && i <= |target|
  {
    (forall k :: 0 <= k < i ==> xs[k].eid == target[k].eid) &&
    multiset(Eids(xs[i..|target|])) == multiset(SlotEids(target[i..]))
  }

  lemma SyncedHead(xs: seq<Extra>, target: seq<Slot>, i: nat)
    requires |target| <= |xs| && i < |target|
    ensures multiset(Eids(xs[i..|target|])) == multiset{xs[i].eid} + multiset(Eids(xs[i + 1..|target|]))
    ensures multiset(SlotEids(target[i..])) == multiset{target[i].eid} + multiset(SlotEids(target[i + 1..]))
  {
    var n := |target|;
    assert xs[i..n] == [xs[i]] + xs[i + 1..n];
    EidsAppend([xs[i]], xs[i + 1..n]);
    assert Eids([xs[i]]) == [xs[i].eid];
    assert target[i..] == [target[i]] + target[i + 1..];
    SlotEidsAppend([target[i]], target[i + 1..]);
    assert SlotEids([target[i]]) == [target[i].eid];
  }

  /** An extra already in place keeps the invariant for the next position. */
  lemma SyncedSkip(xs: seq<Extra>, target: seq<Slot>, i: nat)
    requires |target| <= |xs| && i < |target| && Synced(xs, target, i)
    requires xs[i].eid == target[i].eid
    ensures Synced(xs, target, i + 1)
  {
    SyncedHead(xs, target, i);
    var e := target[i].eid;
    assert multiset(Eids(xs[i + 1..|target|])) == multiset(Eids(xs[i..|target|])) - multiset{e};
    assert multiset(SlotEids(target[i + 1..])) == multiset(SlotEids(target[i..])) - multiset{e};
  }

  lemma MoveToPermutes<T>(xs: seq<T>, j: nat, i: nat)
    requires i <= j < |xs|
    ensures multiset(MoveTo(xs, j, i)) == multiset(xs)
  {
    assert xs == xs[..i] + xs[i..j] + [xs[j]] + xs[j + 1..];
  }

  /** Past position `i`, the moved list holds the ids of `xs[i..n]` less the one moved. */
  lemma MovedTail(xs: seq<Extra>, n: nat, j: nat, i: nat)
    requires i <= j < n <= |xs|
    ensures multiset(Eids(MoveTo(xs, j, i)[i + 1..n])) == multiset(Eids(xs[i..n])) - multiset{xs[j].eid}
  {
    var xs' := MoveTo(xs, j, i);
    assert xs'[i + 1..n] == xs[i..j] + xs[j + 1..n];
    assert xs[i..n] == xs[i..j] + [xs[j]] + xs[j + 1..n];
    EidsAppend(xs[i..j] + [xs[j]], xs[j + 1..n]);
    EidsAppend(xs[i..j], [xs[j]]);
    EidsAppend(xs[i..j], xs[j + 1..n]);
    assert Eids([xs[j]]) == [xs[j].eid];
  }

  /** The id the target wants at `i` is among the remaining extras. */
  lemma SyncedFinds(xs: seq<Extra>, target: seq<Slot>, i: nat)
    requires |target| <= |xs| && i < |target| && Synced(xs, target, i)
    ensures FirstFrom(xs, i, |target|, target[i].eid).Some?
  {
    var n := |target|;
    var e := target[i].eid;
    SyncedHead(xs, target, i);
    assert e in multiset(Eids(xs[i..n]));
    var k :| 0 <= k < |Eids(xs[i..n])| && Eids(xs[i..n])[k] == e;
    assert xs[i + k].eid == e;
  }

  /** An extra out of place is found further on, and moving it keeps the invariant. */
  lemma SyncedMove(xs: seq<Extra>, target: seq<Slot>, i: nat)
    requires |target| <= |xs| && i < |target| && Synced(xs, target, i)
    requires xs[i].eid != target[i].eid
    ensures FirstFrom(xs, i, |target|, target[i].eid).Some?
    ensures var j := FirstFrom(xs, i, |target|, target[i].eid).value;
      i < j && Place(xs, i, |target|, target[i].eid) == MoveTo(xs, j, i)
    ensures var xs' := Place(xs, i, |target|, target[i].eid);
      Synced(xs', target, i + 1) && multiset(xs') == multiset(xs) && xs'[|target|..] == xs[|target|..]
  {
    var n := |target|;
    SyncedFinds(xs, target, i);
    var j := FirstFrom(xs, i, n, target[i].eid).value;
    MovedSynced(xs, target, i, j);
    MoveToPermutes(xs, j, i);
    assert MoveTo(xs, j, i)[n..] == xs[n..];
  }

  /** Moving the extra at `j` that carries the id wanted at `i` to `i` keeps the invariant. */
  lemma MovedSynced(xs: seq<Extra>, target: seq<Slot>, i: nat, j: nat)
    requires |target| <= |xs| && i < j < |target| && Synced(xs, target, i)
    requires xs[j].eid == target[i].eid
    ensures Synced(MoveTo(xs, j, i), target, i + 1)
  {
    var e := target[i].eid;
    SyncedHead(xs, target, i);
    MovedTail(xs, |target|, j, i);
    assert multiset(SlotEids(target[i + 1..])) == multiset(SlotEids(target[i..])) - multiset{e};
  }

  lemma {:induction false} ResyncSyncs(xs: seq<Extra>, target: seq<Slot>, i: nat, prev: nat)
    requires |target| <= |xs| && i <= |target| && Synced(xs, target, i)
    ensures var r := Resync(xs, target, i, prev).0;
      (forall k :: 0 <= k < |target| ==> r[k].eid == target[k].eid) &&
      r[|target|..] == xs[|target|..] && multiset(r) == multiset(xs)
    decreases |target| - i
  {
    var n := |target|;
    if i < n {
      var e := target[i].eid;
      if xs[i].eid == e {
        SyncedSkip(xs, target, i);
        ResyncSyncs(xs, target, i + 1, e);
      } else {
        SyncedMove(xs, target, i);
        var xs' := Place(xs, i, n, e);
        ResyncSyncs(xs', target, i + 1, e);
        assert xs'[n..] == xs[n..];
      }
    }
  }

  /** Nothing already in place is touched: when every position carries its target id,
      no update is emitted and the extras stay as they are. */
  lemma {:induction false} ResyncInPlace(xs: seq<Extra>, target: seq<Slot>, i: nat, prev: nat)
    requires |target| <= |xs| && i <= |target|
    requires forall k :: i <= k < |target| ==> xs[k].eid == target[k].eid
    ensures Resync(xs, target, i, prev) == (xs, [])
    decreases |target| - i
  {
    if i < |target| {
      ResyncInPlace(xs, target, i + 1, target[i].eid);
    }
  }

  /** Every update is a move of a target element behind its predecessor in the target
      order, or to the front for the first position. */
  lemma {:induction false} ResyncMoves(xs: seq<Extra>, target: seq<Slot>, i: nat, prev: nat)
    requires |target| <= |xs| && i <= |target|
    requires prev == if i == 0 then EID_FIRST_ELEMENT else target[i - 1].eid
    ensures forall op :: op in Resync(xs, target, i, prev).1 ==>
              exists k :: i <= k < |target| && op == MoveOp(AnchorAt(target, k), target[k].eid)
    decreases |target| - i
  {
    if i < |target| {
      var e := target[i].eid;
      assert prev == AnchorAt(target, i);
      if xs[i].eid == e {
        ResyncMoves(xs, target, i + 1, e);
      } else {
        ResyncMoves(Place(xs, i, |target|, e), target, i + 1, e);
      }
    }
  }

  // --------------------------------------------------------------- replay

  predicate DistinctIds(xs: seq<Extra>, n: nat)
    requires n <= |xs|
  {
    (forall k :: 0 <= k < n ==> !IsSentinel(xs[k].eid)) &&
    (forall j, k :: 0 <= j < n && 0 <= k < n && j != k ==> xs[j].eid != xs[k].eid)
  }

  /** The store's copy while extras are being re-synced: the element ids in the order of
      `xs`, each with its value. */
  function Cells(xs: seq<Extra>, n: nat, val: nat -> Native): (s: seq<Cell>)
    requires n <= |xs|
    ensures |s| == n && forall k :: 0 <= k < n ==> s[k] == Cell(Some(xs[k].eid), val(xs[k].eid))
  {
    seq(n, k requires 0 <= k < n => Cell(Some(xs[k].eid), val(xs[k].eid)))
  }

  lemma MoveKeepsDistinct(xs: seq<Extra>, n: nat, i: nat, j: nat)
    requires n <= |xs| && i < j < n && DistinctIds(xs, n)
    ensures DistinctIds(MoveTo(xs, j, i), n)
  {
    var xs' := MoveTo(xs, j, i);
    forall a, b | 0 <= a < n && 0 <= b < n && a != b ensures xs'[a].eid != xs'[b].eid {
      var a' := if a < i then a else if a == i then j else if a <= j then a - 1 else a;
      var b' := if b < i then b else if b == i then j else if b <= j then b - 1 else b;
      assert xs'[a] == xs[a'] && xs'[b] == xs[b'];
    }
  }

  lemma CellsDistinct(xs: seq<Extra>, n: nat, val: nat -> Native)
    requires n <= |xs| && DistinctIds(xs, n)
    ensures DistinctKnown(Cells(xs, n, val))
  {
  }

  lemma MoveStep(xs: seq<Extra>, n: nat, val: nat -> Native, i: nat, j: nat, prev: nat)
    requires n <= |xs| && i < j < n && DistinctIds(xs, n)
    requires prev == if i == 0 then EID_FIRST_ELEMENT else xs[i - 1].eid
    ensures DistinctIds(MoveTo(xs, j, i), n)
    ensures Apply(Cells(xs, n, val), MoveOp(prev, xs[j].eid)) == Some(Cells(MoveTo(xs, j, i), n, val))
  {
    MoveKeepsDistinct(xs, n, i, j);
    var s := Cells(xs, n, val);
    var xs' := MoveTo(xs, j, i);
    var e := xs[j].eid;
    CellsDistinct(xs, n, val);
    FindDistinct(s, j);
    var r := Remove(s, j);
    RemoveInsertIsMove(s, i, j);
    CellsMoveTo(xs, n, val, i, j);
    if i == 0 {
      assert InsertAt(r, 0, s[j]) == [s[j]] + r;
    } else {
      MoveAfter(s, i, j, xs[i - 1].eid);
    }
  }

  /** Removing the cell at `j` and inserting it again at `i` moves it there. */
  lemma RemoveInsertIsMove(s: seq<Cell>, i: nat, j: nat)
    requires i < j < |s|
    ensures InsertAt(Remove(s, j), i, s[j]) == MoveTo(s, j, i)
  {
    var r := Remove(s, j);
    assert r[..i] == s[..i];
    assert r[i..] == s[i..j] + s[j + 1..];
  }

  /** The cells of moved extras are the moved cells. */
  lemma CellsMoveTo(xs: seq<Extra>, n: nat, val: nat -> Native, i: nat, j: nat)
    requires n <= |xs| && i < j < n
    ensures Cells(MoveTo(xs, j, i), n, val) == MoveTo(Cells(xs, n, val), j, i)
  {
    var a, b := Cells(MoveTo(xs, j, i), n, val), MoveTo(Cells(xs, n, val), j, i);
    forall k | 0 <= k < n
      ensures a[k] == b[k]
    {
      if k < i {
      } else if k == i {
      } else if k <= j {
      } else {
      }
    }
  }

  lemma MoveAfter(s: seq<Cell>, i: nat, j: nat, a: nat)
    requires 0 < i < j < |s| && DistinctKnown(s) && s[i - 1].eid == Some(a)
    ensures Find(Remove(s, j), a) == Some(i - 1)
  {
    var r := Remove(s, j);
    assert r[i - 1] == s[i - 1];
    forall k | 0 <= k < i - 1 ensures r[k].eid != Some(a) {
      assert r[k] == s[k];
    }
  }

  lemma {:induction false} ResyncReplaysFrom(xs: seq<Extra>, target: seq<Slot>, i: nat, prev: nat, val: nat -> Native)
    requires |target| <= |xs| && i <= |target| && Synced(xs, target, i)
    requires DistinctIds(xs, |target|)
    requires prev == if i == 0 then EID_FIRST_ELEMENT else target[i - 1].eid
    ensures var r := Resync(xs, target, i, prev);
      Replay(Cells(xs, |target|, val), r.1) == Some(Cells(r.0, |target|, val))
    decreases |target| - i
  {
    var n := |target|;
    if i < n {
      var e := target[i].eid;
      if xs[i].eid == e {
        SyncedSkip(xs, target, i);
        ResyncReplaysFrom(xs, target, i + 1, e, val);
      } else {
        SyncedMove(xs, target, i);
        var j := FirstFrom(xs, i, n, e).value;
        var xs' := Place(xs, i, n, e);
        assert i > 0 ==> prev == xs[i - 1].eid;
        MoveStep(xs, n, val, i, j, prev);
        ResyncReplaysFrom(xs', target, i + 1, e, val);
        var rest := Resync(xs', target, i + 1, e).1;
        ReplayAppend(Cells(xs, n, val), [MoveOp(prev, e)], rest);
        ReplayOne(Cells(xs, n, val), MoveOp(prev, e));
      }
    }
  }

  /** The value the element with id `e` held before the reorder. */
  function ValueOf(vs: seq<Native>, xs: seq<Extra>, e: nat): Native
    requires |vs| <= |xs|
  {
    match FirstFrom(xs, 0, |vs|, e) case Some(k) => vs[k] case None => Nil
  }

  /** The permutation the caller applied: the target order is a rearrangement of
      `_shuffle_begin`'s slots. */
  predicate IsReordering(vs: seq<Native>, xs: seq<Extra>, target: seq<Slot>)
    requires |vs| <= |xs|
  {
    |target| == |vs| && multiset(target) == multiset(Begin(vs, xs))
  }

  lemma ReorderingSyncs(vs: seq<Native>, xs: seq<Extra>, target: seq<Slot>)
    requires |vs| <= |xs| && IsReordering(vs, xs, target)
    ensures |target| == |vs|
    ensures Synced(xs, target, 0)
    ensures forall k :: 0 <= k < |target| ==> target[k] in Begin(vs, xs)
  {
    assert |target| == |multiset(target)| == |multiset(Begin(vs, xs))| == |vs|;
    SlotEidsPermute(target, Begin(vs, xs));
    assert SlotEids(Begin(vs, xs)) == Eids(xs[0..|vs|]);
    assert target[0..] == target;
    forall k | 0 <= k < |target| ensures target[k] in Begin(vs, xs) {
      assert target[k] in multiset(target);
    }
  }

  /** The corrected `_shuffle_end` re-syncs the extras: afterwards the first extras carry
      the target order's element ids, the others are untouched, and no extra is lost or
      duplicated. */
  lemma ReorderResyncsExtras(vs: seq<Native>, xs: seq<Extra>, target: seq<Slot>)
    requires |vs| <= |xs| && IsReordering(vs, xs, target)
    ensures var r := Resync(xs, target, 0, EID_FIRST_ELEMENT).0;
      Eids(r[..|vs|]) == SlotEids(target) && r[|vs|..] == xs[|vs|..] && multiset(r) == multiset(xs)
  {
    ReorderingSyncs(vs, xs, target);
    ResyncSyncs(xs, target, 0, EID_FIRST_ELEMENT);
  }

  /** Reordering into the order the collection already has emits nothing. */
  lemma ReorderIdentityEmitsNothing(vs: seq<Native>, xs: seq<Extra>)
    requires |vs| <= |xs|
    ensures Resync(xs, Begin(vs, xs), 0, EID_FIRST_ELEMENT) == (xs, [])
  {
    ResyncInPlace(xs, Begin(vs, xs), 0, EID_FIRST_ELEMENT);
  }

  lemma CellsBefore(vs: seq<Native>, xs: seq<Extra>)
    requires |vs| <= |xs| && DistinctIds(xs, |vs|)
    ensures Cells(xs, |vs|, (e: nat) => ValueOf(vs, xs, e)) == Mirror(vs, xs[..|vs|])
  {
    var n := |vs|;
    var val := (e: nat) => ValueOf(vs, xs, e);
    forall k | 0 <= k < n ensures Cells(xs, n, val)[k] == Mirror(vs, xs[..n])[k] {
      assert FirstFrom(xs, 0, n, xs[k].eid) == Some(k);
    }
  }

  lemma CellsAfter(vs: seq<Native>, xs: seq<Extra>, target: seq<Slot>, r: seq<Extra>)
    requires |vs| <= |xs| <= |r| && DistinctIds(xs, |vs|) && |target| == |vs|
    requires forall k :: 0 <= k < |target| ==> target[k] in Begin(vs, xs)
    requires forall k :: 0 <= k < |target| ==> r[k].eid == target[k].eid
    ensures Cells(r, |vs|, (e: nat) => ValueOf(vs, xs, e)) == Mirror(SlotValues(target), r[..|vs|])
  {
    var n := |vs|;
    var val := (e: nat) => ValueOf(vs, xs, e);
    forall k | 0 <= k < n ensures Cells(r, n, val)[k] == Mirror(SlotValues(target), r[..n])[k] {
      var o :| 0 <= o < n && Begin(vs, xs)[o] == target[k];
      assert r[k].eid == xs[o].eid;
      assert FirstFrom(xs, 0, n, xs[o].eid) == Some(o);
    }
  }

  /** Replaying the moves on the store's copy of a collection whose element ids are all
      known and distinct leaves the store with the values in the target order, matching
      the re-synced local state. */
  lemma ReorderReplays(vs: seq<Native>, xs: seq<Extra>, target: seq<Slot>)
    requires |vs| <= |xs| && IsReordering(vs, xs, target) && DistinctIds(xs, |vs|)
    ensures var r := Resync(xs, target, 0, EID_FIRST_ELEMENT);
      Replay(Mirror(vs, xs[..|vs|]), r.1) == Some(Mirror(SlotValues(target), r.0[..|vs|]))
  {
    ReorderingSyncs(vs, xs, target);
    var val := (e: nat) => ValueOf(vs, xs, e);
    ResyncReplaysFrom(xs, target, 0, EID_FIRST_ELEMENT, val);
    ResyncSyncs(xs, target, 0, EID_FIRST_ELEMENT);
    CellsBefore(vs, xs);
    CellsAfter(vs, xs, target, Resync(xs, target, 0, EID_FIRST_ELEMENT).0);
  }

  /** Reversing three elements with ids 1, 2, 3: the source's re-sync leaves the extras
      in the order 1, 2, 3 while the values are reversed; the corrected one gives 3, 2, 1. */
  lemma ResyncAsWrittenMisaligns()
    ensures var xs := [CollOp(OpSet, 1), CollOp(OpSet, 2), CollOp(OpSet, 3)];
      var target := [Slot(Int(30), 3, 2), Slot(Int(20), 2, 1), Slot(Int(10), 1, 0)];
      Eids(ResyncAsWritten(xs, target, 0, EID_FIRST_ELEMENT).0) == [1, 2, 3] &&
      Eids(Resync(xs, target, 0, EID_FIRST_ELEMENT).0) == [3, 2, 1] &&
      SlotEids(target) == [3, 2, 1]
  {
    var x1, x2, x3 := CollOp(OpSet, 1), CollOp(OpSet, 2), CollOp(OpSet, 3);
    var xs := [x1, x2, x3];
    var target := [Slot(Int(30), 3, 2), Slot(Int(20), 2, 1), Slot(Int(10), 1, 0)];
    // As written: [1,2,3] -> [3,1,2] -> [3,1,2] -> [1,2,3].
    assert RemoveAt(xs, 2) == [x1, x2];
    var w1 := [x3, x1, x2];
    assert RemoveAt(xs, 2)[..0] + [xs[2]] + RemoveAt(xs, 2)[0..] == w1;
    assert RemoveAt(w1, 1) == [x3, x2];
    var w2 := [x3, x1, x2];
    assert RemoveAt(w1, 1)[..1] + [w1[1]] + RemoveAt(w1, 1)[1..] == w2;
    assert RemoveAt(w2, 0) == [x1, x2];
    var w3 := [x1, x2, x3];
    assert RemoveAt(w2, 0)[..2] + [w2[0]] + RemoveAt(w2, 0)[2..] == w3;
    assert ResyncAsWritten(xs, target, 0, EID_FIRST_ELEMENT).0 == ResyncAsWritten(w1, target, 1, 3).0;
    assert ResyncAsWritten(w1, target, 1, 3).0 == ResyncAsWritten(w2, target, 2, 2).0;
    assert ResyncAsWritten(w2, target, 2, 2).0 == ResyncAsWritten(w3, target, 3, 1).0;
    assert Eids(w3) == [1, 2, 3];
    // Corrected: [1,2,3] -> [3,1,2] -> [3,2,1] -> in place.
    assert FirstFrom(xs, 0, 3, 3) == Some(2);
    var c1 := [x3, x1, x2];
    assert MoveTo(xs, 2, 0) == c1;
    assert FirstFrom(c1, 1, 3, 2) == Some(2);
    var c2 := [x3, x2, x1];
    assert MoveTo(c1, 2, 1) == c2;
    assert Resync(xs, target, 0, EID_FIRST_ELEMENT).0 == Resync(c1, target, 1, 3).0;
    assert Resync(c1, target, 1, 3).0 == Resync(c2, target, 2, 2).0;
    assert Resync(c2, target, 2, 2).0 == Resync(c2, target, 3, 1).0;
    assert Eids(c2) == [3, 2, 1];
  }
}
