// A PIN as the driver holds it in memory (affinity.rb:494-833): a property map whose
// values are plain values or PIN::Collection objects, the parallel map of Extras, and
// the pid. On a PIN that has a pid every change hands an update PIN to
// `_handlePINUpdate`; here those update PINs are appended to the PIN's `outbox`, and
// what happens to them next (send now or defer) is `Tx.TxCtx.HandlePinUpdate`.

module Pins {
  import opened Common
  import opened Wire
  import opened Ids
  import opened Marshal
  import opened Store
  import opened Diff
  import opened Edits
  import opened Reorder
  import opened Loops
  import RbArray

  /** A value handed to `PIN#[]=`: a plain value, a `[value, Extra]` pair, a non-empty
      list of such pairs, or a plain list. */
  datatype Input =
    | Plain(v: Native)
    | Pair(v: Native, x: Extra)
    | Pairs(ps: seq<(Native, Extra)>)
    | List(vs: seq<Native>)

  /** What a property holds once assigned: one value, or the values of a collection. */
  datatype Held = One(v: Native) | Many(vs: seq<Native>)

  /** One property of a PIN: its name, what it holds and its Extras. */
  datatype Entry = Entry(key: string, held: Held, xs: seq<Extra>)

  /** A PIN as a value: its pid and its properties in insertion order. The update PINs
      handed to `_handlePINUpdate` and the PINs `savePINs` serialises are of this form. */
  datatype PinDoc = PinDoc(pid: Option<PID>, entries: seq<Entry>)

  /** `compact`: the values other than nil, in order. */
  function NonNil(vs: seq<Native>): (r: seq<Native>)
    ensures |r| <= |vs|
    ensures forall v :: v in r <==> v in vs && v != Nil
    decreases |vs|
  {
    if vs == [] then []
    else (if vs[0] == Nil then [] else [vs[0]]) + NonNil(vs[1..])
  }

  /** The first components of a sequence of pairs (the values of a decoded array, the
      keys of a hash given as pairs). */
  function Firsts<A, B>(ps: seq<(A, B)>): (r: seq<A>)
    ensures |r| == |ps| && forall k :: 0 <= k < |ps| ==> r[k] == ps[k].0
  {
    seq(|ps|, k requires 0 <= k < |ps| => ps[k].0)
  }

  function Seconds<A, B>(ps: seq<(A, B)>): (r: seq<B>)
    ensures |r| == |ps| && forall k :: 0 <= k < |ps| ==> r[k] == ps[k].1
  {
    seq(|ps|, k requires 0 <= k < |ps| => ps[k].1)
  }

  /** The Extras `_assign` records for each element of a plain list: add at the end. */
  function AddsAtEnd(n: nat): (r: seq<Extra>)
    ensures |r| == n && forall k :: 0 <= k < n ==> r[k] == CollOp(OpAdd, EID_LAST_ELEMENT)
  {
    seq(n, _ => CollOp(OpAdd, EID_LAST_ELEMENT))
  }

  /** What `_assign` (affinity.rb:809-829) stores for a value, and the Extras it records:
      a plain value gets a default Extra; a pair keeps its Extra; a list of pairs keeps
      the non-nil values and every Extra; a plain list becomes a collection whose
      elements are all to be added at the end. */
  function Assigned(value: Input): (r: (Held, seq<Extra>))
    ensures r.0.One? <==> value.Plain? || value.Pair?
    ensures r.0.One? ==> |r.1| == 1 && r.0.v == value.v
    ensures value.Pair? ==> r.1 == [value.x]
    ensures value.Pairs? ==> |r.1| == |value.ps| && forall k :: 0 <= k < |value.ps| ==> r.1[k] == value.ps[k].1
    ensures value.List? ==> r.0 == Many(value.vs) && |r.1| == |value.vs|
  {
    match value
    case Plain(v) => (One(v), [NewExtra()])
    case Pair(v, x) => (One(v), [x])
    case Pairs(ps) =>
      if ps == [] then (Many([]), []) else (Many(NonNil(Firsts(ps))), Seconds(ps))
    case List(vs) => (Many(vs), AddsAtEnd(|vs|))
  }

  /** The update PIN `PIN[SK_PID => pid, key => value]`: a PIN without properties that
      is given `key => value` through `_assign`, and then the pid. */
  function UpdateDoc(pid: Option<PID>, key: string, value: Input): (r: PinDoc)
    ensures r.pid == pid && |r.entries| == 1 && r.entries[0].key == key
    ensures (r.entries[0].held, r.entries[0].xs) == Assigned(value)
  {
    var (held, xs) := Assigned(value);
    PinDoc(pid, [Entry(key, held, xs)])
  }

  /** The update PIN for one collection operation. */
  function OpDoc(pid: Option<PID>, key: string, op: ElemOp): (r: PinDoc)
    ensures r == PinDoc(pid, [Entry(key, One(op.v), [op.x])])
  {
    UpdateDoc(pid, key, Pair(op.v, op.x))
  }

  function OpDocs(pid: Option<PID>, key: string, ops: seq<ElemOp>): (r: seq<PinDoc>)
    ensures |r| == |ops| && forall k :: 0 <= k < |ops| ==> r[k] == OpDoc(pid, key, ops[k])
  {
    seq(|ops|, k requires 0 <= k < |ops| => OpDoc(pid, key, ops[k]))
  }

  lemma OpDocsAppend(pid: Option<PID>, key: string, a: seq<ElemOp>, b: seq<ElemOp>)
    ensures OpDocs(pid, key, a + b) == OpDocs(pid, key, a) + OpDocs(pid, key, b)
  {
  }

  /** The outbox after updates `a` were sent and then updates `b`. */
  lemma SentThen(box: seq<PinDoc>, pid: Option<PID>, key: string, a: seq<ElemOp>, b: seq<ElemOp>)
    ensures box + OpDocs(pid, key, a) + OpDocs(pid, key, b) == box + OpDocs(pid, key, a + b)
  {
    OpDocsAppend(pid, key, a, b);
    Assoc(box, OpDocs(pid, key, a), OpDocs(pid, key, b));
  }

  lemma SentOne(box: seq<PinDoc>, pid: Option<PID>, key: string, a: seq<ElemOp>, op: ElemOp)
    ensures box + OpDocs(pid, key, a) + [OpDoc(pid, key, op)] == box + OpDocs(pid, key, a + [op])
  {
    SentThen(box, pid, key, a, [op]);
  }

  /** Replacing the Extras of one property leaves those of the others. */
  lemma ExtrasElsewhere(m: map<string, seq<Extra>>, key: string, xs: seq<Extra>)
    ensures m[key := xs] - {key} == m - {key}
  {
  }

  lemma SameWithout(m: map<string, seq<Extra>>, n: map<string, seq<Extra>>, key: string)
    requires key !in m && key !in n && m - {key} == n - {key}
    ensures m == n
  {
    assert m == m - {key} && n == n - {key};
  }

  /** The update PIN `PIN#delete` sends: the property with a delete operation. */
  function DeleteDoc(pid: Option<PID>, key: string): (r: PinDoc)
    ensures r.pid == pid && |r.entries| == 1 && r.entries[0].key == key
    ensures r.entries[0].xs == [CollOp(OpDelete, EID_COLLECTION)]
  {
    UpdateDoc(pid, key, Pair(Int(0), CollOp(OpDelete, EID_COLLECTION)))
  }

  /** The delete PINs for `keys`, in order. */
  function DeleteDocs(pid: Option<PID>, keys: seq<string>): (r: seq<PinDoc>)
    ensures |r| == |keys|
    decreases |keys|
  {
    if keys == [] then [] else DeleteDocs(pid, keys[..|keys| - 1]) + [DeleteDoc(pid, keys[|keys| - 1])]
  }

  lemma DeleteDocsSnoc(pid: Option<PID>, keys: seq<string>, key: string)
    ensures DeleteDocs(pid, keys + [key]) == DeleteDocs(pid, keys) + [DeleteDoc(pid, key)]
  {
    assert (keys + [key])[..|keys|] == keys;
  }

  /** The update PINs for the pairs of `h`, in order. */
  function AssignDocs(pid: Option<PID>, h: seq<(string, Input)>): (r: seq<PinDoc>)
    ensures |r| == |h|
    decreases |h|
  {
    if h == [] then [] else AssignDocs(pid, h[..|h| - 1]) + [UpdateDoc(pid, h[|h| - 1].0, h[|h| - 1].1)]
  }

  /** The Extras after `store` of each pair of `h` in turn. */
  function Overridden(m: map<string, seq<Extra>>, h: seq<(string, Input)>): map<string, seq<Extra>>
    decreases |h|
  {
    if h == [] then m else Overridden(m, h[..|h| - 1])[h[|h| - 1].0 := Assigned(h[|h| - 1].1).1]
  }

  lemma OverriddenPrefix(m: map<string, seq<Extra>>, h: seq<(string, Input)>, i: nat)
    requires i < |h|
    ensures Overridden(m, h[..i + 1]) == Overridden(m, h[..i])[h[i].0 := Assigned(h[i].1).1]
  {
    assert h[..i + 1][..i] == h[..i];
  }

  lemma {:induction false} OverriddenAt(m: map<string, seq<Extra>>, h: seq<(string, Input)>, i: nat)
    requires i < |h| && Distinct(Firsts(h))
    ensures h[i].0 in Overridden(m, h) && Overridden(m, h)[h[i].0] == Assigned(h[i].1).1
    decreases |h|
  {
    var n := |h| - 1;
    if i < n {
      assert Firsts(h[..n]) == Firsts(h)[..n];
      OverriddenAt(m, h[..n], i);
      assert h[..n][i] == h[i];
      assert Firsts(h)[i] != Firsts(h)[n];
    }
  }

  lemma AssignDocsPrefix(pid: Option<PID>, h: seq<(string, Input)>, i: nat)
    requires i < |h|
    ensures AssignDocs(pid, h[..i + 1]) == AssignDocs(pid, h[..i]) + [UpdateDoc(pid, h[i].0, h[i].1)]
  {
    assert h[..i + 1][..i] == h[..i];
  }

  // ------------------------------------------------------------ key order

  predicate Distinct(s: seq<string>) {
    forall i, j :: 0 <= i < j < |s| ==> s[i] != s[j]
  }

  /** The sequence without `x`. */
  function Drop(s: seq<string>, x: string): (r: seq<string>)
    ensures |r| <= |s|
    decreases |s|
  {
    if s == [] then [] else (if s[0] == x then [] else [s[0]]) + Drop(s[1..], x)
  }

  /** `Drop` keeps every element but `x`. */
  lemma {:induction false} DropMembers(s: seq<string>, x: string)
    ensures x !in Drop(s, x) && forall y :: y in Drop(s, x) <==> y in s && y != x
    decreases |s|
  {
    if s != [] {
      DropMembers(s[1..], x);
      assert s == [s[0]] + s[1..];
    }
  }

  lemma {:induction false} DropAbsent(s: seq<string>, x: string)
    requires x !in s
    ensures Drop(s, x) == s
    decreases |s|
  {
    if s != [] {
      DropAbsent(s[1..], x);
      assert s == [s[0]] + s[1..];
    }
  }

  lemma {:induction false} DropMiddle(a: seq<string>, x: string, b: seq<string>)
    requires x !in a && x !in b
    ensures Drop(a + [x] + b, x) == a + b
    decreases |a|
  {
    if a == [] {
      assert ([x] + b)[1..] == b;
      DropAbsent(b, x);
    } else {
      assert (a + [x] + b)[1..] == a[1..] + [x] + b;
      DropMiddle(a[1..], x, b);
      assert a + b == [a[0]] + (a[1..] + b);
    }
  }

  lemma DistinctSnoc(s: seq<string>, x: string)
    requires Distinct(s) && x !in s
    ensures Distinct(s + [x])
  {
    var t := s + [x];
    forall i, j | 0 <= i < j < |t| ensures t[i] != t[j] {
      assert t[i] == s[i];
    }
  }

  lemma {:induction false} DropDistinct(s: seq<string>, x: string)
    requires Distinct(s)
    ensures Distinct(Drop(s, x))
    decreases |s|
  {
    if s != [] {
      DropDistinct(s[1..], x);
      DropMembers(s[1..], x);
      var d := Drop(s[1..], x);
      if s[0] != x {
        assert s[0] !in s[1..];
        assert s[0] !in d;
        var t := [s[0]] + d;
        forall i, j | 0 <= i < j < |t| ensures t[i] != t[j] {
          if i > 0 {
            assert t[i] == d[i - 1] && t[j] == d[j - 1];
          }
        }
      }
    }
  }

  lemma DistinctDrop(s: seq<string>, x: string)
    requires Distinct(s) && s != [] && s[0] == x
    ensures Drop(s, x) == s[1..]
  {
    assert s == [] + [x] + s[1..];
    DropMiddle([], x, s[1..]);
  }

  /** `order` lists the keys `keys` once each, and the Extras have the same keys. */
  ghost predicate KeyedBy(order: seq<string>, keys: set<string>, xkeys: set<string>) {
    Distinct(order) && (forall k :: k in keys <==> k in order) && xkeys == keys
  }

  lemma KeyedByAdd(order: seq<string>, keys: set<string>, key: string)
    requires KeyedBy(order, keys, keys)
    ensures KeyedBy(if key in keys then order else order + [key], keys + {key}, keys + {key})
  {
    if key !in keys {
      DistinctSnoc(order, key);
    }
  }

  lemma KeyedByRemove(order: seq<string>, keys: set<string>, key: string)
    requires KeyedBy(order, keys, keys)
    ensures KeyedBy(Drop(order, key), keys - {key}, keys - {key})
  {
    DropDistinct(order, key);
    DropMembers(order, key);
  }

  /** The elements of `s` that are (`inside`) or are not in `t`, in order. */
  function Among(s: seq<string>, t: seq<string>, inside: bool): (r: seq<string>)
    decreases |s|
  {
    if s == [] then []
    else Among(s[..|s| - 1], t, inside) + (if (s[|s| - 1] in t) == inside then [s[|s| - 1]] else [])
  }

  /** `Among` keeps exactly the keys of `s` whose membership in `t` is `inside`. */
  lemma {:induction false} AmongMembers(s: seq<string>, t: seq<string>, inside: bool)
    ensures forall y :: y in Among(s, t, inside) <==> y in s && ((y in t) == inside)
    decreases |s|
  {
    if s != [] {
      var m := s[..|s| - 1];
      AmongMembers(m, t, inside);
      assert s == m + [s[|s| - 1]];
    }
  }

  lemma {:induction false} AmongNone(s: seq<string>)
    ensures Among(s, [], false) == s
    decreases |s|
  {
    if s != [] {
      AmongNone(s[..|s| - 1]);
      assert s[..|s| - 1] + [s[|s| - 1]] == s;
    }
  }

  /** Replacing the keys of an empty PIN by `keys` orders them as given. */
  lemma FromNothing(keys: seq<string>)
    ensures Among([], keys, true) + Among(keys, [], false) == keys
  {
    AmongNone(keys);
    assert Among([], keys, true) == [];
  }

  lemma DistinctSplit(a: seq<string>, b: seq<string>)
    requires Distinct(a + b)
    ensures Distinct(a) && forall x :: x in a ==> x !in b
  {
    forall i, j | 0 <= i < j < |a| ensures a[i] != a[j] {
      assert a[i] == (a + b)[i] && a[j] == (a + b)[j];
    }
    forall i, j | 0 <= i < |a| && 0 <= j < |b| ensures a[i] != b[j] {
      assert a[i] == (a + b)[i] && b[j] == (a + b)[|a| + j];
    }
  }

  lemma AbsentStart(oldKeys: seq<string>, keys: seq<string>, tail: seq<string>)
    ensures Among(oldKeys[..0], keys, true) + oldKeys[0..] + tail == oldKeys + tail
    ensures Among(oldKeys[..0], keys, false) == []
  {
    assert oldKeys[..0] == [] && oldKeys[0..] == oldKeys;
  }

  lemma Assoc<T>(a: seq<T>, b: seq<T>, c: seq<T>)
    ensures a + (b + c) == (a + b) + c
  {
  }

  /** The deletes of the second loop of `replace` (affinity.rb:566) on the PIN's key
      order, values and Extras: every key of `oldKeys` not in `keys` goes, in order, and
      each sends a delete when the PIN has a pid. */
  method DeleteAbsentKeys<P>(pid: Option<PID>, order: seq<string>, props: map<string, P>, extras: map<string, seq<Extra>>,
                             oldKeys: seq<string>, keys: seq<string>, tail: seq<string>)
    returns (ord: seq<string>, prs: map<string, P>, exs: map<string, seq<Extra>>, sent: seq<PinDoc>)
    requires KeyedBy(order, props.Keys, extras.Keys) && order == oldKeys + tail && forall x :: x in tail ==> x in keys
    ensures KeyedBy(ord, prs.Keys, exs.Keys) && ord == Among(oldKeys, keys, true) + tail
    ensures forall k :: k in keys && k in props ==> k in prs && prs[k] == props[k]
    ensures forall k :: k in keys && k in extras ==> k in exs && exs[k] == extras[k]
    ensures sent == if pid.Some? then DeleteDocs(pid, Among(oldKeys, keys, false)) else []
  {
    AbsentStart(oldKeys, keys, tail);
    assert Distinct(oldKeys + tail);
    ord := order;
    sent := [];
    var removed: set<string> := {};
    var j := 0;
    while j < |oldKeys|
      invariant j <= |oldKeys| && AbsentSoFar(pid, props.Keys, oldKeys, keys, tail, j, ord, removed, sent)
    {
      j := j + 1;
      ord, removed, sent := DeleteAbsentKey(pid, props.Keys, oldKeys, keys, tail, j, ord, removed, sent);
    }
    prs, exs := props - removed, extras - removed;
    AbsentDone(pid, props, extras, oldKeys, keys, tail, ord, removed, sent);
  }

  /** What the second loop of `replace` leaves once every key of `oldKeys` is seen. */
  lemma AbsentDone<P>(pid: Option<PID>, props: map<string, P>, extras: map<string, seq<Extra>>,
                      oldKeys: seq<string>, keys: seq<string>, tail: seq<string>,
                      ord: seq<string>, removed: set<string>, sent: seq<PinDoc>)
    requires extras.Keys == props.Keys && AbsentSoFar(pid, props.Keys, oldKeys, keys, tail, |oldKeys|, ord, removed, sent)
    ensures KeyedBy(ord, (props - removed).Keys, (extras - removed).Keys) && ord == Among(oldKeys, keys, true) + tail
    ensures forall k :: k in keys && k in props ==> k in props - removed && (props - removed)[k] == props[k]
    ensures forall k :: k in keys && k in extras ==> k in extras - removed && (extras - removed)[k] == extras[k]
    ensures sent == if pid.Some? then DeleteDocs(pid, Among(oldKeys, keys, false)) else []
  {
    assert oldKeys[..|oldKeys|] == oldKeys;
    MinusKeeps(props, removed, keys);
    MinusKeeps(extras, removed, keys);
  }

  /** Removing keys none of which is in `keys` keeps every entry under `keys`. */
  lemma MinusKeeps<V>(m: map<string, V>, removed: set<string>, keys: seq<string>)
    requires forall x :: x in removed ==> x !in keys
    ensures (m - removed).Keys == m.Keys - removed
    ensures forall k :: k in keys && k in m ==> k in m - removed && (m - removed)[k] == m[k]
  {
  }

  /** What the second loop of `replace` has done after the first `j` keys of `oldKeys`:
      the kept keys, the keys removed from `live`, the deletes sent. */
  ghost predicate AbsentSoFar(pid: Option<PID>, live: set<string>, oldKeys: seq<string>, keys: seq<string>, tail: seq<string>,
                              j: nat, ord: seq<string>, removed: set<string>, sent: seq<PinDoc>)
    requires j <= |oldKeys|
  {
    KeyedBy(ord, live - removed, live - removed) &&
    ord == Among(oldKeys[..j], keys, true) + oldKeys[j..] + tail &&
    (forall x :: x in removed ==> x !in keys) &&
    sent == if pid.Some? then DeleteDocs(pid, Among(oldKeys[..j], keys, false)) else []
  }

  /** One key of the second loop of `replace`: `delete(oldKeys[j - 1])` unless it is in `keys`. */
  method DeleteAbsentKey(pid: Option<PID>, live: set<string>, oldKeys: seq<string>, keys: seq<string>, tail: seq<string>,
                         j: nat, ord: seq<string>, removed: set<string>, sent: seq<PinDoc>)
    returns (ord': seq<string>, removed': set<string>, sent': seq<PinDoc>)
    requires 0 < j <= |oldKeys| && Distinct(oldKeys + tail) && forall x :: x in tail ==> x in keys
    requires AbsentSoFar(pid, live, oldKeys, keys, tail, j - 1, ord, removed, sent)
    ensures AbsentSoFar(pid, live, oldKeys, keys, tail, j, ord', removed', sent')
  {
    var k := oldKeys[j - 1];
    ord', removed', sent' := ord, removed, sent;
    if k !in keys {
      KeyedByRemove(ord, live - removed, k);
      ord' := Drop(ord, k);
      assert live - removed - {k} == live - (removed + {k});
      removed' := removed + {k};
      if pid.Some? {
        sent' := sent + [DeleteDoc(pid, k)];
      }
    }
    assert sent' == sent + (if pid.Some? && k !in keys then [DeleteDoc(pid, k)] else []);
    AbsentNext(oldKeys, keys, tail, j, ord, ord');
    AbsentSent(pid, oldKeys, keys, j, sent, sent');
  }

  lemma AbsentNext(oldKeys: seq<string>, keys: seq<string>, tail: seq<string>, j: nat, prev: seq<string>, ord: seq<string>)
    requires 0 < j <= |oldKeys| && Distinct(oldKeys + tail) && forall x :: x in tail ==> x in keys
    requires prev == Among(oldKeys[..j - 1], keys, true) + oldKeys[j - 1..] + tail
    requires ord == if oldKeys[j - 1] in keys then prev else Drop(prev, oldKeys[j - 1])
    ensures ord == Among(oldKeys[..j], keys, true) + oldKeys[j..] + tail
  {
    AbsentStep(oldKeys, keys, tail, j - 1);
  }

  /** One step of the second loop of `replace`, on the deletes it sends. */
  lemma AbsentSent(pid: Option<PID>, oldKeys: seq<string>, keys: seq<string>, j: nat, prev: seq<PinDoc>, sent: seq<PinDoc>)
    requires 0 < j <= |oldKeys|
    requires prev == if pid.Some? then DeleteDocs(pid, Among(oldKeys[..j - 1], keys, false)) else []
    requires sent == prev + (if pid.Some? && oldKeys[j - 1] !in keys then [DeleteDoc(pid, oldKeys[j - 1])] else [])
    ensures sent == if pid.Some? then DeleteDocs(pid, Among(oldKeys[..j], keys, false)) else []
  {
    var k := oldKeys[j - 1];
    var gone := Among(oldKeys[..j - 1], keys, false);
    assert oldKeys[..j] == oldKeys[..j - 1] + [k];
    AmongSnoc(oldKeys[..j - 1], k, keys, false);
    if k !in keys {
      DeleteDocsSnoc(pid, gone, k);
    } else {
      assert gone + [] == gone;
      assert DeleteDocs(pid, gone) + [] == DeleteDocs(pid, gone);
    }
  }

  /** One step of the second loop of `replace`, on the key order. */
  lemma AbsentStep(oldKeys: seq<string>, keys: seq<string>, tail: seq<string>, j: nat)
    requires j < |oldKeys| && Distinct(oldKeys + tail) && forall x :: x in tail ==> x in keys
    ensures var before := Among(oldKeys[..j], keys, true) + oldKeys[j..] + tail;
      var after := Among(oldKeys[..j + 1], keys, true) + oldKeys[j + 1..] + tail;
      (if oldKeys[j] in keys then before else Drop(before, oldKeys[j])) == after
    ensures Among(oldKeys[..j + 1], keys, false) ==
      Among(oldKeys[..j], keys, false) + (if oldKeys[j] in keys then [] else [oldKeys[j]])
  {
    var k := oldKeys[j];
    var kept := Among(oldKeys[..j], keys, true);
    var rest := oldKeys[j + 1..];
    assert oldKeys[..j + 1] == oldKeys[..j] + [k];
    assert oldKeys[j..] == [k] + rest;
    AmongSnoc(oldKeys[..j], k, keys, true);
    AmongSnoc(oldKeys[..j], k, keys, false);
    var before := kept + oldKeys[j..] + tail;
    assert before == kept + ([k] + rest) + tail;
    if k in keys {
      KeptStep(kept, k, rest, tail);
      assert Among(oldKeys[..j + 1], keys, true) == kept + [k];
    } else {
      assert Among(oldKeys[..j + 1], keys, true) == kept;
      assert oldKeys == oldKeys[..j + 1] + rest;
      DistinctSplit(oldKeys, tail);
      DistinctSplit(oldKeys[..j + 1], rest);
      assert k in oldKeys[..j + 1];
      AmongMembers(oldKeys[..j], keys, true);
      GoneStep(kept, k, rest, tail);
    }
  }

  lemma KeptStep(kept: seq<string>, k: string, rest: seq<string>, tail: seq<string>)
    ensures kept + ([k] + rest) + tail == (kept + [k]) + rest + tail
  {
    Assoc(kept, [k], rest);
  }

  lemma GoneStep(kept: seq<string>, k: string, rest: seq<string>, tail: seq<string>)
    requires k !in kept && k !in rest && k !in tail
    ensures Drop(kept + ([k] + rest) + tail, k) == kept + rest + tail
  {
    Assoc(kept, [k], rest);
    Assoc(kept + [k], rest, tail);
    Assoc(kept, rest, tail);
    assert kept + ([k] + rest) + tail == kept + [k] + (rest + tail);
    DropMiddle(kept, k, rest + tail);
  }

  /** One step of the first loop of `replace`, on the keys it adds. */
  lemma AddedStep(oldKeys: seq<string>, keys: seq<string>, i: nat)
    requires i < |keys| && Distinct(keys)
    ensures keys[i] !in Among(keys[..i], oldKeys, false)
    ensures Among(keys[..i + 1], oldKeys, false) ==
      Among(keys[..i], oldKeys, false) + (if keys[i] in oldKeys then [] else [keys[i]])
  {
    var k := keys[i];
    assert keys[..i + 1] == keys[..i] + [k];
    assert k !in keys[..i];
    AmongMembers(keys[..i], oldKeys, false);
    AmongSnoc(keys[..i], k, oldKeys, false);
  }

  lemma AmongSnoc(s: seq<string>, x: string, t: seq<string>, inside: bool)
    ensures Among(s + [x], t, inside) == Among(s, t, inside) + (if (x in t) == inside then [x] else [])
  {
    assert (s + [x])[..|s|] == s;
  }

  /** What a property holds, read through the collection object when it is one. */
  datatype Prop = Scalar(v: Native) | Collected(c: Collection)

  function HeldOf(p: Prop): Held
    reads if p.Collected? then {p.c} else {}
  {
    match p case Scalar(v) => One(v) case Collected(c) => Many(c.values)
  }

  class Pin {
    /** `@pid`: none until the PIN is saved or loaded. */
    var pid: Option<PID>
    /** The keys of `@hash`, in insertion order. */
    var order: seq<string>
    /** `@hash`. */
    var props: map<string, Prop>
    /** `@extras`. */
    var extras: map<string, seq<Extra>>
    /** The update PINs handed to `_handlePINUpdate`, in order. */
    var outbox: seq<PinDoc>

    /** Every key of `@hash` once, in order, each with its Extras. */
    ghost predicate Valid()
      reads this
    {
      KeyedBy(order, props.Keys, extras.Keys)
    }

    /** `PIN.new`. */
    constructor ()
      ensures Valid()
      ensures pid == None && order == [] && props == map[] && extras == map[] && outbox == []
    {
      pid := None;
      order := [];
      props := map[];
      extras := map[];
      outbox := [];
    }

    function Collections(): set<Collection>
      reads this
    {
      set k | k in props && props[k].Collected? :: props[k].c
    }

    function EntriesOf(keys: seq<string>): (r: seq<Entry>)
      requires forall k :: k in keys ==> k in props && k in extras
      reads this, Collections()
      ensures |r| == |keys|
      ensures forall i :: 0 <= i < |keys| ==>
        r[i] == Entry(keys[i], HeldOf(props[keys[i]]), extras[keys[i]])
      decreases |keys|
    {
      if keys == [] then []
      else
        var k := keys[0];
        assert props[k].Collected? ==> props[k].c in Collections();
        [Entry(k, HeldOf(props[k]), extras[k])] + EntriesOf(keys[1..])
    }

    /** The PIN as a value: pid and properties in order. */
    function Doc(): PinDoc
      requires Valid()
      reads this, Collections()
    {
      PinDoc(pid, EntriesOf(order))
    }

    /** `_handlePINUpdate` as far as the PIN is concerned: the update leaves through
        the outbox. */
    method HandleUpdate(doc: PinDoc)
      modifies this
      ensures outbox == old(outbox) + [doc]
      ensures pid == old(pid) && order == old(order) && props == old(props) && extras == old(extras)
    {
      outbox := outbox + [doc];
    }

    /** Stores `p` and its Extras under `key`, a new key going last. */
    method Put(key: string, p: Prop, xs: seq<Extra>)
      requires Valid()
      modifies this
      ensures Valid()
      ensures pid == old(pid) && outbox == old(outbox)
      ensures order == if key in old(props) then old(order) else old(order) + [key]
      ensures props == old(props)[key := p] && extras == old(extras)[key := xs]
    {
      KeyedByAdd(order, props.Keys, key);
      if key !in order {
        order := order + [key];
      }
      props := props[key := p];
      extras := extras[key := xs];
    }

    /** `_assign(key, value)` (affinity.rb:809-833), reached through `[]=` and `store`:
        records the value (a plain list becomes a new collection) and its Extras, and,
        when the PIN has a pid, sends `PIN[SK_PID => pid, key => value]`. */
    method Assign(key: string, value: Input)
      requires Valid()
      modifies this
      ensures Valid()
      ensures pid == old(pid)
      ensures order == if key in old(props) then old(order) else old(order) + [key]
      ensures props.Keys == old(props.Keys) + {key}
      ensures forall k :: k in old(props) && k != key ==> props[k] == old(props[k])
      ensures HeldOf(props[key]) == Assigned(value).0
      ensures props[key].Collected? ==> fresh(props[key].c) && props[key].c.pin == this && props[key].c.property == key
      ensures extras == old(extras)[key := Assigned(value).1]
      ensures outbox == old(outbox) + (if pid.Some? then [UpdateDoc(pid, key, value)] else [])
    {
      var a := Assigned(value);
      var p: Prop;
      if a.0.One? {
        p := Scalar(a.0.v);
      } else {
        var c := new Collection(this, key, a.0.vs);
        p := Collected(c);
      }
      Put(key, p, a.1);
      if pid.Some? {
        HandleUpdate(UpdateDoc(pid, key, value));
      }
    }

    /** `delete(key)` (affinity.rb:570-575): removes the property and its Extras, returns
        what it held, and, when the PIN has a pid, sends a delete of the property (even
        for a key it did not have). The block form is left out. */
    method Delete(key: string) returns (r: Option<Prop>)
      requires Valid()
      modifies this
      ensures Valid()
      ensures r == if key in old(props) then Some(old(props)[key]) else None
      ensures pid == old(pid)
      ensures order == Drop(old(order), key)
      ensures props == old(props) - {key} && extras == old(extras) - {key}
      ensures outbox == old(outbox) + (if pid.Some? then [DeleteDoc(pid, key)] else [])
    {
      r := if key in props then Some(props[key]) else None;
      Unput(key);
      if pid.Some? {
        HandleUpdate(DeleteDoc(pid, key));
      }
    }

    /** Removes `key` and its Extras. */
    method Unput(key: string)
      requires Valid()
      modifies this
      ensures Valid()
      ensures pid == old(pid) && outbox == old(outbox)
      ensures order == Drop(old(order), key)
      ensures props == old(props) - {key} && extras == old(extras) - {key}
    {
      KeyedByRemove(order, props.Keys, key);
      props := props - {key};
      order := Drop(order, key);
      extras := extras - {key};
    }

    /** `clear` (affinity.rb:599-602): `delete` for each key in turn. */
    method Clear()
      requires Valid()
      modifies this
      ensures Valid()
      ensures pid == old(pid) && order == [] && props == map[] && extras == map[]
      ensures outbox == old(outbox) + (if pid.Some? then DeleteDocs(pid, old(order)) else [])
    {
      ghost var done: seq<string> := [];
      while order != []
        invariant Valid() && pid == old(pid) && old(order) == done + order
        invariant outbox == old(outbox) + (if pid.Some? then DeleteDocs(pid, done) else [])
        decreases |order|
      {
        done := DeleteFirst(old(order), old(outbox), done);
      }
      assert done + order == done;
      assert props.Keys == {} && extras.Keys == {};
    }

    /** One step of `clear`: `delete` of the first key, the keys `keys` of `clear`'s start
        having `done` deleted before it, with their deletions sent after `sent`. */
    method DeleteFirst(ghost keys: seq<string>, ghost sent: seq<PinDoc>, ghost done: seq<string>) returns (ghost done': seq<string>)
      requires Valid() && order != [] && keys == done + order
      requires outbox == sent + (if pid.Some? then DeleteDocs(pid, done) else [])
      modifies this
      ensures Valid() && pid == old(pid) && keys == done' + order && |order| < |old(order)|
      ensures outbox == sent + (if pid.Some? then DeleteDocs(pid, done') else [])
    {
      var k := order[0];
      DistinctDrop(order, k);
      var _ := Delete(k);
      DeleteDocsSnoc(pid, done, k);
      done' := done + [k];
      assert keys == done' + order;
    }

    /** `replace(h)` (affinity.rb:562-568): stores every pair of `h` in order, then deletes
        every old key `h` does not have, in the old order. */
    method Replace(h: seq<(string, Input)>)
      requires Valid() && Distinct(Firsts(h))
      modifies this
      ensures Valid()
      ensures pid == old(pid)
      ensures order == Among(old(order), Firsts(h), true) + Among(Firsts(h), old(order), false)
      ensures forall i :: 0 <= i < |h| ==> h[i].0 in extras && extras[h[i].0] == Assigned(h[i].1).1
      ensures outbox == old(outbox) +
        (if pid.Some? then AssignDocs(pid, h) + DeleteDocs(pid, Among(old(order), Firsts(h), false)) else [])
    {
      var oldKeys := order;
      var keys := Firsts(h);
      StoreAll(h);
      ghost var stored := extras;
      AmongMembers(keys, oldKeys, false);
      DeleteAbsent(oldKeys, keys, Among(keys, oldKeys, false));
      forall i | 0 <= i < |h| ensures h[i].0 in extras && extras[h[i].0] == Assigned(h[i].1).1 {
        OverriddenAt(old(extras), h, i);
        assert h[i].0 == keys[i];
      }
      if pid.Some? {
        Assoc(old(outbox), AssignDocs(pid, h), DeleteDocs(pid, Among(oldKeys, keys, false)));
      }
    }

    /** `pid=`, the writer of `attr_accessor :pid`: nothing else changes. */
    method SetPid(id: Option<PID>)
      requires Valid()
      modifies this
      ensures Valid() && pid == id
      ensures order == old(order) && props == old(props) && extras == old(extras) && outbox == old(outbox)
      ensures forall k :: k in props ==> HeldOf(props[k]) == old(HeldOf(props[k]))
    {
      pid := id;
    }

    /** `PIN[...]` (affinity.rb:513-533), once its arguments are read as the pairs `h`
        and the pid given under SK_PID: a new PIN takes the pairs by `replace` while it
        has no pid, so nothing is sent, and the pid is set last. */
    static method Make(id: Option<PID>, h: seq<(string, Input)>) returns (pin: Pin)
      requires Distinct(Firsts(h))
      ensures fresh(pin) && pin.Valid()
      ensures pin.pid == id && pin.order == Firsts(h) && pin.outbox == []
      ensures forall i :: 0 <= i < |h| ==> h[i].0 in pin.extras && pin.extras[h[i].0] == Assigned(h[i].1).1
    {
      pin := new Pin();
      FromNothing(Firsts(h));
      pin.Replace(h);
      pin.SetPid(id);
    }

    /** The first half of `replace`: `store` of every pair of `h`, in order. */
    method StoreAll(h: seq<(string, Input)>)
      requires Valid() && Distinct(Firsts(h))
      modifies this
      ensures Valid() && pid == old(pid)
      ensures order == old(order) + Among(Firsts(h), old(order), false)
      ensures outbox == old(outbox) + (if pid.Some? then AssignDocs(pid, h) else [])
      ensures extras == Overridden(old(extras), h)
    {
      var oldKeys := order;
      var keys := Firsts(h);
      assert keys[..0] == [] && h[..0] == [];
      ghost var added: seq<string> := [];
      ghost var sent: seq<PinDoc> := [];
      var i := 0;
      while i < |h|
        invariant 0 <= i <= |h| && Valid() && pid == old(pid)
        invariant added == Among(keys[..i], oldKeys, false) && order == oldKeys + added
        invariant sent == (if pid.Some? then AssignDocs(pid, h[..i]) else []) && outbox == old(outbox) + sent
        invariant extras == Overridden(old(extras), h[..i])
      {
        var k := h[i].0;
        assert keys[i] == k;
        AddedStep(oldKeys, keys, i);
        assert k in props <==> k in oldKeys;
        Assign(k, h[i].1);
        if k !in oldKeys {
          Assoc(oldKeys, added, [k]);
          added := added + [k];
        }
        if pid.Some? {
          AssignDocsPrefix(pid, h, i);
          Assoc(old(outbox), sent, [UpdateDoc(pid, k, h[i].1)]);
          sent := sent + [UpdateDoc(pid, k, h[i].1)];
        }
        OverriddenPrefix(old(extras), h, i);
        i := i + 1;
      }
      assert keys[..|h|] == keys && h[..|h|] == h;
    }

    /** The second half of `replace`: deletes, in order, every key of `oldKeys` that is
        not in `keys`; `order` starts as `oldKeys` followed by keys of `keys` only. */
    method DeleteAbsent(oldKeys: seq<string>, keys: seq<string>, tail: seq<string>)
      requires Valid() && order == oldKeys + tail && forall x :: x in tail ==> x in keys
      modifies this
      ensures Valid() && pid == old(pid)
      ensures order == Among(oldKeys, keys, true) + tail
      ensures forall k :: k in keys && k in old(props) ==> k in props && props[k] == old(props[k])
      ensures forall k :: k in keys && k in old(extras) ==> k in extras && extras[k] == old(extras[k])
      ensures outbox == old(outbox) + (if pid.Some? then DeleteDocs(pid, Among(oldKeys, keys, false)) else [])
    {
      var ord, prs, exs, sent := DeleteAbsentKeys(pid, order, props, extras, oldKeys, keys, tail);
      order, props, extras, outbox := ord, prs, exs, outbox + sent;
    }

    /** `getExtra(property, eid)` (affinity.rb:624-637): the Extra of the element `eid`
        of the property or, for EID_COLLECTION, its only Extra; `None` where the source
        raises (unknown property, no such element, or several Extras). */
    function GetExtra(property: string, eid: nat): (r: Option<Extra>)
      reads this
      ensures r.Some? ==> property in extras && r.value in extras[property]
      ensures eid != EID_COLLECTION ==>
        (r.Some? <==> property in extras && exists k :: 0 <= k < |extras[property]| && extras[property][k].eid == eid)
      ensures eid != EID_COLLECTION && r.Some? ==> r.value.eid == eid
      ensures eid != EID_COLLECTION && r.Some? ==>
        exists k :: 0 <= k < |extras[property]| && extras[property][k] == r.value &&
          forall j :: 0 <= j < k ==> extras[property][j].eid != eid
      ensures eid == EID_COLLECTION ==>
        (r.Some? <==> property in extras && |extras[property]| == 1) &&
        (r.Some? ==> r.value == extras[property][0])
    {
      if property !in extras then None
      else
        var xs := extras[property];
        if eid != EID_COLLECTION then
          match FirstFrom(xs, 0, |xs|, eid)
          case Some(i) => Some(xs[i])
          case None => None
        else if |xs| == 1 then Some(xs[0])
        else None
    }

    /** `clearPIN` (affinity.rb:782-787): the pid goes first, so the deletes it does
        send nothing. */
    method ClearPin()
      requires Valid()
      modifies this
      ensures Valid()
      ensures pid == None && order == [] && props == map[] && extras == map[]
      ensures outbox == old(outbox)
    {
      pid := None;
      Clear();
    }

    /** `loadPIN` (affinity.rb:764-773): clears the PIN, assigns each decoded value by
        name, and sets the pid last, so that nothing is sent. A value `_assign` cannot
        take makes it raise there, the pid still unset. */
    method LoadPin(id: PID, values: seq<(string, Decoded)>) returns (ok: bool)
      requires Valid()
      modifies this
      ensures Valid() && outbox == old(outbox)
      ensures ok <==> forall i :: 0 <= i < |values| ==> InputOf(values[i].1).Some?
      ensures ok ==> pid == Some(id) && props.Keys == set i | 0 <= i < |values| :: values[i].0
      ensures ok ==> var m := LastInputs(values, |values|);
        forall k :: k in m ==> k in props && k in extras && HeldOf(props[k]) == Assigned(m[k]).0 && extras[k] == Assigned(m[k]).1
      ensures !ok ==> pid == None
    {
      ClearPin();
      ok := LoadValues(values);
      if ok {
        LastInputsKeys(values, |values|);
        SetPid(Some(id));
      }
    }

    /** `loadPIN`'s loop over the decoded values, the PIN cleared and its pid unset. */
    method LoadValues(values: seq<(string, Decoded)>) returns (ok: bool)
      requires Valid() && pid == None && props == map[] && extras == map[]
      modifies this
      ensures Valid() && pid == None && outbox == old(outbox)
      ensures ok <==> forall i :: 0 <= i < |values| ==> InputOf(values[i].1).Some?
      ensures ok ==> var m := LastInputs(values, |values|);
        props.Keys == m.Keys &&
        forall k :: k in m ==> k in extras && HeldOf(props[k]) == Assigned(m[k]).0 && extras[k] == Assigned(m[k]).1
    {
      var i := 0;
      while i < |values|
        invariant 0 <= i <= |values| && Valid() && pid == None && outbox == old(outbox)
        invariant forall j :: 0 <= j < i ==> InputOf(values[j].1).Some?
        invariant var m := LastInputs(values, i);
          props.Keys == m.Keys &&
          forall k :: k in m ==> k in extras && HeldOf(props[k]) == Assigned(m[k]).0 && extras[k] == Assigned(m[k]).1
      {
        if InputOf(values[i].1).None? {
          return false;
        }
        LoadNext(values, i);
        i := i + 1;
      }
      ok := true;
    }

    /** One value of `loadPIN`'s loop: `_assign` of the `i`-th decoded value, the pid unset. */
    method LoadNext(values: seq<(string, Decoded)>, i: nat)
      requires Valid() && pid == None && i < |values|
      requires forall j :: 0 <= j < i + 1 ==> InputOf(values[j].1).Some?
      requires var m := LastInputs(values, i);
        props.Keys == m.Keys &&
        forall k :: k in m ==> k in extras && HeldOf(props[k]) == Assigned(m[k]).0 && extras[k] == Assigned(m[k]).1
      modifies this
      ensures Valid() && pid == None && outbox == old(outbox)
      ensures var m := LastInputs(values, i + 1);
        props.Keys == m.Keys &&
        forall k :: k in m ==> k in extras && HeldOf(props[k]) == Assigned(m[k]).0 && extras[k] == Assigned(m[k]).1
    {
      var key, input := values[i].0, InputOf(values[i].1).value;
      ghost var m := LastInputs(values, i);
      assert LastInputs(values, i + 1) == m[key := input];
      ghost var before := props;
      AssignTracked(key, input);
      forall k | k in m && k != key
        ensures HeldOf(props[k]) == Assigned(m[k]).0
      {
        var p := props[k];
        assert p == before[k];
        if p.Collected? {
          assert p.c.values == old(p.c.values);
        }
      }
    }

    /** `_assign` on a PIN without a pid: the other keys keep their values, their Extras
        and, for a collection, its elements. */
    method AssignTracked(key: string, input: Input)
      requires Valid() && pid == None
      modifies this
      ensures Valid() && pid == None && outbox == old(outbox)
      ensures props.Keys == old(props.Keys) + {key}
      ensures key in props && key in extras && HeldOf(props[key]) == Assigned(input).0 && extras[key] == Assigned(input).1
      ensures forall k :: k in old(props) && k != key ==> props[k] == old(props[k]) && k in extras && extras[k] == old(extras[k])
      ensures forall k :: k in old(props) && k != key && props[k].Collected? ==> props[k].c.values == old(props[k].c.values)
    {
      Assign(key, input);
    }
  }

  /** The names of the first `i + 1` values are those of the first `i` and the next. */
  lemma NamesNext(values: seq<(string, Decoded)>, i: nat)
    requires i < |values|
    ensures (set j | 0 <= j < i + 1 :: values[j].0) == (set j | 0 <= j < i :: values[j].0) + {values[i].0}
  {
    var a, b := set j | 0 <= j < i + 1 :: values[j].0, set j | 0 <= j < i :: values[j].0;
    forall n | n in a
      ensures n in b + {values[i].0}
    {
      var j :| 0 <= j < i + 1 && values[j].0 == n;
      if j < i {
        assert n in b;
      }
    }
  }

  /** How `_assign` (affinity.rb:809-824) receives what `_valuePB2RB` returns: a single
      value as its pair, an unknown value as nil. A list whose first entry is a pair is a
      list of pairs, and a later entry that is not one makes `_assign` raise. A list whose
      first entry is nil, like an empty list, is a plain list: a collection of nils when
      every entry is nil. A list whose first entry is itself a list raises. `None` where
      the source raises, and for the lists that would make raw pairs or nested lists
      elements of a collection, which this model does not represent. */
  function InputOf(d: Decoded): (r: Option<Input>)
    ensures d.Single? ==> r == Some(Pair(d.v, d.extra))
    ensures d.Unknown? ==> r == Some(Plain(Nil))
    ensures d.Elements? && d.items == [] ==> r == Some(List([]))
    ensures d.Elements? && d.items != [] && d.items[0].Single? ==>
              (r.Some? <==> forall k :: 0 <= k < |d.items| ==> d.items[k].Single?)
    ensures r.Some? && r.value.Pairs? ==>
              d.Elements? && |r.value.ps| == |d.items| &&
              forall k :: 0 <= k < |d.items| ==> d.items[k].Single? && r.value.ps[k] == (d.items[k].v, d.items[k].extra)
    ensures d.Elements? && d.items != [] && d.items[0].Unknown? ==>
              (r.Some? <==> forall k :: 0 <= k < |d.items| ==> d.items[k].Unknown?) &&
              (r.Some? ==> r.value == List(RbArray.Nils(|d.items|)))
    ensures d.Elements? && d.items != [] && d.items[0].Elements? ==> r.None?
  {
    match d
    case Single(v, x) => Some(Pair(v, x))
    case Unknown => Some(Plain(Nil))
    case Elements(items) =>
      if items == [] then Some(List([]))
      else if items[0].Single? then
        if forall k :: 0 <= k < |items| ==> items[k].Single? then
          Some(Pairs(seq(|items|, k requires 0 <= k < |items| && items[k].Single? => (items[k].v, items[k].extra))))
        else None
      else if items[0].Unknown? && forall k :: 0 <= k < |items| ==> items[k].Unknown? then
        Some(List(RbArray.Nils(|items|)))
      else None
  }

  /** What each name was last assigned among the first `n` decoded values. */
  function LastInputs(values: seq<(string, Decoded)>, n: nat): map<string, Input>
    requires n <= |values| && forall j :: 0 <= j < n ==> InputOf(values[j].1).Some?
  {
    if n == 0 then map[] else LastInputs(values, n - 1)[values[n - 1].0 := InputOf(values[n - 1].1).value]
  }

  /** The names assigned among the first `n` values are the names of those values. */
  lemma {:induction false} LastInputsKeys(values: seq<(string, Decoded)>, n: nat)
    requires n <= |values| && forall j :: 0 <= j < n ==> InputOf(values[j].1).Some?
    ensures LastInputs(values, n).Keys == set j | 0 <= j < n :: values[j].0
  {
    if n > 0 {
      LastInputsKeys(values, n - 1);
      NamesNext(values, n - 1);
    }
  }

  /** A name holds the input of its last occurrence among the first `n` values. */
  lemma {:induction false} LastInputsAt(values: seq<(string, Decoded)>, n: nat, i: nat)
    requires n <= |values| && forall j :: 0 <= j < n ==> InputOf(values[j].1).Some?
    requires i < n && forall j :: i < j < n ==> values[j].0 != values[i].0
    ensures values[i].0 in LastInputs(values, n)
    ensures LastInputs(values, n)[values[i].0] == InputOf(values[i].1).value
  {
    if i < n - 1 {
      LastInputsAt(values, n - 1, i);
    }
  }

  /** The Hash of `uniq!`, seen through its keys, holds a key colliding with `v`. */
  predicate HasKey(keys: seq<Native>, v: Native) {
    exists k :: 0 <= k < |keys| && KeyEq(keys[k], v)
  }

  /** After the first `i` positions, the Hash holds a key colliding with `v` exactly when
      one of them does. */
  ghost predicate KeysSoFar(keys: seq<Native>, vs: seq<Native>, i: nat)
    requires i <= |vs|
  {
    forall v :: HasKey(keys, v) <==> exists j :: 0 <= j < i && KeyEq(vs[j], v)
  }

  /** One position of `uniq!`'s first loop: the Hash already holds its key exactly when it
      repeats an earlier one, and a new key is added. */
  lemma UniqueStep(keys: seq<Native>, vs: seq<Native>, i: nat)
    requires i < |vs| && KeysSoFar(keys, vs, i)
    ensures HasKey(keys, vs[i]) <==> RepeatAt(vs)(i)
    ensures HasKey(keys, vs[i]) ==> KeysSoFar(keys, vs, i + 1)
    ensures !HasKey(keys, vs[i]) ==> KeysSoFar(keys + [vs[i]], vs, i + 1)
  {
    var ks := keys + [vs[i]];
    forall v
      ensures HasKey(keys, vs[i]) ==> (HasKey(keys, v) <==> exists j :: 0 <= j < i + 1 && KeyEq(vs[j], v))
      ensures HasKey(ks, v) <==> HasKey(keys, v) || KeyEq(vs[i], v)
    {
      if HasKey(keys, vs[i]) && KeyEq(vs[i], v) {
        var k :| 0 <= k < |keys| && KeyEq(keys[k], vs[i]);
        KeyEqProperties(keys[k], vs[i], v);
      }
      if HasKey(ks, v) {
        var k :| 0 <= k < |ks| && KeyEq(ks[k], v);
        if k < |keys| {
          assert ks[k] == keys[k];
        }
      }
      if HasKey(keys, v) {
        var k :| 0 <= k < |keys| && KeyEq(keys[k], v);
        assert ks[k] == keys[k];
      }
      assert ks[|keys|] == vs[i];
    }
  }

  class Collection {
    const pin: Pin
    const property: string
    var values: seq<Native>

    /** `Collection.new(pin, property, *rest)`. */
    constructor (pin: Pin, property: string, rest: seq<Native>)
      ensures this.pin == pin && this.property == property && values == rest
    {
      this.pin := pin;
      this.property := property;
      values := rest;
    }

    /** The collection as the mutators see it: its values and `@pin.extras[@property]`. */
    function View(): Coll
      reads this, pin
    {
      Coll(values, if property in pin.extras then Some(pin.extras[property]) else None)
    }

    /** Everything of the PIN a mutator leaves alone: all but the property's Extras and
        the updates sent. */
    ghost function Rest(): (Option<PID>, seq<string>, map<string, Prop>, map<string, seq<Extra>>, bool)
      reads pin
    {
      (pin.pid, pin.order, pin.props, pin.extras - {property}, property in pin.extras)
    }

    /** `@pin._handlePINUpdate(PIN[SK_PID => @pin.pid, @property => [v, extra]])`. */
    method Emit(op: ElemOp)
      modifies pin
      ensures pin.outbox == old(pin.outbox) + [OpDoc(pin.pid, property, op)]
      ensures Rest() == old(Rest()) && pin.extras == old(pin.extras)
    {
      pin.HandleUpdate(OpDoc(pin.pid, property, op));
    }

    /** `delete_at(index)` (affinity.rb:209-223). */
    method DeleteAt(index: int) returns (ok: bool, v: Native)
      modifies this, pin
      ensures var r := DeleteAtF(old(View()), index);
        ok == r.ok && v == r.ret && View() == r.c && pin.outbox == old(pin.outbox) + OpDocs(pin.pid, property, r.ops)
      ensures Rest() == old(Rest())
    {
      if index < 0 {
        return false, Nil;
      }
      if property in pin.extras {
        var xs := pin.extras[property];
        if index >= |xs| {
          return false, Nil;
        }
        var eid := xs[index].eid;
        ExtrasElsewhere(pin.extras, property, RemoveAt(xs, index));
        pin.extras := pin.extras[property := RemoveAt(xs, index)];
        Emit(DeleteOp(eid));
      }
      var (rest, w) := RbArray.DeleteAt(values, index);
      values, v, ok := rest, w, true;
    }

    /** `delete_at` at each position of `idx` in turn, stopping where one raises; the
        deleted values in order. */
    method DeleteEach(idx: seq<int>) returns (ok: bool, deleted: seq<Native>)
      modifies this, pin
      ensures var r := DeleteAtAll(old(View()), idx);
        ok == r.ok && deleted == r.ret && View() == r.c && pin.outbox == old(pin.outbox) + OpDocs(pin.pid, property, r.ops)
      ensures Rest() == old(Rest())
    {
      ghost var whole := DeleteAtAll(View(), idx);
      ghost var sent: seq<ElemOp> := [];
      deleted := [];
      var k := 0;
      assert idx[0..] == idx;
      JoinedNothing(whole);
      while k < |idx|
        invariant 0 <= k <= |idx| && Rest() == old(Rest())
        invariant pin.outbox == old(pin.outbox) + OpDocs(pin.pid, property, sent)
        invariant whole == Joined(sent, deleted, DeleteAtAll(View(), idx[k..]))
      {
        ghost var before := View();
        DeleteEachStep(before, idx, k, sent, deleted);
        var d, v := DeleteAt(idx[k]);
        if !d {
          return false, deleted;
        }
        ghost var ops := DeleteAtF(before, idx[k]).ops;
        SentThen(old(pin.outbox), pin.pid, property, sent, ops);
        sent := sent + ops;
        deleted := deleted + [v];
        k := k + 1;
      }
      ok := true;
    }

    /** The downward scans of `uniq!` and `slice!` (affinity.rb:248-250, 268-272):
        `delete_at(i)` for each position `i` satisfying `P`, from the last position down
        to the first, stopping where one raises; the deleted values in that order. */
    method DeleteWhere(P: nat -> bool) returns (ok: bool, deleted: seq<Native>)
      modifies this, pin
      ensures var r := DeleteAtAll(old(View()), Positions(|old(values)|, P));
        ok == r.ok && deleted == r.ret && View() == r.c && pin.outbox == old(pin.outbox) + OpDocs(pin.pid, property, r.ops)
      ensures Rest() == old(Rest())
    {
      ghost var whole := DeleteAtAll(View(), Positions(|values|, P));
      ghost var sent: seq<ElemOp> := [];
      deleted := [];
      var i: nat := |values|;
      JoinedNothing(whole);
      while i > 0
        invariant Rest() == old(Rest())
        invariant pin.outbox == old(pin.outbox) + OpDocs(pin.pid, property, sent)
        invariant whole == Joined(sent, deleted, DeleteAtAll(View(), Positions(i, P)))
      {
        ghost var before := View();
        i := i - 1;
        if P(i) {
          var d, v := DeleteAt(i);
          if !d {
            DeleteWhereFails(whole, before, P, i, sent, deleted);
            return false, deleted;
          }
          ghost var ops := DeleteAtF(before, i).ops;
          DeleteWhereNext(whole, before, P, i, sent, deleted, View(), ops, v);
          SentThen(old(pin.outbox), pin.pid, property, sent, ops);
          sent := sent + ops;
          deleted := deleted + [v];
        } else {
          DeleteWhereSkips(whole, before, P, i, sent, deleted);
        }
      }
      assert sent + [] == sent && deleted + [] == deleted;
      ok := true;
    }

    /** The positions holding `x`, highest first: `delete`'s `toDelete` list (affinity.rb:198),
        which its second loop walks from the end. */
    method Matches(x: Native) returns (idx: seq<nat>)
      ensures idx == Positions(|values|, ValueAt(values, x))
    {
      idx := [];
      var i := 0;
      while i < |values|
        invariant 0 <= i <= |values| && idx == Positions(i, ValueAt(values, x))
      {
        PositionsNext(i, ValueAt(values, x));
        if RubyEq(values[i], x) {
          idx := [i] + idx;
        }
        i := i + 1;
      }
    }

    /** `delete(value)` (affinity.rb:196-207) without a block. */
    method Delete(value: Native) returns (ok: bool, r: Option<Native>)
      modifies this, pin
      ensures var f := DeleteValueF(old(View()), value);
        ok == f.ok && r == f.ret && View() == f.c && pin.outbox == old(pin.outbox) + OpDocs(pin.pid, property, f.ops)
      ensures Rest() == old(Rest())
    {
      var toDelete := Matches(value);
      r := if |toDelete| > 0 then Some(value) else None;
      var deleted;
      ok, deleted := DeleteEach(toDelete);
    }

    /** `uniq!` (affinity.rb:245-252): the first loop marks the first position of each
        value, the second deletes the others; `changed` is the source's flag. */
    method Uniq() returns (ok: bool, changed: bool)
      modifies this, pin
      ensures var f := UniqF(old(View()));
        ok == f.ok && (ok ==> changed == f.ret) && View() == f.c && pin.outbox == old(pin.outbox) + OpDocs(pin.pid, property, f.ops)
      ensures Rest() == old(Rest())
    {
      var firsts := FirstOccurrences();
      var repeat := (j: nat) => j !in firsts;
      PositionsAgree(|values|, repeat, RepeatAt(values));
      var deleted;
      ok, deleted := DeleteWhere(repeat);
      changed := |deleted| > 0;
    }

    /** The first loop of `uniq!` (affinity.rb:247): the position of the first occurrence
        of each value (`uniqueIdx`). */
    method FirstOccurrences() returns (firsts: set<nat>)
      ensures forall j: nat :: j in firsts <==> j < |values| && !RepeatAt(values)(j)
    {
      var unique: seq<Native> := [];
      firsts := {};
      var i := 0;
      while i < |values|
        invariant 0 <= i <= |values|
        invariant KeysSoFar(unique, values, i)
        invariant forall j: nat :: j in firsts <==> j < i && !RepeatAt(values)(j)
      {
        UniqueStep(unique, values, i);
        if !HasKey(unique, values[i]) {
          unique := unique + [values[i]];
          firsts := firsts + {i};
        }
        i := i + 1;
      }
    }

    /** `slice!(*rest)` (affinity.rb:254-274): no arguments raise. */
    method Slice(b: Bounds) returns (ok: bool, result: seq<Native>)
      modifies this, pin
      ensures SliceBounds(b).None? ==> !ok && View() == old(View()) && pin.outbox == old(pin.outbox)
      ensures SliceBounds(b).Some? ==> var f := SliceF(old(View()), SliceBounds(b).value.0, SliceBounds(b).value.1);
        ok == f.ok && result == f.ret && View() == f.c && pin.outbox == old(pin.outbox) + OpDocs(pin.pid, property, f.ops)
      ensures Rest() == old(Rest())
    {
      match SliceBounds(b)
      case None =>
        return false, [];
      case Some((from, to)) =>
        ok, result := DeleteWhere(Within(from, to));
    }

    /** `delete_if`/`reject!` (affinity.rb:225-233) as corrected: the positions whose value
        satisfies `P`, scanned downward. */
    method DeleteIf(P: Native -> bool) returns (ok: bool)
      modifies this, pin
      ensures var f := DeleteIfF(old(View()), P);
        ok == f.ok && View() == f.c && pin.outbox == old(pin.outbox) + OpDocs(pin.pid, property, f.ops)
      ensures Rest() == old(Rest())
    {
      var deleted;
      ok, deleted := DeleteWhere(SatisfiesAt(values, P));
    }

    /** `keep_if`/`select!` (affinity.rb:235-243) as corrected: `delete_if` of the values
        not satisfying `P`. */
    method KeepIf(P: Native -> bool) returns (ok: bool)
      modifies this, pin
      ensures var f := DeleteIfF(old(View()), v => !P(v));
        ok == f.ok && View() == f.c && pin.outbox == old(pin.outbox) + OpDocs(pin.pid, property, f.ops)
      ensures Rest() == old(Rest())
    {
      ok := DeleteIf(v => !P(v));
    }

    /** `insert(i, *rest)` (affinity.rb:133-156), with the anchoring of several values
        corrected: the `k`-th value goes to position `i + k`. */
    method Insert(i: int, rest: seq<Native>) returns (ok: bool)
      modifies this, pin
      ensures var f := InsertF(old(View()), i, rest);
        ok == f.ok && View() == f.c && pin.outbox == old(pin.outbox) + OpDocs(pin.pid, property, f.ops)
      ensures Rest() == old(Rest())
    {
      var p := InsertIndex(|values|, i);
      if rest != [] && property in pin.extras {
        if !(0 <= p <= |pin.extras[property]|) {
          return false;
        }
        AddPlaceholders(p, rest);
      }
      match RbArray.Insert(values, p, rest) {
        case None =>
          ok := false;
        case Some(vs) =>
          values, ok := vs, true;
      }
    }

    /** The loop of `insert` over the values (affinity.rb:137-153): one placeholder Extra
        and one update per value. */
    method AddPlaceholders(p: nat, rest: seq<Native>)
      requires property in pin.extras && p <= |pin.extras[property]|
      modifies pin
      ensures property in pin.extras && pin.extras[property] == InsertExtras(old(pin.extras[property]), p, |rest|)
      ensures pin.outbox == old(pin.outbox) + OpDocs(pin.pid, property, InsertOps(old(pin.extras[property]), p, rest))
      ensures Rest() == old(Rest())
    {
      ghost var xs := pin.extras[property];
      ghost var ops := InsertOps(xs, p, rest);
      assert InsertExtras(xs, p, 0) == xs && ops[..0] == [];
      var k := 0;
      while k < |rest|
        invariant 0 <= k <= |rest| && Rest() == old(Rest())
        invariant property in pin.extras && pin.extras[property] == InsertExtras(xs, p, k)
        invariant pin.outbox == old(pin.outbox) + OpDocs(pin.pid, property, ops[..k])
      {
        var cur := pin.extras[property];
        var q := p + k;
        InsertAdvance(xs, p, k, rest);
        var x := AddAnchor(cur, q);
        var grown := cur[..q] + [NewExtra()] + cur[q..];
        ExtrasElsewhere(pin.extras, property, grown);
        pin.extras := pin.extras[property := grown];
        Emit(ElemOp(rest[k], x));
        PrefixSnoc(ops, k);
        SentOne(old(pin.outbox), pin.pid, property, ops[..k], ops[k]);
        k := k + 1;
      }
      assert ops[..|rest|] == ops;
    }

    /** `push(*rest)` and `<<` (affinity.rb:157-158). */
    method Push(rest: seq<Native>) returns (ok: bool)
      modifies this, pin
      ensures var f := PushF(old(View()), rest);
        ok == f.ok && View() == f.c && pin.outbox == old(pin.outbox) + OpDocs(pin.pid, property, f.ops)
      ensures Rest() == old(Rest())
    {
      ok := Insert(-1, rest);
    }

    /** `concat(other)` (affinity.rb:159): `push` of each value. */
    method Concat(other: seq<Native>) returns (ok: bool)
      modifies this, pin
      ensures var f := ConcatF(old(View()), other);
        ok == f.ok && View() == f.c && pin.outbox == old(pin.outbox) + OpDocs(pin.pid, property, f.ops)
      ensures Rest() == old(Rest())
    {
      ghost var whole := ConcatF(View(), other);
      ghost var sent: seq<ElemOp> := [];
      assert other[0..] == other;
      AfterNothing(whole);
      var k := 0;
      while k < |other|
        invariant 0 <= k <= |other| && Rest() == old(Rest())
        invariant pin.outbox == old(pin.outbox) + OpDocs(pin.pid, property, sent)
        invariant whole == After(sent, ConcatF(View(), other[k..]))
      {
        var pushed;
        pushed, sent := ConcatOne(whole, other, k, sent, old(pin.outbox));
        if !pushed {
          return false;
        }
        k := k + 1;
      }
      assert sent + [] == sent;
      ok := true;
    }

    /** One element of `concat`: `push(other[k])`, the run `whole` of the entire `concat`
        having sent `sent` after `outbox0` before it. */
    method ConcatOne(ghost whole: Run<()>, other: seq<Native>, k: nat, ghost sent: seq<ElemOp>, ghost outbox0: seq<PinDoc>)
      returns (pushed: bool, ghost sent': seq<ElemOp>)
      requires k < |other| && whole == After(sent, ConcatF(View(), other[k..]))
      requires pin.outbox == outbox0 + OpDocs(pin.pid, property, sent)
      modifies this, pin
      ensures Rest() == old(Rest())
      ensures pin.outbox == outbox0 + OpDocs(pin.pid, property, sent')
      ensures pushed ==> whole == After(sent', ConcatF(View(), other[k + 1..]))
      ensures !pushed ==> !whole.ok && View() == whole.c && sent' == whole.ops
    {
      ghost var before := View();
      ConcatStep(before, other, k, sent);
      pushed := Push([other[k]]);
      ghost var ops := PushF(before, [other[k]]).ops;
      SentThen(outbox0, pin.pid, property, sent, ops);
      sent' := sent + ops;
    }

    /** `pop(*rest)` (affinity.rb:161-173). */
    method Pop(n: Option<int>) returns (ok: bool, popped: Popped)
      modifies this, pin
      ensures var f := PopF(old(View()), n);
        ok == f.ok && (ok ==> popped == f.ret) && View() == f.c && pin.outbox == old(pin.outbox) + OpDocs(pin.pid, property, f.ops)
      ensures Rest() == old(Rest())
    {
      var count := if n.Some? then n.value else 1;
      if count <= 0 {
        return false, Elems([]);
      }
      if property in pin.extras {
        if count > |pin.extras[property]| {
          return false, Elems([]);
        }
        DropLast(count);
      }
      if n.None? {
        if values == [] {
          popped := Elem(Nil);
        } else {
          popped := Elem(values[|values| - 1]);
          values := values[..|values| - 1];
        }
      } else {
        var (keep, out) := RbArray.PopN(values, count);
        values, popped := keep, Elems(out);
      }
      ok := true;
    }

    /** The `downto` loop of `pop` (affinity.rb:167-170): the last `count` Extras, last
        first, each with a delete carrying its id. */
    method DropLast(count: nat)
      requires property in pin.extras && count <= |pin.extras[property]|
      modifies pin
      ensures property in pin.extras
      ensures pin.extras[property] == old(pin.extras[property])[..|old(pin.extras[property])| - count]
      ensures pin.outbox == old(pin.outbox) +
        OpDocs(pin.pid, property, DeleteOps(old(pin.extras[property]), Tail(|old(pin.extras[property])|, count)))
      ensures Rest() == old(Rest())
    {
      ghost var xs := pin.extras[property];
      ghost var ops := DeleteOps(xs, Tail(|xs|, count));
      assert xs[..|xs| - 0] == xs && ops[..0] == [];
      var k := 0;
      while k < count
        invariant 0 <= k <= count && Rest() == old(Rest())
        invariant property in pin.extras && pin.extras[property] == xs[..|xs| - k]
        invariant pin.outbox == old(pin.outbox) + OpDocs(pin.pid, property, ops[..k])
      {
        var cur := pin.extras[property];
        PopStep(xs, count, k);
        var eid := cur[|cur| - 1].eid;
        ExtrasElsewhere(pin.extras, property, cur[..|cur| - 1]);
        pin.extras := pin.extras[property := cur[..|cur| - 1]];
        Emit(DeleteOp(eid));
        PrefixSnoc(ops, k);
        SentOne(old(pin.outbox), pin.pid, property, ops[..k], ops[k]);
        k := k + 1;
      }
      assert ops[..count] == ops;
    }

    /** `self[at] = v` (affinity.rb:175-178, 184-189) for an integer index. */
    method SetIndex(at: int, v: Native) returns (ok: bool)
      modifies this, pin
      ensures var f := SetIndexF(old(View()), at, v);
        ok == f.ok && View() == f.c && pin.outbox == old(pin.outbox) + OpDocs(pin.pid, property, f.ops)
      ensures Rest() == old(Rest())
    {
      if property !in pin.extras {
        return false;
      }
      var xs := pin.extras[property];
      var j := if at < 0 then at + |xs| else at;
      if !(0 <= j < |xs|) {
        return false;
      }
      Emit(SetOp(xs, j, v));
      match RbArray.SetAt(values, at, v) {
        case None =>
          ok := false;
        case Some(vs) =>
          values, ok := vs, true;
      }
    }

    /** `self[b..e] = v` and `self[start, len] = v` (affinity.rb:175-183): `delete_at`
        from `e` down to `b`, then `insert(b, v)`. */
    method SetRange(b: int, e: int, v: Native) returns (ok: bool)
      modifies this, pin
      ensures var f := SetRangeF(old(View()), b, e, v);
        ok == f.ok && View() == f.c && pin.outbox == old(pin.outbox) + OpDocs(pin.pid, property, f.ops)
      ensures Rest() == old(Rest())
    {
      ghost var c := View();
      var deleted;
      ok, deleted := DeleteEach(Countdown(e, b));
      if !ok {
        return;
      }
      ghost var d := DeleteAtAll(c, Countdown(e, b));
      ghost var box := pin.outbox;
      ok := Insert(b, [v]);
      SentThen(old(pin.outbox), pin.pid, property, d.ops, InsertF(d.c, b, [v]).ops);
    }

    /** `fill(v, *bounds)` and `fill(*bounds) { |i| ... }` (affinity.rb:276-303): `self[i] =`
        `gen(i)` for each position of the bounds, upward. */
    method Fill(b: Bounds, gen: int -> Native) returns (ok: bool)
      modifies this, pin
      ensures var f := FillF(old(View()), b, gen);
        ok == f.ok && View() == f.c && pin.outbox == old(pin.outbox) + OpDocs(pin.pid, property, f.ops)
      ensures Rest() == old(Rest())
    {
      var (from, to) := FillBounds(b, |values|);
      ghost var whole := SetFrom(View(), from, to, gen);
      ghost var sent: seq<ElemOp> := [];
      AfterNothing(whole);
      var i := from;
      while i <= to
        invariant Rest() == old(Rest())
        invariant pin.outbox == old(pin.outbox) + OpDocs(pin.pid, property, sent)
        invariant whole == After(sent, SetFrom(View(), i, to, gen))
        decreases if i <= to then to - i + 1 else 0
      {
        ghost var before := View();
        SetFromStep(before, i, to, gen, sent);
        var stored := SetIndex(i, gen(i));
        ghost var ops := SetIndexF(before, i, gen(i)).ops;
        SentThen(old(pin.outbox), pin.pid, property, sent, ops);
        sent := sent + ops;
        if !stored {
          return false;
        }
        i := i + 1;
      }
      assert sent + [] == sent;
      ok := true;
    }

    /** `collect!`/`map!` (affinity.rb:311-315): `self[i] = f(self[i])` for each index. */
    method Collect(f: Native -> Native) returns (ok: bool)
      modifies this, pin
      ensures var r := CollectFrom(old(View()), 0, f);
        ok == r.ok && View() == r.c && pin.outbox == old(pin.outbox) + OpDocs(pin.pid, property, r.ops)
      ensures Rest() == old(Rest())
    {
      ghost var whole := CollectFrom(View(), 0, f);
      ghost var sent: seq<ElemOp> := [];
      AfterNothing(whole);
      var i := 0;
      while i < |values|
        invariant Rest() == old(Rest())
        invariant pin.outbox == old(pin.outbox) + OpDocs(pin.pid, property, sent)
        invariant whole == After(sent, CollectFrom(View(), i, f))
        decreases |values| - i
      {
        ghost var before := View();
        CollectStep(before, i, f, sent);
        var stored := SetIndex(i, f(values[i]));
        ghost var ops := SetIndexF(before, i, f(before.vs[i])).ops;
        SentThen(old(pin.outbox), pin.pid, property, sent, ops);
        sent := sent + ops;
        if !stored {
          return false;
        }
        i := i + 1;
      }
      assert sent + [] == sent;
      ok := true;
    }

    /** One step of `unshift`: `insert(0, v)`. */
    method Prepend(v: Native) returns (ok: bool)
      modifies this, pin
      ensures var f := PrependF(old(View()), v);
        ok == f.ok && View() == f.c && pin.outbox == old(pin.outbox) + OpDocs(pin.pid, property, f.ops)
      ensures Rest() == old(Rest())
    {
      PrependIsInsert(View(), v);
      ok := Insert(0, [v]);
    }

    /** `unshift(*rest)` (affinity.rb:305-309): `insert(0, v)` for each value, last first. */
    method Unshift(rest: seq<Native>)
      modifies this, pin
      ensures var f := UnshiftFrom(old(View()), rest, |rest|);
        View() == f.c && pin.outbox == old(pin.outbox) + OpDocs(pin.pid, property, f.ops)
      ensures Rest() == old(Rest())
    {
      ghost var whole := UnshiftFrom(View(), rest, |rest|);
      ghost var sent: seq<ElemOp> := [];
      AfterNothing(whole);
      var i: nat := |rest|;
      while i > 0
        invariant 0 <= i <= |rest| && Rest() == old(Rest())
        invariant pin.outbox == old(pin.outbox) + OpDocs(pin.pid, property, sent)
        invariant whole == After(sent, UnshiftFrom(View(), rest, i))
      {
        ghost var before := View();
        ghost var ops := PrependF(before, rest[i - 1]).ops;
        var _ := Prepend(rest[i - 1]);
        UnshiftNext(whole, before, rest, i, sent, View(), ops);
        SentThen(old(pin.outbox), pin.pid, property, sent, ops);
        sent := sent + ops;
        i := i - 1;
      }
      assert sent + [] == sent;
    }

    /** `clear` (affinity.rb:191-194): deletes the property from the PIN (which sends a
        delete when the PIN has a pid), then empties the values. The collection is no
        longer held by the PIN afterwards. */
    method Clear()
      requires pin.Valid()
      modifies this, pin
      ensures pin.Valid() && values == []
      ensures pin.pid == old(pin.pid) && pin.order == Drop(old(pin.order), property)
      ensures pin.props == old(pin.props) - {property} && pin.extras == old(pin.extras) - {property}
      ensures pin.outbox == old(pin.outbox) + (if pin.pid.Some? then [DeleteDoc(pin.pid, property)] else [])
    {
      var _ := pin.Delete(property);
      values := [];
    }

    /** `replace(other)` (affinity.rb:320): `clear`, then `concat(other)`. As `clear`
        detached the property, the pushes that follow send nothing. */
    method Replace(other: seq<Native>)
      requires pin.Valid()
      modifies this, pin
      ensures pin.Valid() && values == other
      ensures pin.pid == old(pin.pid) && pin.order == Drop(old(pin.order), property)
      ensures pin.props == old(pin.props) - {property} && pin.extras == old(pin.extras) - {property}
      ensures pin.outbox == old(pin.outbox) + (if pin.pid.Some? then [DeleteDoc(pin.pid, property)] else [])
    {
      Clear();
      ghost var cleared := pin.extras;
      ConcatUntracked(View(), other);
      var _ := Concat(other);
      assert OpDocs(pin.pid, property, []) == [];
      SameWithout(pin.extras, cleared, property);
    }

    /** `_shuffle_begin` (affinity.rb:366-369): each value with the element id of its
        Extra and its position; `None` where the source raises, that is for a non-empty
        collection whose Extras are missing or shorter than its values. */
    function ShuffleBegin(): (r: Option<seq<Slot>>)
      reads this, pin
      ensures r.Some? <==> values == [] || (property in pin.extras && |values| <= |pin.extras[property]|)
      ensures r.Some? ==> |r.value| == |values|
      ensures r.Some? ==> forall k :: 0 <= k < |values| ==> r.value[k] == Slot(values[k], pin.extras[property][k].eid, k)
    {
      if values == [] then Some([])
      else if property in pin.extras && |values| <= |pin.extras[property]| then Some(Begin(values, pin.extras[property]))
      else None
    }

    /** `_shuffle_end(processed)` (affinity.rb:370-392), for `processed` a rearrangement
        of what `_shuffle_begin` returned: re-syncs the Extras with one move per element
        not already in place, then stores the values in the new order. */
    method ShuffleEnd(target: seq<Slot>)
      requires (values == [] && target == []) ||
        (property in pin.extras && |values| <= |pin.extras[property]| && IsReordering(values, pin.extras[property], target))
      modifies this, pin
      ensures old(View()).xs.Some? ==> var r := Resync(old(View()).xs.value, target, 0, EID_FIRST_ELEMENT);
        View() == Coll(SlotValues(target), Some(r.0)) && pin.outbox == old(pin.outbox) + OpDocs(pin.pid, property, r.1)
      ensures old(View()).xs.None? ==> View() == old(View()) && pin.outbox == old(pin.outbox)
      ensures Rest() == old(Rest())
    {
      if property in pin.extras {
        ResyncExtras(target);
      }
      StoreOrder(target);
    }

    /** The first loop of `_shuffle_end`, with the re-sync corrected (see Findings). */
    method ResyncExtras(target: seq<Slot>)
      requires property in pin.extras && |target| <= |pin.extras[property]|
      modifies pin
      ensures var r := Resync(old(pin.extras[property]), target, 0, EID_FIRST_ELEMENT);
        property in pin.extras && pin.extras[property] == r.0 && pin.outbox == old(pin.outbox) + OpDocs(pin.pid, property, r.1)
      ensures Rest() == old(Rest())
    {
      ghost var whole := Resync(pin.extras[property], target, 0, EID_FIRST_ELEMENT);
      ghost var sent: seq<ElemOp> := [];
      var n := |target|;
      var prev := EID_FIRST_ELEMENT;
      var i := 0;
      assert [] + whole.1 == whole.1;
      while i < n
        invariant 0 <= i <= n && property in pin.extras && n <= |pin.extras[property]| && Rest() == old(Rest())
        invariant pin.outbox == old(pin.outbox) + OpDocs(pin.pid, property, sent)
        invariant var t := Resync(pin.extras[property], target, i, prev); whole == (t.0, sent + t.1)
      {
        var xs := pin.extras[property];
        var e := target[i].eid;
        ResyncAdvance(whole, xs, target, i, prev, sent);
        if xs[i].eid != e {
          match FirstFrom(xs, i, n, e) {
            case Some(j) =>
              PlaceFound(xs, i, n, e, j);
              var moved := RemoveAt(xs, j)[..i] + [xs[j]] + RemoveAt(xs, j)[i..];
              ExtrasElsewhere(pin.extras, property, moved);
              pin.extras := pin.extras[property := moved];
            case None =>
          }
          Emit(MoveOp(prev, e));
          SentOne(old(pin.outbox), pin.pid, property, sent, MoveOp(prev, e));
          sent := sent + [MoveOp(prev, e)];
        }
        prev := e;
        i := i + 1;
      }
      assert sent + [] == sent;
    }

    /** The second loop of `_shuffle_end`: the values, position by position, in the
        target order. */
    method StoreOrder(target: seq<Slot>)
      requires |target| == |values|
      modifies this
      ensures values == SlotValues(target)
    {
      var k := 0;
      while k < |target|
        invariant 0 <= k <= |target| && |values| == |target|
        invariant forall j :: 0 <= j < k ==> values[j] == target[j].v
      {
        values := values[k := target[k].v];
        k := k + 1;
      }
    }
  }
}
