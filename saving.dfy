// What `PIN._savePINsi` sends for a list of PINs (affinity.rb:843-954) and what
// `PIN.savePINs` takes back from the store's answer (affinity.rb:686-717), as functions
// on PIN values: the allocation of property ids, the message for one PIN with its
// insert-or-update choice and return type, and the back-fill of pids and element ids.

module Saving {
  import opened Common
  import opened Wire
  import opened Ids
  import opened Marshal
  import opened Pins

  // ------------------------------------------------------------ property ids

  /** `prepid` of `_preparePBPropIDs` (affinity.rb:886-894): a name the dictionary lacks
      gets the next id above `spMax` (SP_MAX, the last id the store reserves). */
  function Register(d: map<string, nat>, spMax: nat, name: string): (r: map<string, nat>)
    ensures name in r && forall n :: n in d ==> n in r && r[n] == d[n]
    ensures name !in d ==> r == d[name := spMax + 1 + |d|]
    ensures name in d ==> r == d
  {
    if name in d then d else d[name := spMax + 1 + |d|]
  }

  /** `prepid` for each name in turn. */
  function RegisterAll(d: map<string, nat>, spMax: nat, names: seq<string>): (r: map<string, nat>)
    ensures names != [] ==> names[|names| - 1] in r
    decreases |names|
  {
    if names == [] then d
    else Register(RegisterAll(d, spMax, names[..|names| - 1]), spMax, names[|names| - 1])
  }

  /** The StringMap entries those calls push to the stream, in order. */
  function Announced(d: map<string, nat>, spMax: nat, names: seq<string>): (r: seq<(string, nat)>)
    ensures |r| <= |names|
    decreases |names|
  {
    if names == [] then []
    else
      var before := RegisterAll(d, spMax, names[..|names| - 1]);
      var n := names[|names| - 1];
      Announced(d, spMax, names[..|names| - 1]) + (if n in before then [] else [(n, spMax + 1 + |before|)])
  }

  /** The shape of every dictionary the allocation builds from an empty one: distinct ids,
      all above `spMax` and none beyond the dictionary's size. */
  ghost predicate Allocated(d: map<string, nat>, spMax: nat) {
    (forall n :: n in d ==> spMax < d[n] <= spMax + |d|) &&
    (forall n, m :: n in d && m in d && n != m ==> d[n] != d[m])
  }

  lemma RegisterAllocates(d: map<string, nat>, spMax: nat, name: string)
    requires Allocated(d, spMax)
    ensures Allocated(Register(d, spMax, name), spMax)
    ensures |Register(d, spMax, name)| == |d| + (if name in d then 0 else 1)
  {
    if name !in d {
      var id := spMax + 1 + |d|;
      var r := d[name := id];
      assert |r| == |d| + 1;
      forall n, m | n in r && m in r && n != m ensures r[n] != r[m] {
        if n != name && m != name {
          assert r[n] == d[n] && r[m] == d[m];
        }
      }
    }
  }

  lemma {:induction false} RegisterAllKeeps(d: map<string, nat>, spMax: nat, names: seq<string>)
    ensures var r := RegisterAll(d, spMax, names);
      (forall n :: n in d ==> n in r && r[n] == d[n]) &&
      (forall n :: n in r <==> n in d || n in names)
    decreases |names|
  {
    if names != [] {
      var init := names[..|names| - 1];
      var n := names[|names| - 1];
      assert names == init + [n];
      RegisterAllKeeps(d, spMax, init);
    }
  }

  lemma {:induction false} RegisterAllAllocates(d: map<string, nat>, spMax: nat, names: seq<string>)
    requires Allocated(d, spMax)
    ensures Allocated(RegisterAll(d, spMax, names), spMax)
    ensures |RegisterAll(d, spMax, names)| == |d| + |Announced(d, spMax, names)|
    decreases |names|
  {
    if names != [] {
      var init := names[..|names| - 1];
      RegisterAllAllocates(d, spMax, init);
      RegisterAllocates(RegisterAll(d, spMax, init), spMax, names[|names| - 1]);
    }
  }

  lemma {:induction false} AnnouncedAdds(d: map<string, nat>, spMax: nat, names: seq<string>)
    ensures var r := RegisterAll(d, spMax, names);
      forall k :: 0 <= k < |Announced(d, spMax, names)| ==>
        var (n, id) := Announced(d, spMax, names)[k]; n !in d && n in r && r[n] == id
    decreases |names|
  {
    if names != [] {
      var init := names[..|names| - 1];
      var n := names[|names| - 1];
      AnnouncedAdds(d, spMax, init);
      RegisterAllKeeps(d, spMax, init);
      var before := RegisterAll(d, spMax, init);
      var a := Announced(d, spMax, init);
      assert Announced(d, spMax, names) == a + (if n in before then [] else [(n, spMax + 1 + |before|)]);
    }
  }

  /** The allocation keeps every existing entry, registers every name, keeps ids
      distinct and above `spMax`, and announces exactly the entries it adds. */
  lemma RegisterAllSpec(d: map<string, nat>, spMax: nat, names: seq<string>)
    requires Allocated(d, spMax)
    ensures var r := RegisterAll(d, spMax, names);
      Allocated(r, spMax) &&
      (forall n :: n in d ==> n in r && r[n] == d[n]) &&
      (forall n :: n in r <==> n in d || n in names) &&
      |r| == |d| + |Announced(d, spMax, names)| &&
      (forall k :: 0 <= k < |Announced(d, spMax, names)| ==>
        var (n, id) := Announced(d, spMax, names)[k]; n !in d && n in r && r[n] == id)
  {
    RegisterAllKeeps(d, spMax, names);
    RegisterAllAllocates(d, spMax, names);
    AnnouncedAdds(d, spMax, names);
  }

  /** Registering names already known changes nothing and announces nothing. */
  lemma {:induction false} RegisterKnown(d: map<string, nat>, spMax: nat, names: seq<string>)
    requires forall k :: 0 <= k < |names| ==> names[k] in d
    ensures RegisterAll(d, spMax, names) == d && Announced(d, spMax, names) == []
    decreases |names|
  {
    if names != [] {
      RegisterKnown(d, spMax, names[..|names| - 1]);
    }
  }

  /** The property name a value refers to, if it is a reference to a property. */
  function RefName(v: Native): (r: seq<string>)
    ensures r != [] <==> v.RefV? && v.r.property.Some?
    ensures r != [] ==> r == [v.r.property.value]
  {
    if v.RefV? && v.r.property.Some? then [v.r.property.value] else []
  }

  function RefNames(vs: seq<Native>): (r: seq<string>)
    ensures forall n :: n in r <==> exists k :: 0 <= k < |vs| && vs[k].RefV? && vs[k].r.property == Some(n)
    decreases |vs|
  {
    if vs == [] then []
    else
      assert forall k :: 1 <= k < |vs| ==> vs[k] == vs[1..][k - 1];
      RefName(vs[0]) + RefNames(vs[1..])
  }

  function HeldRefNames(h: Held): seq<string> {
    match h case One(v) => RefName(v) case Many(vs) => RefNames(vs)
  }

  function Keys(es: seq<Entry>): (r: seq<string>)
    ensures |r| == |es| && forall k :: 0 <= k < |es| ==> r[k] == es[k].key
  {
    seq(|es|, k requires 0 <= k < |es| => es[k].key)
  }

  function EntryRefNames(es: seq<Entry>): seq<string>
    decreases |es|
  {
    if es == [] then [] else HeldRefNames(es[0].held) + EntryRefNames(es[1..])
  }

  /** The names `_preparePBPropIDs` visits (affinity.rb:903-915): every key of the PIN,
      then the property of every reference among its values. */
  function PropNames(doc: PinDoc): seq<string> {
    Keys(doc.entries) + EntryRefNames(doc.entries)
  }

  /** Every key of a PIN ends up in the dictionary. */
  lemma KeysRegistered(d: map<string, nat>, spMax: nat, doc: PinDoc)
    requires Allocated(d, spMax)
    ensures forall k :: 0 <= k < |doc.entries| ==> doc.entries[k].key in RegisterAll(d, spMax, PropNames(doc))
  {
    RegisterAllSpec(d, spMax, PropNames(doc));
    forall k | 0 <= k < |doc.entries| ensures doc.entries[k].key in PropNames(doc) {
      assert PropNames(doc)[k] == doc.entries[k].key;
    }
  }

  // -------------------------------------------------------------- messages

  /** AfyStream::MODOP as far as PINs go: OP_INSERT or OP_UPDATE. */
  datatype PinOp = OpInsertPin | OpUpdatePin

  /** The return type asked for each PIN. */
  datatype Rtt = RtPins | RtPids

  /** One AfyStream::PIN of the outgoing stream. */
  datatype PinMsg = PinMsg(op: PinOp, id: Option<PID>, values: seq<PBValue>, rtt: Rtt, nValues: nat)

  /** `prep` of `_preparePBValues` (affinity.rb:920-938): the value's wire record, its
      adornments from the Extra; a property id the Extra does not carry comes from the
      dictionary. A name the dictionary lacks, or an integer its field cannot hold, gives
      none, where the source fails. */
  function PrepValue(name: string, x: Extra, v: Native, d: map<string, nat>): (r: Option<PBValue>)
    ensures r.Some? ==> r.value.op == x.op && r.value.eid == x.eid && r.value.meta == x.meta
    ensures r.Some? ==> r.value.vtype == TagFor(x.vtype, v)
    ensures (x.propID.None? || x.propID == Some(0)) ==> (r.Some? <==> name in d && Encodable(x.vtype, v))
    ensures (x.propID.None? || x.propID == Some(0)) && r.Some? ==> r.value.property == d[name]
    ensures x.propID.Some? && x.propID.value != 0 ==>
              (r.Some? <==> Encodable(x.vtype, v)) && (r.Some? ==> r.value.property == x.propID.value)
  {
    var pb0 := EmptyPB().(property := if x.propID.Some? then x.propID.value else 0,
                          vtype := x.vtype, op := x.op, eid := x.eid, meta := x.meta);
    match ValueToPB(pb0, v, d)
    case None => None
    case Some(pb) =>
      if pb.property != 0 then Some(pb)
      else if name in d then Some(pb.(property := d[name]))
      else None
  }

  /** `prep` for each element of a collection with its own Extra; a missing Extra is
      where the source fails. */
  function ElemValues(name: string, xs: seq<Extra>, vs: seq<Native>, d: map<string, nat>): (r: Option<seq<PBValue>>)
    ensures |vs| > |xs| ==> r.None?
    ensures r.Some? ==> |r.value| == |vs|
    ensures r.Some? ==> forall k :: 0 <= k < |vs| ==> PrepValue(name, xs[k], vs[k], d) == Some(r.value[k])
    decreases |vs|
  {
    if vs == [] then Some([])
    else if |vs| > |xs| then None
    else
      match (PrepValue(name, xs[0], vs[0], d), ElemValues(name, xs[1..], vs[1..], d))
      case (Some(pb), Some(rest)) => Some([pb] + rest)
      case _ => None
  }

  /** The values one property contributes: one per element, or one for a scalar. */
  function EntryValues(e: Entry, d: map<string, nat>): (r: Option<seq<PBValue>>)
    ensures e.held.One? ==> (r.Some? ==> |r.value| == 1) && (e.xs == [] ==> r.None?)
    ensures e.held.Many? ==> (r.Some? ==> |r.value| == |e.held.vs|)
  {
    match e.held
    case One(v) =>
      if e.xs == [] then None
      else (match PrepValue(e.key, e.xs[0], v, d) case Some(pb) => Some([pb]) case None => None)
    case Many(vs) => ElemValues(e.key, e.xs, vs, d)
  }

  /** `_preparePBValues` (affinity.rb:918-954): the values of every property, in order. */
  function DocValues(es: seq<Entry>, d: map<string, nat>): (r: Option<seq<PBValue>>)
    decreases |es|
  {
    if es == [] then Some([])
    else
      match (EntryValues(es[0], d), DocValues(es[1..], d))
      case (Some(a), Some(b)) => Some(a + b)
      case _ => None
  }

  /** The values of a PIN can be prepared exactly when those of each property can. */
  lemma {:induction false} DocValuesBuilds(es: seq<Entry>, d: map<string, nat>)
    ensures DocValues(es, d).Some? <==> forall k :: 0 <= k < |es| ==> EntryValues(es[k], d).Some?
    decreases |es|
  {
    if es != [] {
      DocValuesBuilds(es[1..], d);
      assert forall k :: 1 <= k < |es| ==> es[1..][k - 1] == es[k];
    }
  }

  /** `_insertsCollectionElements` (affinity.rb:843-850): some value adds an element. */
  function InsertsElements(vals: seq<PBValue>): (r: bool)
    ensures r <==> exists k :: 0 <= k < |vals| && vals[k].op in {OpAdd, OpAddBefore}
    decreases |vals|
  {
    if vals == [] then false
    else if vals[0].op == OpAdd || vals[0].op == OpAddBefore then true
    else
      assert forall k :: 1 <= k < |vals| ==> vals[k] == vals[1..][k - 1];
      InsertsElements(vals[1..])
  }

  /** The AfyStream::PIN `_savePINsi` builds for one PIN (affinity.rb:863-876): an update
      of its pid when it has one, an insert otherwise; whole PINs are asked back when an
      element is added, pids only otherwise. */
  function PinMessage(doc: PinDoc, d: map<string, nat>): (r: Option<PinMsg>)
    ensures r.Some? ==> (r.value.op == OpUpdatePin <==> doc.pid.Some?) && r.value.id == doc.pid
    ensures r.Some? ==> r.value.nValues == |r.value.values|
  {
    match DocValues(doc.entries, d)
    case None => None
    case Some(vals) =>
      Some(PinMsg(if doc.pid.Some? then OpUpdatePin else OpInsertPin, doc.pid, vals,
                  if InsertsElements(vals) then RtPins else RtPids, |vals|))
  }

  /** Insert or update, and the return type, as `_savePINsi` chooses them. */
  lemma PinMessageChoice(doc: PinDoc, d: map<string, nat>)
    requires PinMessage(doc, d).Some?
    ensures var m := PinMessage(doc, d).value;
      (m.op == OpUpdatePin <==> doc.pid.Some?) && m.id == doc.pid && m.nValues == |m.values| &&
      (m.rtt == RtPins <==> exists k :: 0 <= k < |m.values| && (m.values[k].op == OpAdd || m.values[k].op == OpAddBefore))
  {
  }

  /** The update PIN of a collection insert asks for whole PINs back (to learn the new
      element id); that of a delete asks only for pids. It fails only on an integer the
      field of its tag cannot hold. */
  lemma OpDocReturnType(pid: Option<PID>, key: string, v: Native, x: Extra, d: map<string, nat>)
    requires key in d
    ensures var m := PinMessage(UpdateDoc(pid, key, Pair(v, x)), d);
      (m.Some? <==> Encodable(x.vtype, v)) &&
      (m.Some? ==> m.value.values[0].eid == x.eid &&
                   (m.value.rtt == RtPins <==> x.op == OpAdd || x.op == OpAddBefore))
  {
    var e := Entry(key, One(v), [x]);
    assert UpdateDoc(pid, key, Pair(v, x)).entries == [e];
    var pb := PrepValue(key, x, v, d);
    if pb.None? {
      assert EntryValues(e, d).None?;
      return;
    }
    assert EntryValues(e, d) == Some([pb.value]);
    assert DocValues([e][1..], d) == Some([]);
    assert DocValues([e], d) == Some([pb.value] + []);
  }

  /** The messages of every PIN, or none when one of them fails. */
  function PinMessages(docs: seq<PinDoc>, d: map<string, nat>): (r: Option<seq<PinMsg>>)
    ensures r.Some? <==> forall k :: 0 <= k < |docs| ==> PinMessage(docs[k], d).Some?
    ensures r.Some? ==> |r.value| == |docs| && forall k :: 0 <= k < |docs| ==> r.value[k] == PinMessage(docs[k], d).value
    decreases |docs|
  {
    if docs == [] then Some([])
    else
      match (PinMessages(docs[..|docs| - 1], d), PinMessage(docs[|docs| - 1], d))
      case (Some(a), Some(m)) => Some(a + [m])
      case _ => None
  }

  /** One name of the registration loop, as the loop carries it: the dictionary `d` and
      the entries `props` pushed so far advance by one name. */
  lemma RegisterNext(d0: map<string, nat>, spMax: nat, names: seq<string>, k: nat,
                     d: map<string, nat>, p0: seq<(string, nat)>, props: seq<(string, nat)>)
    requires k < |names|
    requires d == RegisterAll(d0, spMax, names[..k]) && props == p0 + Announced(d0, spMax, names[..k])
    ensures var n := names[k];
      var d' := if n in d then d else d[n := spMax + 1 + |d|];
      var props' := if n in d then props else props + [(n, spMax + 1 + |d|)];
      d' == RegisterAll(d0, spMax, names[..k + 1]) && props' == p0 + Announced(d0, spMax, names[..k + 1])
  {
    var pre := names[..k + 1];
    assert pre[..k] == names[..k] && pre[k] == names[k];
    AnnouncedLast(d0, spMax, pre);
    if names[k] in d {
      KnownNameStep(d0, spMax, pre, d, p0, props);
    } else {
      FreshNameStep(d0, spMax, pre, d, p0, props);
    }
  }

  /** The last of `names` already has an id: nothing changes. */
  lemma KnownNameStep(d0: map<string, nat>, spMax: nat, names: seq<string>,
                      d: map<string, nat>, p0: seq<(string, nat)>, props: seq<(string, nat)>)
    requires names != [] && names[|names| - 1] in d
    requires d == RegisterAll(d0, spMax, names[..|names| - 1])
    requires props == p0 + Announced(d0, spMax, names[..|names| - 1])
    requires Announced(d0, spMax, names) == Announced(d0, spMax, names[..|names| - 1]) + []
    ensures d == RegisterAll(d0, spMax, names) && props == p0 + Announced(d0, spMax, names)
  {
    assert Announced(d0, spMax, names[..|names| - 1]) + [] == Announced(d0, spMax, names[..|names| - 1]);
  }

  /** The last of `names` is new: it gets the next id, which is pushed. */
  lemma FreshNameStep(d0: map<string, nat>, spMax: nat, names: seq<string>,
                      d: map<string, nat>, p0: seq<(string, nat)>, props: seq<(string, nat)>)
    requires names != [] && names[|names| - 1] !in d
    requires d == RegisterAll(d0, spMax, names[..|names| - 1])
    requires props == p0 + Announced(d0, spMax, names[..|names| - 1])
    requires Announced(d0, spMax, names) ==
      Announced(d0, spMax, names[..|names| - 1]) + [(names[|names| - 1], spMax + 1 + |d|)]
    ensures var n := names[|names| - 1];
      d[n := spMax + 1 + |d|] == RegisterAll(d0, spMax, names) &&
      props + [(n, spMax + 1 + |d|)] == p0 + Announced(d0, spMax, names)
  {
    var e := (names[|names| - 1], spMax + 1 + |d|);
    assert p0 + Announced(d0, spMax, names[..|names| - 1]) + [e] == p0 + (Announced(d0, spMax, names[..|names| - 1]) + [e]);
  }

  /** The `prepid` calls for a list of names, one after the other: the dictionary they
      leave and the StringMap entries they push. */
  method PrepareIds(d0: map<string, nat>, spMax: nat, names: seq<string>) returns (d: map<string, nat>, ann: seq<(string, nat)>)
    ensures d == RegisterAll(d0, spMax, names) && ann == Announced(d0, spMax, names)
  {
    d := d0;
    ann := [];
    var k := 0;
    while k < |names|
      invariant k <= |names|
      invariant d == RegisterAll(d0, spMax, names[..k])
      invariant ann == [] + Announced(d0, spMax, names[..k])
    {
      var name := names[k];
      RegisterNext(d0, spMax, names, k, d, [], ann);
      if name !in d {
        var id: nat := spMax + 1 + |d|;
        ann := ann + [(name, id)];
        d := d[name := id];
      }
      k := k + 1;
    }
    assert names[..k] == names;
  }

  /** The serialization loop of `_savePINsi` (affinity.rb:863-877): one message per PIN,
      in order, stopping at the first PIN whose values cannot be prepared. */
  method BuildMessages(docs: seq<PinDoc>, d: map<string, nat>) returns (msgs: seq<PinMsg>, ok: bool)
    ensures ok <==> PinMessages(docs, d).Some?
    ensures ok ==> msgs == PinMessages(docs, d).value
    ensures !ok ==> |msgs| < |docs| && PinMessage(docs[|msgs|], d).None?
    ensures !ok ==> forall k :: 0 <= k < |msgs| ==> PinMessage(docs[k], d) == Some(msgs[k])
  {
    msgs := [];
    var i := 0;
    while i < |docs|
      invariant i <= |docs| && |msgs| == i
      invariant forall k :: 0 <= k < i ==> PinMessage(docs[k], d) == Some(msgs[k])
    {
      var m := PinMessage(docs[i], d);
      if m.None? {
        return msgs, false;
      }
      msgs := msgs + [m.value];
      i := i + 1;
    }
    assert msgs == PinMessages(docs, d).value;
    ok := true;
  }

  /** The names `_savePINsi` registers for its PINs, in order. */
  function AllPropNames(docs: seq<PinDoc>): seq<string>
    decreases |docs|
  {
    if docs == [] then [] else AllPropNames(docs[..|docs| - 1]) + PropNames(docs[|docs| - 1])
  }

  lemma AnnouncedLast(d: map<string, nat>, spMax: nat, names: seq<string>)
    requires names != []
    ensures var before := RegisterAll(d, spMax, names[..|names| - 1]);
      var n := names[|names| - 1];
      Announced(d, spMax, names) ==
        Announced(d, spMax, names[..|names| - 1]) + (if n in before then [] else [(n, spMax + 1 + |before|)])
  {
    assert |names| > 0;
  }

  // --------------------------------------------------------------- back-fill

  /** One value of a PIN in the store's answer: property id, type, element id, and for
      VT_ARRAY the element ids of its elements. */
  datatype OutValue = OutValue(property: nat, vtype: VType, eid: nat, elems: seq<nat>)

  /** One PIN of the answer. */
  datatype OutPin = OutPin(id: WirePid, values: seq<OutValue>)

  /** The parsed answer to a save, with the id-to-name table its read context builds. */
  datatype Output = Output(pins: seq<OutPin>, names: map<nat, string>)

  /** The pid back-fill (affinity.rb:694-698): a PIN without a pid takes the one
      returned; one with a pid must get back the same local id, or the source raises. */
  function FillPid(pid: Option<PID>, id: WirePid): (r: Option<PID>)
    ensures pid.None? ==> r == Some(PID(id.id, id.ident))
    ensures pid.Some? ==> (r.Some? <==> pid.value.localPID == id.id) && (r.Some? ==> r == pid)
  {
    if pid.None? then Some(PID(id.id, id.ident))
    else if pid.value.localPID == id.id then pid
    else None
  }

  /** The element-id back-fill of one collection (affinity.rb:703-709): each element the
      answer covers whose Extra still holds a reserved id takes the id the store gave it;
      an answer longer than the Extras is where the source fails. */
  function FillEids(xs: seq<Extra>, elems: seq<nat>, k: nat): (r: Option<seq<Extra>>)
    requires k <= |elems|
    ensures r.Some? ==> |r.value| == |xs|
    decreases |elems| - k
  {
    if k == |elems| then Some(xs)
    else if k >= |xs| then None
    else FillEids(if IsSentinel(xs[k].eid) then xs[k := xs[k].(eid := elems[k])] else xs, elems, k + 1)
  }

  /** The scalar back-fill (affinity.rb:710-712): the only Extra takes the returned
      element id when it is an add. */
  function FillScalar(xs: seq<Extra>, eid: nat): (r: Option<seq<Extra>>)
    ensures r.Some? <==> xs != []
    ensures r.Some? ==> |r.value| == |xs| && r.value[1..] == xs[1..]
    ensures r.Some? && xs[0].op in {OpAdd, OpAddBefore} ==> r.value[0] == xs[0].(eid := eid)
    ensures r.Some? && xs[0].op !in {OpAdd, OpAddBefore} ==> r.value == xs
  {
    if xs == [] then None
    else if xs[0].op == OpAdd || xs[0].op == OpAddBefore then Some(xs[0 := xs[0].(eid := eid)])
    else Some(xs)
  }

  /** The back-fill of one value of the answer into the PIN's Extras (affinity.rb:700-716):
      the property is found through the answer's id-to-name table; a VT_ARRAY value
      without elements touches nothing, and otherwise an unknown property is where the
      source fails. */
  function FillValue(extras: map<string, seq<Extra>>, names: map<nat, string>, v: OutValue): (r: Option<map<string, seq<Extra>>>)
    ensures r.Some? ==> r.value.Keys == extras.Keys
    ensures v.vtype == VtArray && v.elems == [] ==> r == Some(extras)
    ensures r.Some? ==> forall n :: n in extras && (v.property !in names || n != names[v.property]) ==> r.value[n] == extras[n]
  {
    if v.vtype == VtArray && v.elems == [] then Some(extras)
    else if v.property !in names || names[v.property] !in extras then None
    else
      var n := names[v.property];
      var filled := if v.vtype == VtArray then FillEids(extras[n], v.elems, 0) else FillScalar(extras[n], v.eid);
      match filled
      case None => None
      case Some(xs) => Some(extras[n := xs])
  }

  /** The back-fill of every value of one PIN of the answer, in order. */
  function FillValues(extras: map<string, seq<Extra>>, names: map<nat, string>, vs: seq<OutValue>): (r: Option<map<string, seq<Extra>>>)
    ensures r.Some? ==> r.value.Keys == extras.Keys
    decreases |vs|
  {
    if vs == [] then Some(extras)
    else
      match FillValues(extras, names, vs[..|vs| - 1])
      case None => None
      case Some(m) => FillValue(m, names, vs[|vs| - 1])
  }

  /** The Extras of a PIN value, by property; a later entry for a key wins, as a later
      store into a hash does. */
  function DocExtras(es: seq<Entry>): (r: map<string, seq<Extra>>)
    ensures r.Keys == set k | 0 <= k < |es| :: es[k].key
    ensures es != [] ==> r[es[|es| - 1].key] == es[|es| - 1].xs
    decreases |es|
  {
    if es == [] then map[]
    else DocExtras(es[..|es| - 1])[es[|es| - 1].key := es[|es| - 1].xs]
  }

  /** The back-fill of an answer into PIN values `docs` goes through: the answer names
      no more PINs than were saved, and each pid and each value fills in. */
  predicate FillsAll(docs: seq<PinDoc>, out: Output) {
    forall i :: 0 <= i < |out.pins| ==>
      i < |docs| && FillPid(docs[i].pid, out.pins[i].id).Some? &&
      FillValues(DocExtras(docs[i].entries), out.names, out.pins[i].values).Some?
  }

  /** The back-fill of the first `j` values is that of the first `j - 1` and then the last. */
  lemma FillValuesLast(extras: map<string, seq<Extra>>, names: map<nat, string>, vs: seq<OutValue>, j: nat)
    requires 0 < j <= |vs|
    ensures FillValues(extras, names, vs[..j]) ==
      match FillValues(extras, names, vs[..j - 1])
      case None => None
      case Some(m) => FillValue(m, names, vs[j - 1])
  {
    assert vs[..j][..j - 1] == vs[..j - 1];
  }

  /** Once a value fails to fill in, the back-fill of the whole PIN fails. */
  lemma {:induction false} FillValuesFails(extras: map<string, seq<Extra>>, names: map<nat, string>, vs: seq<OutValue>, j: nat)
    requires j <= |vs| && FillValues(extras, names, vs[..j]).None?
    ensures FillValues(extras, names, vs).None?
    decreases |vs| - j
  {
    if j < |vs| {
      assert vs[..j + 1][..j] == vs[..j];
      FillValuesFails(extras, names, vs, j + 1);
    } else {
      assert vs[..j] == vs;
    }
  }

  /** An element id the store already assigned never changes; every reserved one the
      answer covers takes the answer's id; only element ids change. */
  lemma {:induction false} FillEidsSpec(xs: seq<Extra>, elems: seq<nat>, k: nat)
    requires k <= |elems|
    ensures var r := FillEids(xs, elems, k);
      (r.Some? <==> k == |elems| || |elems| <= |xs|) &&
      (r.Some? ==> (|r.value| == |xs| &&
        (forall j :: 0 <= j < |xs| ==> r.value[j].(eid := xs[j].eid) == xs[j]) &&
        (forall j :: 0 <= j < |xs| && (j < k || j >= |elems| || !IsSentinel(xs[j].eid)) ==> r.value[j] == xs[j]) &&
        (forall j :: k <= j < |elems| && IsSentinel(xs[j].eid) ==> r.value[j].eid == elems[j])))
    decreases |elems| - k
  {
    if k < |elems| && k < |xs| {
      var next := if IsSentinel(xs[k].eid) then xs[k := xs[k].(eid := elems[k])] else xs;
      FillEidsSpec(next, elems, k + 1);
    }
  }
}
