// Conversion between native values and wire values (PIN._valueRB2PB and PIN._valuePB2RB,
// affinity.rb:956-1091). The protobuf message is a plain record whose fields all hold
// their defaults until set; serialization itself is not part of this model.

module Marshal {
  import opened Common
  import opened Wire
  import opened Ids

  type Byte = x: int | 0 <= x < 256
  type Usec = x: int | 0 <= x < 1000000

  /** The native values a PIN property can hold (the classes _valueRB2PB tests for).
      `Time` is seconds since the epoch, microseconds and the UTC offset in seconds.
      `Unsupported` is any other Ruby object (nil included, as `Nil`). */
  datatype Native =
    | Url(s: string)
    | Symbol(s: string)
    | ByteArray(bytes: seq<Byte>)
    | Str(s: string)
    | Bool(b: bool)
    | Int(i: int)
    | Float(f: real)
    | RefV(r: Ref)
    | Time(secs: int, usec: Usec, utcOffset: int)
    | Nil
    | Unsupported(kind: string)

  // ------------------------------------------------------- Ruby equality

  /** `Url` and `ByteArray` subclass `String` (affinity.rb:486-492). */
  predicate IsString(v: Native) {
    v.Url? || v.ByteArray? || v.Str?
  }

  /** A text and a byte string with the same content: every character is 7-bit and equals
      the byte at its position. */
  predicate SameAscii(s: string, bs: seq<Byte>) {
    |s| == |bs| && forall k :: 0 <= k < |s| ==> s[k] as int < 128 && s[k] as int == bs[k]
  }

  /** String equality (`String#==`, and equally `String#eql?` with `String#hash`) between
      two Strings of any of the three classes: the same content, where a binary ByteArray
      matches a text only when both are the same 7-bit text. */
  predicate SameString(a: Native, b: Native)
    requires IsString(a) && IsString(b)
  {
    if a.ByteArray? && b.ByteArray? then a.bytes == b.bytes
    else if a.ByteArray? then SameAscii(b.s, a.bytes)
    else if b.ByteArray? then SameAscii(a.s, b.bytes)
    else a.s == b.s
  }

  /** The numeric value of an integer or a float. */
  function NumericValue(v: Native): real
    requires v.Int? || v.Float?
  {
    if v.Int? then v.i as real else v.f
  }

  /** Ruby's `a == b` on native values, as `delete` uses it (affinity.rb:198): integers
      and floats compare by numeric value; Strings by content whatever their class; times
      by the instant, the zone aside; references by pid, property and element id, through
      `PID#<=>` and `Ref#<=>` (affinity.rb:442-450, 464-472), while a reference against
      anything else is false, the comparison raising inside `Comparable#==`, which turns the
      error into false; booleans, nil and symbols are themselves; other objects are taken to
      be equal when they are the same value. */
  predicate RubyEq(a: Native, b: Native) {
    if (a.Int? || a.Float?) && (b.Int? || b.Float?) then NumericValue(a) == NumericValue(b)
    else if IsString(a) && IsString(b) then SameString(a, b)
    else if a.Time? && b.Time? then a.secs == b.secs && a.usec == b.usec
    else a == b
  }

  /** Two Hash keys that collide (`eql?` with an equal `hash`), as `uniq!`'s `unique` Hash
      sees them (affinity.rb:247): as `RubyEq`, except that an integer and a float are never
      the same key, and a reference, which keeps `Object`'s identity hash, is a key of its
      own (each element taken to be a distinct object). */
  predicate KeyEq(a: Native, b: Native) {
    if a.RefV? || b.RefV? then false
    else if (a.Int? && b.Float?) || (a.Float? && b.Int?) then false
    else RubyEq(a, b)
  }

  /** `==` is an equivalence on native values. */
  lemma RubyEqEquivalence(a: Native, b: Native, c: Native)
    ensures RubyEq(a, a)
    ensures RubyEq(a, b) <==> RubyEq(b, a)
    ensures RubyEq(a, b) && RubyEq(b, c) ==> RubyEq(a, c)
  {
    if IsString(a) && IsString(b) && IsString(c) && SameString(a, b) && SameString(b, c) {
      SameStringTransitive(a, b, c);
    }
  }

  lemma SameStringTransitive(a: Native, b: Native, c: Native)
    requires IsString(a) && IsString(b) && IsString(c) && SameString(a, b) && SameString(b, c)
    ensures SameString(a, c)
  {
    if a.ByteArray? && c.ByteArray? && !b.ByteArray? {
      assert a.bytes == c.bytes by {
        forall k | 0 <= k < |a.bytes| ensures a.bytes[k] == c.bytes[k] {
          assert b.s[k] as int == a.bytes[k];
        }
      }
    } else if !a.ByteArray? && !c.ByteArray? && b.ByteArray? {
      assert a.s == c.s by {
        forall k | 0 <= k < |a.s| ensures a.s[k] == c.s[k] {
          assert a.s[k] as int == b.bytes[k] == c.s[k] as int;
        }
      }
    }
  }

  /** Colliding keys are `==`; `==` values that do not collide are an integer and a float
      of the same value, or a reference and itself. */
  lemma KeyEqIsRubyEq(a: Native, b: Native)
    ensures KeyEq(a, b) ==> RubyEq(a, b)
    ensures RubyEq(a, b) && !KeyEq(a, b) <==>
              (a.RefV? && a == b) ||
              (((a.Int? && b.Float?) || (a.Float? && b.Int?)) && NumericValue(a) == NumericValue(b))
  {
  }

  /** Key collision is symmetric and transitive (and reflexive but for references). */
  lemma KeyEqProperties(a: Native, b: Native, c: Native)
    ensures !a.RefV? <==> KeyEq(a, a)
    ensures KeyEq(a, b) <==> KeyEq(b, a)
    ensures KeyEq(a, b) && KeyEq(b, c) ==> KeyEq(a, c)
  {
    RubyEqEquivalence(a, b, c);
  }

  /** `1 == 1.0` and `"a" == Url("a")` hold; `1.eql?(1.0)` does not, `"a".eql?(Url("a"))` does. */
  lemma RubyEqExamples()
    ensures RubyEq(Int(1), Float(1.0)) && !KeyEq(Int(1), Float(1.0))
    ensures RubyEq(Str("a"), Url("a")) && KeyEq(Str("a"), Url("a"))
    ensures RubyEq(Str("a"), ByteArray([97])) && !RubyEq(Symbol("a"), Str("a"))
    ensures !RubyEq(RefV(Ref(1, 0, None, None)), Str("@1"))
  {
    assert SameAscii("a", [97]);
  }

  /** Microseconds between 1601-01-01 and the Unix epoch (PIN::TIME_OFFSET). */
  const TIME_OFFSET: int := 11644473600000000

  datatype WirePid = WirePid(id: nat, ident: nat)
  datatype WireRef = WireRef(id: WirePid, property: nat, eid: nat)

  /** An AffinityPB::Value: a type tag, the adornments, and one payload field per kind. */
  datatype PBValue = PBValue(
    vtype: VType, property: nat, op: ModOp, eid: nat, meta: nat,
    str: string, bstr: seq<Byte>, b: bool,
    i: int, ui: int, i64: int, ui64: int, f: real, d: real, datetime: int,
    id: WirePid, ref: WireRef, varray: seq<PBValue>)

  /** `AffinityPB::Value.new`: every field at its default. */
  function EmptyPB(): PBValue {
    PBValue(VtAny, 0, OpSet, 0, 0, "", [], false, 0, 0, 0, 0, 0.0, 0.0, 0,
            WirePid(0, 0), WireRef(WirePid(0, 0), 0, 0), [])
  }

  predicate IsIntTag(t: VType) {
    t == VtInt || t == VtUint || t == VtInt64 || t == VtUint64
  }

  /** The first range an integer fits, in the order the driver tries them. */
  function GuessIntTag(n: int): (t: VType)
    ensures IsIntTag(t)
    ensures t == VtInt <==> -0x8000_0000 <= n <= 0x7fff_ffff
    ensures t == VtUint <==> 0x7fff_ffff < n <= 0xffff_ffff
    ensures t == VtInt64 <==> n < -0x8000_0000 || 0xffff_ffff < n <= 0x7fff_ffff_ffff_ffff
    ensures t == VtUint64 <==> 0x7fff_ffff_ffff_ffff < n
  {
    if -0x8000_0000 <= n <= 0x7fff_ffff then VtInt
    else if 0 <= n <= 0xffff_ffff then VtUint
    else if n <= 0x7fff_ffff_ffff_ffff then VtInt64
    else VtUint64
  }

  /** `propDict[name]` as the protobuf field receives it: an unknown name leaves 0. */
  function PropIdOf(propDict: map<string, nat>, p: Option<string>): nat {
    if p.Some? && p.value in propDict then propDict[p.value] else 0
  }

  /** The range the protobuf field behind an integer tag accepts: int32, uint32, int64
      and uint64 for VT_INT, VT_UINT, VT_INT64 and VT_UINT64. */
  predicate Fits(t: VType, n: int) {
    match t
    case VtInt => -0x8000_0000 <= n <= 0x7fff_ffff
    case VtUint => 0 <= n <= 0xffff_ffff
    case VtInt64 => -0x8000_0000_0000_0000 <= n <= 0x7fff_ffff_ffff_ffff
    case VtUint64 => 0 <= n <= 0xffff_ffff_ffff_ffff
    case _ => false
  }

  /** Stores an integer in the payload field its tag names, which refuses a value out of
      its range. */
  function WithInt(pb: PBValue, t: VType, n: int): (r: Option<PBValue>)
    requires IsIntTag(t)
    ensures r.Some? <==> Fits(t, n)
  {
    if !Fits(t, n) then None
    else
      match t
      case VtInt => Some(pb.(i := n))
      case VtUint => Some(pb.(ui := n))
      case VtInt64 => Some(pb.(i64 := n))
      case VtUint64 => Some(pb.(ui64 := n))
  }

  /** The tag `_valueRB2PB` settles on: kinds with a fixed tag get it; integers and floats
      keep a compatible pinned tag; an unsupported value keeps whatever was pinned. */
  function TagFor(pinned: VType, v: Native): (r: VType)
    ensures v.Int? ==> IsIntTag(r) && (IsIntTag(pinned) ==> r == pinned)
    ensures v.Float? ==> (r == VtFloat || r == VtDouble) && (r == VtFloat <==> pinned == VtFloat)
    ensures v.Nil? || v.Unsupported? ==> r == pinned
  {
    match v
    case Url(_) => VtUrl
    case Symbol(_) => VtString
    case ByteArray(_) => VtBstr
    case Str(_) => VtString
    case Bool(_) => VtBool
    case Int(n) => if IsIntTag(pinned) then pinned else GuessIntTag(n)
    case Float(_) => if pinned == VtFloat then VtFloat else VtDouble
    case RefV(r) => if r.eid.Some? then VtRefIdElt else if r.property.Some? then VtRefIdProp else VtRefId
    case Time(_, _, _) => VtDateTime
    case Nil => pinned
    case Unsupported(_) => pinned
  }

  /** A value the payload fields can hold: anything but an integer outside the range of
      the tag it is given. */
  predicate Encodable(pinned: VType, v: Native) {
    v.Int? ==> Fits(TagFor(pinned, v), v.i)
  }

  /** `_valueRB2PB` (affinity.rb:956-1039): `pb` arrives with the adornments and the
      pinned type already filled in by the caller. Nothing comes out when an integer does
      not fit the field its tag names. */
  function ValueToPB(pb: PBValue, v: Native, propDict: map<string, nat>): (r: Option<PBValue>)
    ensures r.Some? <==> Encodable(pb.vtype, v)
    ensures r.Some? ==> r.value.vtype == TagFor(pb.vtype, v)
    ensures r.Some? ==> r.value.property == pb.property && r.value.op == pb.op && r.value.eid == pb.eid && r.value.meta == pb.meta
    ensures r.Some? ==> r.value.varray == pb.varray
    ensures (v.Nil? || v.Unsupported?) ==> r == Some(pb)
  {
    var t := TagFor(pb.vtype, v);
    match v
    case Url(s) => Some(pb.(str := s, vtype := t))
    case Symbol(s) => Some(pb.(str := s, vtype := t))
    case ByteArray(bs) => Some(pb.(bstr := bs, vtype := t))
    case Str(s) => Some(pb.(str := s, vtype := t))
    case Bool(x) => Some(pb.(b := x, vtype := t))
    case Int(n) =>
      (match WithInt(pb, t, n) case Some(w) => Some(w.(vtype := t)) case None => None)
    case Float(x) => if t == VtFloat then Some(pb.(f := x, vtype := t)) else Some(pb.(d := x, vtype := t))
    case RefV(r) =>
      if r.eid.Some? then
        Some(pb.(ref := WireRef(WirePid(r.localPID, r.ident), PropIdOf(propDict, r.property), r.eid.value), vtype := t))
      else if r.property.Some? then
        Some(pb.(ref := WireRef(WirePid(r.localPID, r.ident), PropIdOf(propDict, r.property), 0), vtype := t))
      else
        Some(pb.(id := WirePid(r.localPID, r.ident), vtype := t))
    case Time(secs, usec, off) =>
      Some(pb.(datetime := 1000000 * (secs + off) + usec + TIME_OFFSET, vtype := t))
    case Nil => Some(pb)
    case Unsupported(_) => Some(pb)
  }

  /** What `_valuePB2RB` returns: a value with its Extra, a list of them for VT_ARRAY,
      or nothing for an unknown type. */
  datatype Decoded = Single(v: Native, extra: Extra) | Elements(items: seq<Decoded>) | Unknown

  /** Only integers, floats and nil look at the pinned tag; every other kind has its own. */
  lemma TagForFixed(p: VType, q: VType, v: Native)
    requires !v.Int? && !v.Float? && !v.Nil? && !v.Unsupported?
    ensures TagFor(p, v) == TagFor(q, v)
    ensures TagFor(p, v) != VtArray
  {
  }

  /** `Extra.fromPB` (affinity.rb:429). */
  function ExtraFromPB(pb: PBValue): (r: Extra)
    ensures r.propID == Some(pb.property) && r.vtype == pb.vtype
    ensures r.op == pb.op && r.eid == pb.eid && r.meta == pb.meta
  {
    Extra(Some(pb.property), pb.vtype, pb.op, pb.eid, pb.meta)
  }

  /** Resolves a property id through the read context's id-to-name map (nil if unknown). */
  function NameOf(names: map<int, string>, id: int): Option<string> {
    if id in names then Some(names[id]) else None
  }

  /** `_valuePB2RB` (affinity.rb:1041-1091); `names` is `readCtx.propid2name()`. */
  function ValueFromPB(names: map<int, string>, pb: PBValue): (r: Decoded)
    ensures r.Elements? <==> pb.vtype == VtArray
    ensures r.Elements? ==> |r.items| == |pb.varray|
    ensures r.Single? ==> r.extra == ExtraFromPB(pb)
    decreases pb, |pb.varray| + 1
  {
    if pb.vtype == VtArray then
      Elements(ElementsFromPB(names, pb, 0))
    else
      var x := ExtraFromPB(pb);
      match pb.vtype
      case VtUrl => Single(Url(pb.str), x)
      case VtString => Single(Str(pb.str), x)
      case VtBstr => Single(ByteArray(pb.bstr), x)
      case VtInt => Single(Int(pb.i), x)
      case VtUint => Single(Int(pb.ui), x)
      case VtInt64 => Single(Int(pb.i64), x)
      case VtUint64 => Single(Int(pb.ui64), x)
      case VtFloat => Single(Float(pb.f), x)
      case VtDouble => Single(Float(pb.d), x)
      case VtBool => Single(Bool(pb.b), x)
      case VtDateTime =>
        var micros := pb.datetime - TIME_OFFSET;
        Single(Time(micros / 1000000, micros % 1000000, 0), x)
      case VtQuery => Single(Str(pb.str), x)
      case VtRefId => Single(RefV(Ref(pb.id.id, pb.id.ident, None, None)), x)
      case VtRefIdProp =>
        Single(RefV(Ref(pb.ref.id.id, pb.ref.id.ident, NameOf(names, pb.ref.property), None)), x)
      case VtRefIdElt =>
        Single(RefV(Ref(pb.ref.id.id, pb.ref.id.ident, NameOf(names, pb.ref.property), Some(pb.ref.eid))), x)
      case VtUriId =>
        Single(if pb.ui in names then Str(names[pb.ui]) else Int(pb.ui), x)
      case _ => Unknown
  }

  /** The decoded elements `k..` of a VT_ARRAY value, in order. */
  function ElementsFromPB(names: map<int, string>, pb: PBValue, k: nat): (r: seq<Decoded>)
    requires k <= |pb.varray|
    ensures |r| == |pb.varray| - k
    decreases pb, |pb.varray| - k
  {
    if k == |pb.varray| then [] else [ValueFromPB(names, pb.varray[k])] + ElementsFromPB(names, pb, k + 1)
  }

  // ------------------------------------------------------------------ properties

  /** Each element of a decoded VT_ARRAY is the decoding of the corresponding wire element. */
  lemma {:induction false} ElementsAreDecodedInOrder(names: map<int, string>, pb: PBValue, k: nat)
    requires k <= |pb.varray|
    ensures forall j :: 0 <= j < |pb.varray| - k ==>
              ElementsFromPB(names, pb, k)[j] == ValueFromPB(names, pb.varray[k + j])
    decreases |pb.varray| - k
  {
    if k < |pb.varray| {
      ElementsAreDecodedInOrder(names, pb, k + 1);
    }
  }

  /** The kinds `_valueRB2PB` knows how to encode. */
  predicate Supported(v: Native) {
    !v.Nil? && !v.Unsupported?
  }

  /** The property dictionary and the id-to-name map agree on the property a reference names. */
  predicate NamesResolve(propDict: map<string, nat>, names: map<int, string>, v: Native) {
    v.RefV? && (v.r.property.Some? || v.r.eid.Some?) ==>
      v.r.property.Some? && v.r.property.value in propDict &&
      propDict[v.r.property.value] in names && names[propDict[v.r.property.value]] == v.r.property.value
  }

  /** What reading back a written value yields: a symbol comes back as a string, and a
      time comes back as the same wall-clock reading taken as UTC. */
  function ReadBack(v: Native): Native {
    match v
    case Symbol(s) => Str(s)
    case Time(secs, usec, off) => Time(secs + off, usec, 0)
    case _ => v
  }

  lemma DatetimeSplits(secs: int, usec: Usec)
    ensures (1000000 * secs + usec) / 1000000 == secs
    ensures (1000000 * secs + usec) % 1000000 == usec
  {
  }

  /** Writing a supported value and reading it back gives the value (up to `ReadBack`)
      with an Extra carrying the adornments written and the tag chosen. */
  lemma RoundTrip(pb: PBValue, v: Native, propDict: map<string, nat>, names: map<int, string>)
    requires Supported(v)
    requires NamesResolve(propDict, names, v)
    ensures var w := ValueToPB(pb, v, propDict);
      w.Some? ==> ValueFromPB(names, w.value) == Single(ReadBack(v), ExtraFromPB(pb).(vtype := TagFor(pb.vtype, v)))
  {
    if v.Time? {
      DatetimeSplits(v.secs + v.utcOffset, v.usec);
    }
  }

  /** The tag the driver guesses for an unpinned integer has a field that holds it exactly
      when the integer lies in [-2^63, 2^64-1]. */
  lemma GuessFits(n: int)
    ensures Fits(GuessIntTag(n), n) <==> -0x8000_0000_0000_0000 <= n <= 0xffff_ffff_ffff_ffff
  {
  }

  /** Integer tags: a pinned integer tag is kept, otherwise the first range that fits is
      chosen; the write succeeds exactly when the integer fits that tag's field, and the
      integer then reads back unchanged. */
  lemma IntegerTag(pb: PBValue, n: int, propDict: map<string, nat>, names: map<int, string>)
    ensures var t := if IsIntTag(pb.vtype) then pb.vtype else GuessIntTag(n);
      var w := ValueToPB(pb, Int(n), propDict);
      (w.Some? <==> Fits(t, n)) &&
      (w.Some? ==> w.value.vtype == t && ValueFromPB(names, w.value).v == Int(n))
  {
    RoundTrip(pb, Int(n), propDict, names);
  }

  /** `12345` is written as VT_INT and `-8589934592` as VT_INT64 when nothing is pinned;
      2^31 does not fit a pinned VT_INT, nor -1 a pinned VT_UINT64, nor 2^64 anything. */
  lemma IntegerTagExamples()
    ensures ValueToPB(EmptyPB(), Int(12345), map[]).value.vtype == VtInt
    ensures ValueToPB(EmptyPB(), Int(12345), map[]).value.i == 12345
    ensures ValueToPB(EmptyPB(), Int(-8589934592), map[]).value.vtype == VtInt64
    ensures ValueToPB(EmptyPB(), Int(-8589934592), map[]).value.i64 == -8589934592
    ensures ValueToPB(EmptyPB(), Int(3000000000), map[]).value.vtype == VtUint
    ensures ValueToPB(EmptyPB(), Int(0x8000_0000_0000_0000), map[]).value.vtype == VtUint64
    ensures ValueToPB(EmptyPB().(vtype := VtInt), Int(0x8000_0000), map[]).None?
    ensures ValueToPB(EmptyPB().(vtype := VtUint64), Int(-1), map[]).None?
    ensures ValueToPB(EmptyPB(), Int(0x1_0000_0000_0000_0000), map[]).None?
  {
  }

  /** A float keeps a pinned VT_FLOAT and is otherwise written as VT_DOUBLE. */
  lemma FloatTag(pb: PBValue, x: real, propDict: map<string, nat>)
    ensures ValueToPB(pb, Float(x), propDict).value.vtype == (if pb.vtype == VtFloat then VtFloat else VtDouble)
    ensures pb.vtype == VtFloat ==> ValueToPB(pb, Float(x), propDict).value.f == x
    ensures pb.vtype != VtFloat ==> ValueToPB(pb, Float(x), propDict).value.d == x
  {
  }

  /** A reference is written as VT_REFIDELT when it names an element, VT_REFIDPROP when it
      names only a property, and VT_REFID otherwise. */
  lemma ReferenceTag(pb: PBValue, r: Ref, propDict: map<string, nat>)
    ensures var w := ValueToPB(pb, RefV(r), propDict).value;
      (r.eid.Some? ==> w.vtype == VtRefIdElt && w.ref == WireRef(WirePid(r.localPID, r.ident), PropIdOf(propDict, r.property), r.eid.value)) &&
      (r.eid.None? && r.property.Some? ==> w.vtype == VtRefIdProp && w.ref == WireRef(WirePid(r.localPID, r.ident), PropIdOf(propDict, r.property), 0)) &&
      (r.eid.None? && r.property.None? ==> w.vtype == VtRefId && w.id == WirePid(r.localPID, r.ident))
  {
  }

  /** A VT_URIID value resolves to the property name when the read context knows the id,
      and falls back to the raw number exactly when it does not. */
  lemma UriIdFallback(names: map<int, string>, pb: PBValue)
    requires pb.vtype == VtUriId
    ensures ValueFromPB(names, pb).Single?
    ensures ValueFromPB(names, pb).v == Int(pb.ui) <==> pb.ui !in names
    ensures pb.ui in names ==> ValueFromPB(names, pb).v == Str(names[pb.ui])
  {
  }

  /** A value the driver cannot encode, written with no pinned tag, reads back as nothing. */
  lemma UnsupportedIsDropped(pb: PBValue, v: Native, propDict: map<string, nat>, names: map<int, string>)
    requires !Supported(v) && pb.vtype == VtAny
    ensures ValueToPB(pb, v, propDict) == Some(pb) && ValueFromPB(names, pb) == Unknown
  {
  }

  /** A VT_ARRAY holding written values reads back as the list of the values read back. */
  lemma ArrayRoundTrip(arr: PBValue, slots: seq<PBValue>, vs: seq<Native>,
                       propDict: map<string, nat>, names: map<int, string>)
    requires arr.vtype == VtArray && |slots| == |vs| == |arr.varray|
    requires forall k :: 0 <= k < |vs| ==> ValueToPB(slots[k], vs[k], propDict) == Some(arr.varray[k])
    requires forall k :: 0 <= k < |vs| ==> Supported(vs[k]) && NamesResolve(propDict, names, vs[k])
    ensures var d := ValueFromPB(names, arr);
      d.Elements? && |d.items| == |vs| &&
      forall k :: 0 <= k < |vs| ==>
        d.items[k] == Single(ReadBack(vs[k]), ExtraFromPB(slots[k]).(vtype := TagFor(slots[k].vtype, vs[k])))
  {
    ElementsAreDecodedInOrder(names, arr, 0);
    forall k | 0 <= k < |vs|
      ensures ValueFromPB(names, arr).items[k]
                == Single(ReadBack(vs[k]), ExtraFromPB(slots[k]).(vtype := TagFor(slots[k].vtype, vs[k])))
    {
      RoundTrip(slots[k], vs[k], propDict, names);
    }
  }
}
