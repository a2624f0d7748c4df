// PIN identifiers and references (classes PID and Ref, affinity.rb:433-484): their
// ordering and their textual forms `@hex`, `@hex.prop` and `@hex.prop[eid]`.

module Ids {
  import opened Common

  /** A PIN id: a 64-bit local id and a 32-bit identity (affinity.rb:434-441). */
  datatype PID = PID(localPID: nat, ident: nat)

  /** A reference to a PIN, optionally to one of its properties, optionally to one element
      of that property (affinity.rb:457-463). */
  datatype Ref = Ref(localPID: nat, ident: nat, property: Option<string>, eid: Option<nat>)
  {
    /** The PID part of the reference (what `super` sees). */
    function Pid(): PID { PID(localPID, ident) }
  }

  /** `Ref.fromPID` (affinity.rb:483). */
  function RefFromPid(p: PID): (r: Ref)
    ensures r.Pid() == p && r.property == None && r.eid == None
  {
    Ref(p.localPID, p.ident, None, None)
  }

  // ---------------------------------------------------------------- ordering

  /** Lexicographic order on (localPID, ident): the reference definition of PID ordering. */
  predicate PidLess(a: PID, b: PID) {
    a.localPID < b.localPID || (a.localPID == b.localPID && a.ident < b.ident)
  }

  /** `PID#<=>` against another PID (affinity.rb:442-450). */
  function ComparePid(a: PID, b: PID): (r: int)
    ensures r == -1 || r == 0 || r == 1
    ensures r == 0 <==> a == b
    ensures r < 0 <==> PidLess(a, b)
    ensures r > 0 <==> PidLess(b, a)
  {
    if a.localPID != b.localPID then Spaceship(a.localPID, b.localPID)
    else if a.ident != b.ident then Spaceship(a.ident, b.ident)
    else 0
  }

  /** PID ordering is a strict total order. */
  lemma PidLessIsStrictTotalOrder(a: PID, b: PID, c: PID)
    ensures !PidLess(a, a)
    ensures PidLess(a, b) && PidLess(b, c) ==> PidLess(a, c)
    ensures a == b || PidLess(a, b) || PidLess(b, a)
  {
  }

  /** Ruby's `String#<=>`: lexicographic on characters, a proper prefix sorting first. */
  function CompareStr(s: string, t: string): (r: int)
    ensures r == -1 || r == 0 || r == 1
    ensures r == 0 <==> s == t
    decreases |s|
  {
    if s == [] then (if t == [] then 0 else -1)
    else if t == [] then 1
    else if s[0] != t[0] then Spaceship(s[0] as int, t[0] as int)
    else
      assert s == [s[0]] + s[1..] && t == [t[0]] + t[1..];
      CompareStr(s[1..], t[1..])
  }

  lemma {:induction false} CompareStrAntisymmetric(s: string, t: string)
    ensures CompareStr(s, t) == -CompareStr(t, s)
    decreases |s|
  {
    if s != [] && t != [] && s[0] == t[0] {
      CompareStrAntisymmetric(s[1..], t[1..]);
    }
  }

  lemma {:induction false} CompareStrTransitive(s: string, t: string, u: string)
    requires CompareStr(s, t) < 0 && CompareStr(t, u) < 0
    ensures CompareStr(s, u) < 0
    decreases |s|
  {
    if s != [] && t != [] && u != [] && s[0] == t[0] && t[0] == u[0] {
      CompareStrTransitive(s[1..], t[1..], u[1..]);
    }
  }

  /** Ruby's `<=>` on two optional values: `nil <=> nil` is 0, nil against a value is nil
      (incomparable), and two values compare by `cmp`. */
  function CompareOptStr(a: Option<string>, b: Option<string>): (r: Option<int>)
    ensures r == Some(0) <==> a == b
    ensures r.None? <==> (a.None? != b.None?)
  {
    match (a, b)
    case (None, None) => Some(0)
    case (Some(x), Some(y)) => Some(CompareStr(x, y))
    case _ => None
  }

  function CompareOptNat(a: Option<nat>, b: Option<nat>): (r: Option<int>)
    ensures r == Some(0) <==> a == b
    ensures r.None? <==> (a.None? != b.None?)
  {
    match (a, b)
    case (None, None) => Some(0)
    case (Some(x), Some(y)) => Some(Spaceship(x, y))
    case _ => None
  }

  /** `Ref#<=>` against another Ref (affinity.rb:464-472): the PID first, then the
      property, then the element id. `None` is Ruby's nil: a nil property or eid on one
      side only makes the two references incomparable. */
  function CompareRef(a: Ref, b: Ref): (r: Option<int>)
    ensures r == Some(0) <==> a == b
    ensures r.Some? ==> r.value == -1 || r.value == 0 || r.value == 1
    ensures a.Pid() != b.Pid() ==> r == Some(ComparePid(a.Pid(), b.Pid()))
    ensures a.Pid() == b.Pid() && a.property != b.property ==>
              r == CompareOptStr(a.property, b.property)
    ensures a.Pid() == b.Pid() && a.property == b.property ==>
              r == CompareOptNat(a.eid, b.eid)
  {
    var s := ComparePid(a.Pid(), b.Pid());
    if s != 0 then Some(s)
    else if a.property != b.property then CompareOptStr(a.property, b.property)
    else if a.eid != b.eid then CompareOptNat(a.eid, b.eid)
    else Some(0)
  }

  function Negate(r: Option<int>): Option<int> {
    match r
    case None => None
    case Some(v) => Some(-v)
  }

  /** Swapping the operands of `Ref#<=>` negates the answer (and keeps incomparability). */
  lemma CompareRefAntisymmetric(a: Ref, b: Ref)
    ensures CompareRef(a, b) == Negate(CompareRef(b, a))
  {
    if a.Pid() == b.Pid() && a.property != b.property && a.property.Some? && b.property.Some? {
      CompareStrAntisymmetric(a.property.value, b.property.value);
    }
  }

  // ------------------------------------------------------------- text forms

  function HexDigit(d: nat): (c: char)
    requires d < 16
  {
    if d < 10 then ('0' as int + d) as char else ('a' as int + d - 10) as char
  }

  predicate IsHexDigit(c: char) {
    ('0' <= c <= '9') || ('a' <= c <= 'f')
  }

  function HexValue(c: char): (d: nat)
    requires IsHexDigit(c)
    ensures d < 16
  {
    if '0' <= c <= '9' then c as int - '0' as int else c as int - 'a' as int + 10
  }

  /** `Integer#to_s(16)`: lower-case digits, no leading zeros. */
  function Hex(n: nat): (s: string)
    ensures |s| >= 1
    ensures forall k :: 0 <= k < |s| ==> IsHexDigit(s[k])
    decreases n
  {
    if n < 16 then [HexDigit(n)] else Hex(n / 16) + [HexDigit(n % 16)]
  }

  /** Reads a run of hexadecimal digits back into a number. */
  function ParseHex(s: string): (n: nat)
    requires forall k :: 0 <= k < |s| ==> IsHexDigit(s[k])
    decreases |s|
  {
    if s == [] then 0 else ParseHex(s[..|s| - 1]) * 16 + HexValue(s[|s| - 1])
  }

  /** The hexadecimal text of a number reads back as that number. */
  lemma {:induction false} ParseHexOfHex(n: nat)
    ensures ParseHex(Hex(n)) == n
    decreases n
  {
    if n >= 16 {
      var s := Hex(n);
      assert s[..|s| - 1] == Hex(n / 16);
      ParseHexOfHex(n / 16);
    }
  }

  predicate IsDecDigit(c: char) {
    '0' <= c <= '9'
  }

  function DecValue(c: char): (d: nat)
    requires IsDecDigit(c)
    ensures d < 10
  {
    c as int - '0' as int
  }

  /** `Integer#to_s` in base 10. */
  function Dec(n: nat): (s: string)
    ensures |s| >= 1
    ensures forall k :: 0 <= k < |s| ==> IsDecDigit(s[k])
    decreases n
  {
    if n < 10 then [HexDigit(n)] else Dec(n / 10) + [HexDigit(n % 10)]
  }

  /** Reads a run of decimal digits back into a number. */
  function ParseDec(s: string): (n: nat)
    requires forall k :: 0 <= k < |s| ==> IsDecDigit(s[k])
    decreases |s|
  {
    if s == [] then 0 else ParseDec(s[..|s| - 1]) * 10 + DecValue(s[|s| - 1])
  }

  /** The decimal text of a number reads back as that number. */
  lemma {:induction false} ParseDecOfDec(n: nat)
    ensures ParseDec(Dec(n)) == n
    decreases n
  {
    if n >= 10 {
      var s := Dec(n);
      assert s[..|s| - 1] == Dec(n / 10);
      ParseDecOfDec(n / 10);
    }
  }

  /** `PID#to_s` (affinity.rb:451): `@` and the local id in hexadecimal. */
  function PidText(p: PID): string {
    "@" + Hex(p.localPID)
  }

  /** `#{nil}` interpolates as the empty string. */
  function PropText(p: Option<string>): string {
    match p
    case None => ""
    case Some(s) => s
  }

  /** `Ref#to_s` (affinity.rb:473-481). */
  function RefText(r: Ref): (s: string)
    ensures |s| >= |PidText(r.Pid())| && s[..|PidText(r.Pid())|] == PidText(r.Pid())
    ensures r.eid.None? && r.property.None? ==> s == PidText(r.Pid())
    ensures r.eid.Some? || r.property.Some? ==> |s| > |PidText(r.Pid())| && s[|PidText(r.Pid())|] == '.'
    ensures r.eid.Some? ==> s[|s| - 1] == ']'
  {
    if r.eid.Some? then
      PidText(r.Pid()) + "." + PropText(r.property) + "[" + Dec(r.eid.value) + "]"
    else if r.property.Some? then
      PidText(r.Pid()) + "." + r.property.value
    else
      PidText(r.Pid())
  }

  /** The longest prefix of `s` made of hexadecimal digits. */
  function HexRun(s: string): (t: string)
    ensures |t| <= |s| && t == s[..|t|]
    ensures forall k :: 0 <= k < |t| ==> IsHexDigit(t[k])
    decreases |s|
  {
    if s == [] || !IsHexDigit(s[0]) then [] else [s[0]] + HexRun(s[1..])
  }

  /** Reads the local PID back from the text of a PID or reference. */
  function LocalPidOfText(s: string): Option<nat> {
    if |s| >= 2 && s[0] == '@' && IsHexDigit(s[1]) then Some(ParseHex(HexRun(s[1..]))) else None
  }

  lemma {:induction false} HexRunStopsAtNonDigit(a: string, rest: string)
    requires forall k :: 0 <= k < |a| ==> IsHexDigit(a[k])
    requires rest == [] || !IsHexDigit(rest[0])
    ensures HexRun(a + rest) == a
    decreases |a|
  {
    if a != [] {
      assert (a + rest)[1..] == a[1..] + rest;
      HexRunStopsAtNonDigit(a[1..], rest);
    }
  }

  /** Every textual form of a reference starts with its PID text, and that text
      determines the local PID (the identity part is not shown). */
  lemma RefTextDeterminesLocalPid(r: Ref)
    ensures LocalPidOfText(RefText(r)) == Some(r.localPID)
    ensures LocalPidOfText(PidText(r.Pid())) == Some(r.localPID)
  {
    var h := Hex(r.localPID);
    ParseHexOfHex(r.localPID);
    var s := RefText(r);
    var rest := s[1 + |h|..];
    assert s == "@" + h + rest;
    assert rest == [] || rest[0] == '.';
    assert s[1..] == h + rest;
    HexRunStopsAtNonDigit(h, rest);
    assert PidText(r.Pid()) == "@" + h + [];
    assert PidText(r.Pid())[1..] == h + [];
    HexRunStopsAtNonDigit(h, []);
  }

  /** The first position of `c` in `s`, if any. */
  function IndexOf(s: string, c: char): (r: Option<nat>)
    ensures r.None? <==> c !in s
    ensures r.Some? ==> r.value < |s| && s[r.value] == c && c !in s[..r.value]
    decreases |s|
  {
    if s == [] then None
    else if s[0] == c then Some(0)
    else
      match IndexOf(s[1..], c)
      case None => None
      case Some(j) =>
        assert s[..j + 1] == [s[0]] + s[1..][..j];
        Some(j + 1)
  }

  /** Reads a reference text back: the local PID, the property text and the element id,
      `None` where the text has none of the three forms. */
  function ParseRefText(s: string): Option<(nat, Option<string>, Option<nat>)> {
    if !(|s| >= 2 && s[0] == '@' && IsHexDigit(s[1])) then None
    else
      var h := HexRun(s[1..]);
      ParseAfterPid(ParseHex(h), s[1 + |h|..])
  }

  /** What follows the hexadecimal local PID: nothing, or `.` and the property part. */
  function ParseAfterPid(n: nat, rest: string): Option<(nat, Option<string>, Option<nat>)> {
    if rest == [] then Some((n, None, None))
    else if rest[0] != '.' then None
    else
      var tail := rest[1..];
      match IndexOf(tail, '[')
      case None => Some((n, Some(tail), None))
      case Some(j) => ParseElement(n, tail, j)
  }

  /** `prop[eid]`, the `[` at position `j`. */
  function ParseElement(n: nat, tail: string, j: nat): Option<(nat, Option<string>, Option<nat>)>
    requires j < |tail|
  {
    if |tail| >= j + 3 && tail[|tail| - 1] == ']' &&
       forall k :: j + 1 <= k < |tail| - 1 ==> IsDecDigit(tail[k])
    then
      var digits := tail[j + 1..|tail| - 1];
      assert forall k :: 0 <= k < |digits| ==> IsDecDigit(digits[k]) by {
        forall k | 0 <= k < |digits| ensures IsDecDigit(digits[k]) {
          assert digits[k] == tail[j + 1 + k];
        }
      }
      Some((n, Some(tail[..j]), Some(ParseDec(digits))))
    else None
  }

  lemma {:induction false} IndexOfAfter(a: string, c: char, b: string)
    requires c !in a
    ensures IndexOf(a + [c] + b, c) == Some(|a|)
    decreases |a|
  {
    if a != [] {
      assert (a + [c] + b)[1..] == a[1..] + [c] + b;
      IndexOfAfter(a[1..], c, b);
    }
  }

  /** The text of a reference reads back as its local PID, its property and its element
      id, when the property name holds no `[`. With an element id the property text is
      always there (a missing property prints as the empty name). */
  lemma RefTextReadsBack(r: Ref)
    requires r.property.Some? ==> '[' !in r.property.value
    ensures ParseRefText(RefText(r)) ==
      Some((r.localPID, if r.eid.Some? then Some(PropText(r.property)) else r.property, r.eid))
  {
    var h := Hex(r.localPID);
    ParseHexOfHex(r.localPID);
    var rest: string;
    if r.eid.Some? {
      var tail := PropText(r.property) + "[" + Dec(r.eid.value) + "]";
      rest := "." + tail;
      ElementTextReadsBack(r.localPID, PropText(r.property), r.eid.value, tail);
    } else if r.property.Some? {
      rest := "." + r.property.value;
    } else {
      rest := "";
    }
    assert RefText(r) == "@" + h + rest;
    PidPartReadsBack(h, rest);
  }

  /** After `@` and the hexadecimal digits, the parser sees exactly what follows them. */
  lemma PidPartReadsBack(h: string, rest: string)
    requires |h| >= 1 && forall k :: 0 <= k < |h| ==> IsHexDigit(h[k])
    requires rest == [] || !IsHexDigit(rest[0])
    ensures ParseRefText("@" + h + rest) == ParseAfterPid(ParseHex(h), rest)
  {
    var t := h + rest;
    var s := "@" + h + rest;
    assert s == ['@'] + t;
    assert t[0] == h[0];
    ConsTail('@', t);
    HexRunStopsAtNonDigit(h, rest);
    assert t[|h|..] == rest;
  }

  lemma ConsTail(c: char, t: string)
    ensures ([c] + t)[0] == c && ([c] + t)[1..] == t
  {
  }

  /** The `prop[eid]` part of a reference text splits back into its two halves. */
  lemma ElementTextReadsBack(n: nat, p: string, eid: nat, tail: string)
    requires '[' !in p && tail == p + "[" + Dec(eid) + "]"
    ensures IndexOf(tail, '[') == Some(|p|)
    ensures ParseElement(n, tail, |p|) == Some((n, Some(p), Some(eid)))
  {
    var d := Dec(eid);
    ParseDecOfDec(eid);
    assert tail == p + ['['] + (d + "]");
    IndexOfAfter(p, '[', d + "]");
    assert tail[|p| + 1..|tail| - 1] == d;
    assert tail[..|p|] == p;
  }

  /** Two PIDs with the same text have the same local id. */
  lemma PidTextInjective(a: PID, b: PID)
    requires PidText(a) == PidText(b)
    ensures a.localPID == b.localPID
  {
    RefTextDeterminesLocalPid(RefFromPid(a));
    RefTextDeterminesLocalPid(RefFromPid(b));
  }
}
