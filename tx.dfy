// The protobuf transaction context of a connection (affinity.rb:1137-1319): the stream
// segment being built, the segments captured so far, the dictionary of property ids, the
// count of nested transactions and the PIN updates deferred until the outermost one ends;
// and the operations that save PINs through it (affinity.rb:648-717, 843-881, 1093-1101).
//
// A segment is kept as the record of what it carries rather than as serialized bytes, and
// the connection is reduced to the events it receives and the replies it gives, which the
// methods take as parameters.

module Tx {
  import opened Common
  import opened Wire
  import opened Ids
  import opened Marshal
  import opened Pins
  import opened Saving

  /** The transaction operations a segment may carry (AfyStream TXOP). */
  datatype TxOp = TxStart | TxCommit | TxRollback

  /** One AfyStream segment: its PINs, its number of queries, its transaction operations,
      its number of flush markers and the StringMap entries naming property ids. */
  datatype Segment = Segment(pins: seq<PinMsg>, stmts: nat, txops: seq<TxOp>, flushes: nat,
                             properties: seq<(string, nat)>)

  function EmptySegment(): Segment {
    Segment([], 0, [], 0, [])
  }

  /** A segment `capture` keeps rather than ignores (affinity.rb:1162-1174). */
  predicate HasContent(s: Segment)
    ensures HasContent(s) <==> s != EmptySegment()
  {
    s.pins != [] || s.stmts > 0 || s.txops != [] || s.flushes > 0 || s.properties != []
  }

  /** Some PIN of the segment is an insertion. */
  predicate InsertsPin(pins: seq<PinMsg>)
    ensures InsertsPin(pins) ==> pins != []
  {
    exists k :: 0 <= k < |pins| && pins[k].op == OpInsertPin
  }

  /** A run of PIN messages inserts a PIN exactly when one of its two parts does. */
  lemma InsertsPinAppend(a: seq<PinMsg>, b: seq<PinMsg>)
    ensures InsertsPin(a + b) <==> InsertsPin(a) || InsertsPin(b)
  {
    if InsertsPin(a + b) {
      var k :| 0 <= k < |a + b| && (a + b)[k].op == OpInsertPin;
      if k >= |a| {
        assert b[k - |a|] == (a + b)[k];
      }
    }
    if InsertsPin(a) {
      var k :| 0 <= k < |a| && a[k].op == OpInsertPin;
      assert (a + b)[k] == a[k];
    }
    if InsertsPin(b) {
      var k :| 0 <= k < |b| && b[k].op == OpInsertPin;
      assert (a + b)[|a| + k] == b[k];
    }
  }

  /** Whether the segments sent next expect an answer, once `s` is captured after a
      segment that left the flag at `e` (affinity.rb:1163-1171): a segment with PINs
      expects one exactly when one of them is an insertion, one with queries always does,
      and any other leaves the flag as it was. */
  function ExpectAfter(s: Segment, e: bool): (r: bool)
    ensures s.pins == [] && s.stmts == 0 ==> r == e
    ensures s.pins != [] ==> (r <==> exists k :: 0 <= k < |s.pins| && s.pins[k].op == OpInsertPin)
    ensures s.pins == [] && s.stmts > 0 ==> r
  {
    if s.pins != [] then InsertsPin(s.pins)
    else if s.stmts > 0 then true
    else e
  }

  /** What the connection answers to a post: its return code (none when the post
      failed) and the parsed answer, when there is one. */
  datatype Reply = Reply(rc: Option<int>, raw: Option<Output>)

  /** What the context asks of its connection. */
  datatype Event =
    | Posted(message: seq<Segment>, token: Option<nat>, expectOutput: bool)
    | BeganLongPost(lp: nat)
    | EndedLongPost(lp: nat)
    | ResetByConnection

  const MODE_IGNORE_OUTPUT: nat := 1
  const MODE_IMMEDIATE_UPDATES: nat := 2

  /** `mode & flag != 0`, for a flag that is a power of two. */
  function HasMode(mode: nat, flag: nat): (r: bool)
    requires flag > 0
    ensures r ==> flag <= mode
  {
    (mode / flag) % 2 == 1
  }

  /** `2 ** k`. */
  function Pow2(k: nat): (r: nat)
    ensures r >= 1
  {
    if k == 0 then 1 else 2 * Pow2(k - 1)
  }

  /** Ruby's `&` on non-negative integers, bit by bit from the lowest. */
  function BitAnd(a: nat, b: nat): nat
    decreases a
  {
    if a == 0 || b == 0 then 0
    else 2 * BitAnd(a / 2, b / 2) + (if a % 2 == 1 && b % 2 == 1 then 1 else 0)
  }

  lemma MulPos(p: int, x: int)
    requires p > 0 && x >= 1
    ensures p * x >= p
  {
  }

  /** Division is the only quotient with a remainder in range. */
  lemma DivUnique(a: int, p: int, q: int, s: int)
    requires p > 0 && 0 <= s < p && a == p * q + s
    ensures a / p == q
  {
    var t, u := a / p, a % p;
    assert a == p * t + u && 0 <= u < p;
    assert p * t - p * q == p * (t - q);
    if t > q {
      MulPos(p, t - q);
    } else if t < q {
      assert p * q - p * t == p * (q - t);
      MulPos(p, q - t);
    }
  }

  lemma HalveTwice(m: nat, p: nat)
    requires p >= 1
    ensures (m / 2) / p == m / (2 * p)
  {
    var q, r := m / (2 * p), m % (2 * p);
    var x := p * q;
    assert m == 2 * x + r && 0 <= r < 2 * p;
    assert m / 2 == x + r / 2;
    DivUnique(m / 2, p, q, r / 2);
  }

  /** `mode & 2**k` keeps exactly bit `k` of the mode, so for every power-of-two flag
      `HasMode` is the source's `(mode & flag) != 0` (affinity.rb:1160-1161). */
  lemma {:induction false} BitAndPow2(mode: nat, k: nat)
    ensures BitAnd(mode, Pow2(k)) == Pow2(k) * ((mode / Pow2(k)) % 2)
    ensures HasMode(mode, Pow2(k)) <==> BitAnd(mode, Pow2(k)) != 0
  {
    if k > 0 && mode > 0 {
      BitAndPow2(mode / 2, k - 1);
      BitAndStep(mode, k);
    } else if mode > 0 {
      assert BitAnd(mode / 2, 0) == 0;
    }
    FlagBit(mode, Pow2(k));
  }

  /** One bit of `BitAndPow2`: the lowest bit of the mode drops out of `mode & 2**k`. */
  lemma BitAndStep(mode: nat, k: nat)
    requires k > 0 && mode > 0
    requires BitAnd(mode / 2, Pow2(k - 1)) == Pow2(k - 1) * (((mode / 2) / Pow2(k - 1)) % 2)
    ensures BitAnd(mode, Pow2(k)) == Pow2(k) * ((mode / Pow2(k)) % 2)
  {
    var p := Pow2(k - 1);
    assert Pow2(k) == 2 * p;
    HalveTwice(mode, p);
    BitAndEven(mode, p);
    Doubled(p, (mode / (2 * p)) % 2);
  }

  /** An even mask drops the lowest bit of the other operand. */
  lemma BitAndEven(a: nat, q: nat)
    requires a > 0 && q > 0
    ensures BitAnd(a, 2 * q) == 2 * BitAnd(a / 2, q)
  {
    assert (2 * q) / 2 == q && (2 * q) % 2 == 0;
  }

  lemma Doubled(p: int, b: int)
    ensures 2 * (p * b) == (2 * p) * b
  {
  }

  /** The flag's bit of the mode, as a multiple of the flag, is set exactly when `HasMode` says. */
  lemma FlagBit(mode: nat, f: nat)
    requires f >= 1
    ensures HasMode(mode, f) <==> f * ((mode / f) % 2) != 0
  {
    var b := (mode / f) % 2;
    if b == 1 {
      assert f * b == f;
    } else {
      assert b == 0 && f * b == 0;
    }
  }

  lemma ModeFlags()
    ensures !HasMode(0, MODE_IGNORE_OUTPUT) && !HasMode(0, MODE_IMMEDIATE_UPDATES)
    ensures HasMode(3, MODE_IGNORE_OUTPUT) && HasMode(3, MODE_IMMEDIATE_UPDATES)
    ensures HasMode(1, MODE_IGNORE_OUTPUT) && !HasMode(1, MODE_IMMEDIATE_UPDATES)
    ensures !HasMode(2, MODE_IGNORE_OUTPUT) && HasMode(2, MODE_IMMEDIATE_UPDATES)
  {
  }

  /** The segments `_savePINsi` adds, for a current segment `s`, the StringMap entries
      `ann` its registration pushed and the PIN messages `msgs` (affinity.rb:852-881):
      when the dictionary grew, the segment holding the new entries is captured first and
      the PINs go into a segment of their own. */
  function SaveSegments(s: Segment, ann: seq<(string, nat)>, msgs: seq<PinMsg>): (r: seq<Segment>)
    ensures |r| == (if ann == [] then 1 else 2)
    ensures r[0].properties == s.properties + ann && r[0].txops == s.txops && r[0].stmts == s.stmts && r[0].flushes == s.flushes
    ensures r[|r| - 1].pins == (if ann == [] then s.pins else []) + msgs
  {
    if ann == [] then [s.(pins := s.pins + msgs)]
    else [s.(properties := s.properties + ann), EmptySegment().(pins := msgs)]
  }

  /** The two ways `_savePINsi` leaves its segments, as `SaveSegments` names them. */
  lemma SavedSegments(seg0: seq<Segment>, s0: Segment, ann: seq<(string, nat)>, msgs: seq<PinMsg>,
                      seg1: seq<Segment>, s1: Segment)
    requires ann == [] ==> seg1 == seg0 && s1 == s0
    requires ann != [] ==> seg1 == seg0 + [s0.(properties := s0.properties + ann)] && s1 == EmptySegment()
    ensures seg1 + [s1.(pins := s1.pins + msgs)] == seg0 + SaveSegments(s0, ann, msgs)
    ensures var sent := SaveSegments(s0, ann, msgs); sent[|sent| - 1] == s1.(pins := s1.pins + msgs)
  {
    if ann != [] {
      assert EmptySegment().(pins := EmptySegment().pins + msgs) == EmptySegment().(pins := msgs);
    }
  }

  /** The current segment once `flush` has added its flush marker, when explicit. */
  function Marked(s: Segment, explicit: bool): (r: Segment)
    ensures r.pins == s.pins && r.stmts == s.stmts && r.txops == s.txops && r.properties == s.properties
    ensures r.flushes == s.flushes + (if explicit then 1 else 0)
  {
    if explicit then s.(flushes := s.flushes + 1) else s
  }

  /** The segments once `s` is captured after `segs`. */
  function Captured(segs: seq<Segment>, s: Segment): (r: seq<Segment>)
    ensures HasContent(s) ==> r == segs + [s]
    ensures !HasContent(s) ==> r == segs
  {
    segs + (if HasContent(s) then [s] else [])
  }

  /** What `_pushData` asks of the connection for a message: nothing when it is empty. */
  function Sent(message: seq<Segment>, token: Option<nat>, expected: bool): (r: seq<Event>)
    ensures message == [] <==> r == []
    ensures message != [] ==> r == [Posted(message, token, expected)]
  {
    if message == [] then [] else [Posted(message, token, expected)]
  }

  /** The `_endlongpost` call of `_terminate`, when a long post is open. */
  function Ended(token: Option<nat>): (r: seq<Event>)
    ensures token.None? <==> r == []
    ensures token.Some? ==> r == [EndedLongPost(token.value)]
  {
    if token.Some? then [EndedLongPost(token.value)] else []
  }

  /** The segments `_savePINsi` adds for the PIN values `docs` with a current segment `s`
      and a dictionary `d`, nothing for no PIN, or `None` when one of them fails. */
  function UpdateSegments(s: Segment, d: map<string, nat>, spMax: nat, docs: seq<PinDoc>): (r: Option<seq<Segment>>)
    ensures docs == [] ==> r == Some([])
    ensures docs != [] ==>
      (r.Some? <==> PinMessages(docs, RegisterAll(d, spMax, AllPropNames(docs))).Some?)
    ensures r.Some? && docs != [] ==> r.value != [] && r.value[|r.value| - 1].pins != []
  {
    if docs == [] then Some([])
    else
      var names := AllPropNames(docs);
      match PinMessages(docs, RegisterAll(d, spMax, names))
      case None => None
      case Some(msgs) => Some(SaveSegments(s, Announced(d, spMax, names), msgs))
  }

  /** The expect-output flag once the segments `added` of `_savePINsi` are captured
      after a flag `e`: the last of them carries the PINs. */
  function SavedFlag(e: bool, added: seq<Segment>): (r: bool)
    ensures added == [] ==> r == e
  {
    if added == [] then e else InsertsPin(added[|added| - 1].pins)
  }

  /** A flush after `_savePINsi` sends one message, which starts with the segments
      captured before the save. */
  lemma Posts(seg0: seq<Segment>, seg1: seq<Segment>, log0: seq<Event>, log1: seq<Event>,
               m: seq<Segment>, t: Option<nat>, e: bool)
    requires |seg0| <= |seg1| && seg1[..|seg0|] == seg0
    requires log1 == log0 + Sent(Captured(seg1, Marked(EmptySegment(), true)) + m, t, e)
    ensures |log1| == |log0| + 1 && log1[..|log0|] == log0 && log1[|log0|].Posted?
    ensures |seg0| <= |log1[|log0|].message| && log1[|log0|].message[..|seg0|] == seg0
  {
    var message := seg1 + [Marked(EmptySegment(), true)] + m;
    assert message[..|seg0|] == seg0;
  }

  /** The back-fill of one PIN of the answer into the PIN object it answers
      (affinity.rb:693-716): the pid first, then each value in turn, in place; a value
      that does not fill in stops it there, where the source raises. */
  method BackFillPin(pin: Pin, op: OutPin, names: map<nat, string>) returns (ok: bool)
    requires pin.Valid()
    modifies pin
    ensures pin.Valid()
    ensures pin.order == old(pin.order) && pin.props == old(pin.props) && pin.outbox == old(pin.outbox)
    ensures ok <==> FillPid(old(pin.pid), op.id).Some? && FillValues(old(pin.extras), names, op.values).Some?
    ensures ok ==> pin.pid == FillPid(old(pin.pid), op.id) && pin.extras == FillValues(old(pin.extras), names, op.values).value
  {
    var p := FillPid(pin.pid, op.id);
    if p.None? {
      return false;
    }
    pin.pid := p;
    var filled, partial := FillAll(pin.extras, names, op.values);
    pin.extras := partial;
    ok := filled.Some?;
  }

  /** The loop over the values of one PIN of the answer (affinity.rb:700-716): each value
      fills in turn; `partial` is what the Extras hold when it stops, all of it when no
      value fails and those before the failing one otherwise. */
  method FillAll(extras: map<string, seq<Extra>>, names: map<nat, string>, values: seq<OutValue>)
    returns (filled: Option<map<string, seq<Extra>>>, partial: map<string, seq<Extra>>)
    ensures filled == FillValues(extras, names, values)
    ensures partial.Keys == extras.Keys && (filled.Some? ==> partial == filled.value)
  {
    partial := extras;
    var j := 0;
    while j < |values|
      invariant j <= |values| && FillValues(extras, names, values[..j]) == Some(partial)
    {
      var next := FillValue(partial, names, values[j]);
      if next.None? {
        FillValuesLast(extras, names, values, j + 1);
        FillValuesFails(extras, names, values, j + 1);
        return None, partial;
      }
      partial := next.value;
      j := j + 1;
      FillValuesLast(extras, names, values, j);
    }
    assert values[..j] == values;
    filled := Some(partial);
  }

  /** The connection stack of one thread (`Thread.current[:AffinityConnectionStack]`,
      affinity.rb:1110-1132), connections named by number; none until first used, when
      it starts with the default connection. */
  class ConnectionStack {
    const default: nat
    var stack: Option<seq<nat>>

    constructor (default: nat)
      ensures this.default == default && stack == None
    {
      this.default := default;
      stack := None;
    }

    /** The stack as the first use leaves it. */
    function Started(): (r: seq<nat>)
      reads this
      ensures stack.None? ==> r == [default]
      ensures stack.Some? ==> r == stack.value
    {
      if stack.None? then [default] else stack.value
    }

    /** `getCurrentDbConnection`: the connection on top. */
    method Current() returns (c: Option<nat>)
      modifies this
      ensures stack == Some(old(Started()))
      ensures c == (if old(Started()) == [] then None else Some(old(Started())[|old(Started())| - 1]))
    {
      stack := Some(Started());
      var s := stack.value;
      c := if s == [] then None else Some(s[|s| - 1]);
    }

    /** `pushDbConnection`: `c` goes on top; the one it covers is returned. */
    method Push(c: nat) returns (covered: Option<nat>)
      modifies this
      ensures stack == Some(old(Started()) + [c])
      ensures covered == (if old(Started()) == [] then None else Some(old(Started())[|old(Started())| - 1]))
    {
      var s := Started();
      covered := if s == [] then None else Some(s[|s| - 1]);
      stack := Some(s + [c]);
    }

    /** `popDbConnection`: `c` must be on top, or the source raises ("Connection stack
        imbalance"); it is removed and returned. Before the first use there is nothing
        to pop. */
    method Pop(c: nat) returns (ok: bool, popped: Option<nat>)
      modifies this
      ensures old(stack).None? ==> ok && popped == None && stack == None
      ensures old(stack).Some? ==>
        var s := old(stack).value;
        (ok <==> s != [] && s[|s| - 1] == c) &&
        (ok ==> popped == Some(c) && stack == Some(s[..|s| - 1])) &&
        (!ok ==> stack == old(stack))
    {
      if stack.None? {
        return true, None;
      }
      var s := stack.value;
      if s == [] || s[|s| - 1] != c {
        return false, None;
      }
      stack := Some(s[..|s| - 1]);
      ok, popped := true, Some(c);
    }
  }

  /** No PIN object appears twice in the list. */
  predicate Unaliased(pins: seq<Pin>) {
    forall i, j :: 0 <= i < j < |pins| ==> pins[i] != pins[j]
  }

  /** The back-fill loop of `PIN.savePINs` (affinity.rb:686-717): the `i`-th PIN of the
      answer into the `i`-th PIN saved. */
  method BackFillAll(pins: seq<Pin>, out: Output) returns (ok: bool)
    requires forall k :: 0 <= k < |pins| ==> pins[k].Valid()
    modifies set k | 0 <= k < |pins| :: pins[k]
    ensures forall k :: 0 <= k < |pins| ==> pins[k].Valid()
    ensures ok && Unaliased(pins) ==>
      |out.pins| <= |pins| &&
      forall i :: 0 <= i < |out.pins| ==>
        pins[i].pid == FillPid(old(pins[i].pid), out.pins[i].id) &&
        Some(pins[i].extras) == FillValues(old(pins[i].extras), out.names, out.pins[i].values)
    ensures Unaliased(pins) && |pins| < |out.pins| ==> !ok
  {
    var ipin := 0;
    while ipin < |out.pins|
      invariant ipin <= |out.pins|
      invariant forall k :: 0 <= k < |pins| ==> pins[k].Valid()
      invariant Unaliased(pins) ==> ipin <= |pins| && forall i :: 0 <= i < ipin ==>
        pins[i].pid == FillPid(old(pins[i].pid), out.pins[i].id) &&
        Some(pins[i].extras) == FillValues(old(pins[i].extras), out.names, out.pins[i].values)
      invariant Unaliased(pins) ==> forall i :: ipin <= i < |pins| ==>
        pins[i].pid == old(pins[i].pid) && pins[i].extras == old(pins[i].extras)
    {
      if ipin >= |pins| {
        return false;
      }
      var one := BackFillPin(pins[ipin], out.pins[ipin], out.names);
      if !one {
        return false;
      }
      ipin := ipin + 1;
    }
    ok := true;
  }

  class TxCtx {
    /** SP_MAX, the last property id the store reserves. */
    const spMax: nat
    const mode: nat
    var stream: Segment
    var segments: seq<Segment>
    var expectOutput: bool
    var rc: Option<int>
    var output: Option<Output>
    var propDict: map<string, nat>
    var lpToken: Option<nat>
    var txCnt: int
    var pinUpdates: seq<PinDoc>
    var log: seq<Event>

    /** No empty segment is ever kept, and the dictionary holds distinct ids above SP_MAX. */
    ghost predicate Valid()
      reads this
    {
      (forall k :: 0 <= k < |segments| ==> HasContent(segments[k])) && Allocated(propDict, spMax)
    }

    constructor (spMax: nat, mode: nat)
      ensures Valid()
      ensures this.spMax == spMax && this.mode == mode
      ensures stream == EmptySegment() && segments == [] && !expectOutput
      ensures rc == None && output == None && propDict == map[] && lpToken == None
      ensures txCnt == 0 && pinUpdates == [] && log == []
    {
      this.spMax := spMax;
      this.mode := mode;
      stream := EmptySegment();
      segments := [];
      expectOutput := false;
      rc := None;
      output := None;
      propDict := map[];
      lpToken := None;
      txCnt := 0;
      pinUpdates := [];
      log := [];
    }

    function IsOutputIgnored(): (r: bool)
      reads this
      ensures r <==> HasMode(mode, MODE_IGNORE_OUTPUT)
    {
      HasMode(mode, MODE_IGNORE_OUTPUT)
    }

    function PerformImmediateUpdates(): (r: bool)
      reads this
      ensures r <==> HasMode(mode, MODE_IMMEDIATE_UPDATES)
    {
      HasMode(mode, MODE_IMMEDIATE_UPDATES)
    }

    /** `capture`: the current segment is kept when it has content, ignored otherwise, and
        a new one is started. */
    method Capture()
      requires Valid()
      modifies this
      ensures Valid()
      ensures segments == old(segments) + (if HasContent(old(stream)) then [old(stream)] else [])
      ensures expectOutput == ExpectAfter(old(stream), old(expectOutput))
      ensures stream == EmptySegment()
      ensures rc == old(rc) && output == old(output) && propDict == old(propDict) && lpToken == old(lpToken)
      ensures txCnt == old(txCnt) && pinUpdates == old(pinUpdates) && log == old(log)
    {
      if stream.pins != [] {
        expectOutput := InsertsPin(stream.pins);
        segments := segments + [stream];
      } else if stream.stmts > 0 {
        expectOutput := true;
        segments := segments + [stream];
      } else if stream.txops != [] || stream.flushes > 0 || stream.properties != [] {
        segments := segments + [stream];
      }
      stream := EmptySegment();
    }

    /** `_pushData`: every captured segment goes out as one message, over the long post
        of the transaction when there is one, and the answer is kept when the segments
        expected one; an empty message is not sent. Outside a transaction the dictionary
        of property ids is forgotten. */
    method PushData(reply: Reply)
      requires Valid()
      modifies this
      ensures Valid()
      ensures segments == [] && !expectOutput && stream == old(stream)
      ensures txCnt == 0 ==> propDict == map[]
      ensures txCnt != 0 ==> propDict == old(propDict)
      ensures log == old(log) + Sent(old(segments), lpToken, old(expectOutput))
      ensures rc == (if old(segments) == [] then None else reply.rc)
      ensures output == (if old(segments) != [] && old(expectOutput) then reply.raw else None)
      ensures lpToken == old(lpToken) && txCnt == old(txCnt) && pinUpdates == old(pinUpdates)
    {
      var message := segments;
      var expected := expectOutput;
      if txCnt == 0 {
        propDict := map[];
      }
      segments := [];
      expectOutput := false;
      // An empty message is not sent; otherwise the answer is kept only when expected.
      rc := if message == [] then None else reply.rc;
      output := if message != [] && expected then reply.raw else None;
      log := if message == [] then log else log + [Posted(message, lpToken, expected)];
    }

    /** `_preparePBPropIDs` for a list of names: each one the dictionary lacks gets the
        next id and a StringMap entry in the current segment. */
    method RegisterNames(names: seq<string>)
      requires Valid()
      modifies this
      ensures Valid()
      ensures propDict == RegisterAll(old(propDict), spMax, names)
      ensures |propDict| == |old(propDict)| + |Announced(old(propDict), spMax, names)|
      ensures stream == old(stream).(properties := old(stream).properties + Announced(old(propDict), spMax, names))
      ensures segments == old(segments) && expectOutput == old(expectOutput) && rc == old(rc) && output == old(output)
      ensures lpToken == old(lpToken) && txCnt == old(txCnt) && pinUpdates == old(pinUpdates) && log == old(log)
    {
      var d, ann := PrepareIds(propDict, spMax, names);
      RegisterAllAllocates(propDict, spMax, names);
      propDict := d;
      stream := stream.(properties := stream.properties + ann);
    }

    /** The first loop of `_savePINsi` (affinity.rb:855-861): the names of every PIN are
        registered, and the segment holding the new StringMap entries, if any, is
        captured. */
    method PrepareNames(names: seq<string>)
      requires Valid()
      modifies this
      ensures Valid()
      ensures var ann := Announced(old(propDict), spMax, names);
        propDict == RegisterAll(old(propDict), spMax, names) &&
        (ann == [] ==> segments == old(segments) && stream == old(stream)) &&
        (ann != [] ==> segments == old(segments) + [old(stream).(properties := old(stream).properties + ann)] &&
                       stream == EmptySegment())
      ensures expectOutput == (if Announced(old(propDict), spMax, names) == [] then old(expectOutput)
                               else ExpectAfter(old(stream), old(expectOutput)))
      ensures rc == old(rc) && output == old(output) && lpToken == old(lpToken)
      ensures txCnt == old(txCnt) && pinUpdates == old(pinUpdates) && log == old(log)
    {
      ghost var ann := Announced(propDict, spMax, names);
      var before := |propDict|;
      RegisterNames(names);
      if |propDict| > before {
        Capture();
      } else {
        assert old(stream).properties + ann == old(stream).properties;
      }
    }

    /** `_savePINsi`: registers the names of every PIN, captures the new StringMap
        entries when there are any, then adds one message per PIN and captures them; a
        PIN whose message cannot be built is where the source raises. */
    method SavePinsI(docs: seq<PinDoc>) returns (ok: bool)
      requires Valid() && docs != []
      modifies this
      ensures Valid()
      ensures propDict == RegisterAll(old(propDict), spMax, AllPropNames(docs))
      ensures ok <==> PinMessages(docs, propDict).Some?
      ensures ok ==>
        var sent := SaveSegments(old(stream), Announced(old(propDict), spMax, AllPropNames(docs)), PinMessages(docs, propDict).value);
        segments == old(segments) + sent && stream == EmptySegment() && expectOutput == InsertsPin(sent[|sent| - 1].pins)
      ensures rc == old(rc) && output == old(output) && lpToken == old(lpToken)
      ensures txCnt == old(txCnt) && pinUpdates == old(pinUpdates) && log == old(log)
    {
      ghost var seg0 := segments;
      var names := AllPropNames(docs);
      ghost var ann := Announced(propDict, spMax, names);
      PrepareNames(names);
      ghost var s1 := stream;
      ghost var seg1 := segments;
      var msgs, built := BuildMessages(docs, propDict);
      // On a failure the PINs before the failing one are left in the current segment.
      stream := stream.(pins := stream.pins + msgs);
      if !built {
        return false;
      }
      ghost var last := s1.(pins := s1.pins + msgs);
      assert HasContent(last);
      Capture();
      assert segments == seg1 + [last];
      SavedSegments(seg0, old(stream), ann, msgs, seg1, s1);
      ok := true;
    }

    /** `_applyPINUpdates`: the deferred PIN updates are saved together, then forgotten;
        a failure leaves them pending. */
    method ApplyPinUpdates() returns (ok: bool)
      requires Valid()
      modifies this
      ensures Valid()
      ensures var m := UpdateSegments(old(stream), old(propDict), spMax, old(pinUpdates));
        (ok <==> m.Some?) &&
        (ok ==> segments == old(segments) + m.value && expectOutput == SavedFlag(old(expectOutput), m.value))
      ensures propDict == RegisterAll(old(propDict), spMax, AllPropNames(old(pinUpdates)))
      ensures pinUpdates == (if ok then [] else old(pinUpdates))
      ensures stream == (if old(pinUpdates) == [] then old(stream) else if ok then EmptySegment() else stream)
      ensures rc == old(rc) && output == old(output) && lpToken == old(lpToken) && txCnt == old(txCnt) && log == old(log)
    {
      if pinUpdates == [] {
        return true;
      }
      ok := SavePinsI(pinUpdates);
      if ok {
        pinUpdates := [];
      }
    }

    /** `flush`: an explicit flush adds a flush marker; the current segment is captured,
        the deferred updates are saved, and everything captured is sent. */
    method Flush(explicit: bool, reply: Reply) returns (ok: bool)
      requires Valid()
      modifies this
      ensures Valid()
      ensures var marked := Marked(old(stream), explicit);
        var m := UpdateSegments(EmptySegment(), old(propDict), spMax, old(pinUpdates));
        (ok <==> m.Some?) &&
        (ok ==> var message := Captured(old(segments), marked) + m.value;
           var expected := SavedFlag(ExpectAfter(marked, old(expectOutput)), m.value);
           log == old(log) + Sent(message, lpToken, expected) &&
           rc == (if message == [] then None else reply.rc) &&
           output == (if message != [] && expected then reply.raw else None))
      ensures ok ==> segments == [] && stream == EmptySegment() && pinUpdates == [] && !expectOutput
      ensures ok ==> propDict == (if txCnt == 0 then map[] else RegisterAll(old(propDict), spMax, AllPropNames(old(pinUpdates))))
      ensures lpToken == old(lpToken) && txCnt == old(txCnt)
    {
      if explicit {
        stream := stream.(flushes := stream.flushes + 1);
      }
      Capture();
      ok := ApplyPinUpdates();
      if !ok {
        return;
      }
      PushData(reply);
    }

    /** `startTx`: the first transaction opens a long post with the connection (whose
        token is `token`); each adds a TX_START segment and one level of nesting. */
    method StartTx(token: nat)
      requires Valid()
      modifies this
      ensures Valid()
      ensures lpToken == (if old(lpToken).None? then Some(token) else old(lpToken))
      ensures log == old(log) + (if old(lpToken).None? then [BeganLongPost(token)] else [])
      ensures txCnt == old(txCnt) + 1
      ensures var s := old(stream).(txops := old(stream).txops + [TxStart]);
        segments == old(segments) + [s] && expectOutput == ExpectAfter(s, old(expectOutput))
      ensures stream == EmptySegment()
      ensures propDict == old(propDict) && pinUpdates == old(pinUpdates) && rc == old(rc) && output == old(output)
    {
      if lpToken.None? {
        lpToken := Some(token);
        log := log + [BeganLongPost(token)];
      }
      stream := stream.(txops := stream.txops + [TxStart]);
      Capture();
      txCnt := txCnt + 1;
    }

    /** `_terminate`: the deferred updates are saved, everything captured is sent, the
        long post is closed, the dictionary forgotten and the connection told to drop
        its context. A failure to save stops it there. */
    method Terminate(reply: Reply) returns (ok: bool)
      requires Valid()
      modifies this
      ensures Valid()
      ensures var m := UpdateSegments(old(stream), old(propDict), spMax, old(pinUpdates));
        (ok <==> m.Some?) &&
        (ok ==>
           log == old(log) + Sent(old(segments) + m.value, old(lpToken), SavedFlag(old(expectOutput), m.value))
             + Ended(old(lpToken)) + [ResetByConnection])
      ensures ok ==> segments == [] && pinUpdates == [] && propDict == map[] && lpToken == None && !expectOutput
      ensures txCnt == old(txCnt)
    {
      ok := ApplyPinUpdates();
      if !ok {
        return;
      }
      PushData(reply);
      EndLongPost();
    }

    /** The end of `_terminate`: the long post, when one is open, is closed, the
        dictionary forgotten, and the connection told to drop its context. */
    method EndLongPost()
      requires Valid()
      modifies this
      ensures Valid()
      ensures log == old(log) + Ended(old(lpToken)) + [ResetByConnection]
      ensures lpToken == None && propDict == map[]
      ensures stream == old(stream) && segments == old(segments) && expectOutput == old(expectOutput)
      ensures rc == old(rc) && output == old(output) && txCnt == old(txCnt) && pinUpdates == old(pinUpdates)
    {
      if lpToken.Some? {
        log := log + [EndedLongPost(lpToken.value)];
        lpToken := None;
      }
      propDict := map[];
      log := log + [ResetByConnection];
    }

    /** `commitTx` (`op` TX_COMMIT) and `rollbackTx` (`op` TX_ROLLBACK): a segment with
        the operation is captured and one level of nesting ends; the outermost one
        terminates the context. */
    method EndTx(op: TxOp, reply: Reply) returns (ok: bool)
      requires Valid() && op != TxStart
      modifies this
      ensures Valid()
      ensures txCnt == old(txCnt) - 1
      ensures var s := old(stream).(txops := old(stream).txops + [op]);
        var e := ExpectAfter(s, old(expectOutput));
        var m := UpdateSegments(EmptySegment(), old(propDict), spMax, old(pinUpdates));
        (txCnt != 0 ==> (ok && segments == old(segments) + [s] && expectOutput == e && stream == EmptySegment() &&
           log == old(log) && pinUpdates == old(pinUpdates) && propDict == old(propDict) && lpToken == old(lpToken))) &&
        (txCnt == 0 ==> (ok <==> m.Some?)) &&
        (txCnt == 0 && ok ==>
           (log == old(log) + Sent(old(segments) + [s] + m.value, old(lpToken), SavedFlag(e, m.value))
              + Ended(old(lpToken)) + [ResetByConnection] &&
            segments == [] && pinUpdates == [] && propDict == map[] && lpToken == None))
    {
      stream := stream.(txops := stream.txops + [op]);
      Capture();
      txCnt := txCnt - 1;
      ok := true;
      if txCnt == 0 {
        ok := Terminate(reply);
      }
    }

    /** `recordPINUpdate`: an update is deferred, except in the immediate-updates mode,
        where the source raises. */
    method RecordPinUpdate(doc: PinDoc) returns (ok: bool)
      requires Valid()
      modifies this
      ensures Valid()
      ensures ok <==> !PerformImmediateUpdates()
      ensures pinUpdates == old(pinUpdates) + (if ok then [doc] else [])
      ensures stream == old(stream) && segments == old(segments) && expectOutput == old(expectOutput)
      ensures rc == old(rc) && output == old(output) && propDict == old(propDict)
      ensures lpToken == old(lpToken) && txCnt == old(txCnt) && log == old(log)
    {
      if PerformImmediateUpdates() {
        return false;
      }
      pinUpdates := pinUpdates + [doc];
      ok := true;
    }

    /** The first half of `PIN.savePINs` (affinity.rb:654-662): `_savePINsi`, then an
        explicit flush, which always sends a message, and that message starts with what
        was captured before. */
    method SaveAndFlush(docs: seq<PinDoc>, reply: Reply) returns (ok: bool)
      requires Valid() && docs != []
      modifies this
      ensures Valid()
      ensures ok ==>
        |log| == |old(log)| + 1 && log[..|old(log)|] == old(log) && log[|old(log)|].Posted? &&
        |old(segments)| <= |log[|old(log)|].message| && log[|old(log)|].message[..|old(segments)|] == old(segments)
      ensures ok ==> segments == [] && stream == EmptySegment() && pinUpdates == []
      ensures ok ==> rc == reply.rc && (output.Some? ==> output == reply.raw)
      ensures lpToken == old(lpToken) && txCnt == old(txCnt)
    {
      ghost var seg0 := segments;
      ok := SavePinsI(docs);
      if !ok {
        return;
      }
      ghost var seg1 := segments;
      ghost var log0 := log;
      ghost var e0 := expectOutput;
      ghost var m := UpdateSegments(EmptySegment(), propDict, spMax, pinUpdates);
      assert seg1[..|seg0|] == seg0;
      ok := Flush(true, reply);
      if !ok {
        return;
      }
      Posts(seg0, seg1, log0, log, m.value, lpToken, SavedFlag(ExpectAfter(Marked(EmptySegment(), true), e0), m.value));
    }

    /** `PIN.savePINs` for PIN values that nothing else refers to, the update PINs of
        `_handlePINUpdate`: they are serialized and flushed at once; the answer, when the
        store gave one and the mode asks for it, is back-filled into them, which only
        decides whether the source raises, and is then dropped. */
    method SaveDocs(docs: seq<PinDoc>, reply: Reply) returns (ok: bool)
      requires Valid()
      modifies this
      ensures Valid()
      ensures docs == [] ==> ok && unchanged(this)
      ensures docs != [] && ok ==>
        |log| == |old(log)| + 1 && log[..|old(log)|] == old(log) && log[|old(log)|].Posted? &&
        |old(segments)| <= |log[|old(log)|].message| && log[|old(log)|].message[..|old(segments)|] == old(segments)
      ensures docs != [] && ok ==> segments == [] && stream == EmptySegment() && pinUpdates == []
      ensures docs != [] && ok && rc.Some? && !IsOutputIgnored() ==> output == None
      ensures lpToken == old(lpToken) && txCnt == old(txCnt)
    {
      if docs == [] {
        return true;
      }
      ok := SaveAndFlush(docs, reply);
      if !ok || rc.None? || IsOutputIgnored() || output.None? {
        return;
      }
      ok := FillsAll(docs, output.value);
      if ok {
        output := None;
      }
    }

    /** `_handlePINUpdate`: an update is deferred when the context is inside a
        transaction and not in the immediate-updates mode, and saved at once otherwise. */
    method HandlePinUpdate(doc: PinDoc, reply: Reply) returns (ok: bool, deferred: bool)
      requires Valid()
      modifies this
      ensures Valid()
      ensures deferred <==> !PerformImmediateUpdates() && old(txCnt) != 0
      ensures deferred ==> ok && pinUpdates == old(pinUpdates) + [doc]
      ensures deferred ==> segments == old(segments) && stream == old(stream) && log == old(log)
      ensures !deferred && ok ==> |log| == |old(log)| + 1 && log[..|old(log)|] == old(log) && log[|old(log)|].Posted?
      ensures txCnt == old(txCnt)
    {
      deferred := !PerformImmediateUpdates() && txCnt != 0;
      if deferred {
        ok := RecordPinUpdate(doc);
      } else {
        ok := SaveDocs([doc], reply);
      }
    }

    /** `PIN.savePINs` (affinity.rb:648-717) for PIN objects: they are serialized and
        flushed at once; when the store answered and the mode asks for the answer, its
        PINs are back-filled, in order, into the objects saved (`filled`), and the answer
        is dropped. An answer naming more PINs than were saved, or one that does not
        fill in, is where the source raises. */
    method SavePins(pins: seq<Pin>, reply: Reply) returns (ok: bool, filled: bool)
      requires Valid() && forall k :: 0 <= k < |pins| ==> pins[k].Valid()
      modifies this, set k | 0 <= k < |pins| :: pins[k]
      ensures Valid() && forall k :: 0 <= k < |pins| ==> pins[k].Valid()
      ensures pins == [] ==> ok && !filled && unchanged(this)
      ensures pins != [] && ok ==> |log| == |old(log)| + 1 && log[..|old(log)|] == old(log) && log[|old(log)|].Posted?
      ensures filled ==> ok && rc == reply.rc && rc.Some? && !IsOutputIgnored() && reply.raw.Some? && output == None
      ensures filled && Unaliased(pins) ==>
        var out := reply.raw.value;
        |out.pins| <= |pins| &&
        forall i :: 0 <= i < |out.pins| ==>
          pins[i].pid == FillPid(old(pins[i].pid), out.pins[i].id) &&
          Some(pins[i].extras) == FillValues(old(pins[i].extras), out.names, out.pins[i].values)
      ensures ok && !filled ==> forall k :: 0 <= k < |pins| ==> pins[k].pid == old(pins[k].pid) && pins[k].extras == old(pins[k].extras)
      ensures lpToken == old(lpToken) && txCnt == old(txCnt)
    {
      if pins == [] {
        return true, false;
      }
      var docs: seq<PinDoc> := [];
      for k := 0 to |pins|
        invariant |docs| == k
      {
        docs := docs + [pins[k].Doc()];
      }
      ok := SaveAndFlush(docs, reply);
      filled := false;
      if !ok || rc.None? || IsOutputIgnored() || output.None? {
        return;
      }
      ok := BackFillAll(pins, output.value);
      if !ok {
        return;
      }
      output := None;
      filled := true;
    }
  }
}
