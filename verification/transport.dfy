/**
 The USB-to-SPI bridge (libmpsse) as seen by the flash driver.

 The bridge is not run: it is a script of replies, consumed one per call
 that reports a result the caller looks at (`Write`, `Read`, `PinHigh`,
 `PinLow`). `Start`, `Stop` and `Close` return nothing the callers inspect,
 so they consume no reply. Every call is recorded in a trace of events, and
 each event records what the bridge answered, so that properties of a run can
 be stated on its trace alone. An exhausted script fails every further call.
 */
module Transport {

  type byte = b: int | 0 <= b < 0x100

  datatype Option<+T> = None | Some(value: T)

  /** One scripted bridge answer: `Ack` completes a call (and carries the bytes
      a `Read` returns), `Nak` fails it. */
  datatype Reply = Nak | Ack(data: seq<byte>)

  datatype Event =
    | Start
    | Stop
    | Write(bytes: seq<byte>, ok: bool)
    | Read(count: nat, got: Option<seq<byte>>)
    | PinHigh(ok: bool)
    | PinLow(ok: bool)
    | Close

  /** What a call produced, the events it caused and the script left over. */
  datatype Run<+T> = Run(value: T, trace: seq<Event>, rest: seq<Reply>)

  /** `rest` is what remains of `s` after some replies were taken from its front. */
  predicate Consumes(s: seq<Reply>, rest: seq<Reply>) {
    |rest| <= |s| && rest == s[|s| - |rest|..]
  }

  lemma ConsumesTransitive(s: seq<Reply>, m: seq<Reply>, r: seq<Reply>)
    requires Consumes(s, m) && Consumes(m, r)
    ensures Consumes(s, r)
  {
    assert r == s[|s| - |m|..][|m| - |r|..];
  }

  /** `Write(buf, n)`: succeeds iff the next reply acknowledges it. */
  function WriteOut(bytes: seq<byte>, s: seq<Reply>): (r: Run<bool>)
    ensures r.value <==> |s| > 0 && s[0].Ack?
    ensures r.trace == [Write(bytes, r.value)]
    ensures r.rest == if |s| > 0 then s[1..] else s
  {
    if |s| > 0 then Run(s[0].Ack?, [Write(bytes, s[0].Ack?)], s[1..])
    else Run(false, [Write(bytes, false)], s)
  }

  /** `Read(n)`: a buffer of exactly `n` bytes, or NULL. A reply of any other
      length is a failed read. */
  function ReadIn(n: nat, s: seq<Reply>): (r: Run<Option<seq<byte>>>)
    ensures r.value.Some? <==> |s| > 0 && s[0].Ack? && |s[0].data| == n
    ensures r.value.Some? ==> r.value.value == s[0].data
    ensures r.trace == [Read(n, r.value)]
    ensures r.rest == if |s| > 0 then s[1..] else s
  {
    if |s| > 0 && s[0].Ack? && |s[0].data| == n then Run(Some(s[0].data), [Read(n, Some(s[0].data))], s[1..])
    else if |s| > 0 then Run(None, [Read(n, None)], s[1..])
    else Run(None, [Read(n, None)], s)
  }

  /** `PinHigh(GPIOL3)` when `high`, `PinLow(GPIOL3)` otherwise. */
  function DrivePin(high: bool, s: seq<Reply>): (r: Run<bool>)
    ensures r.value <==> |s| > 0 && s[0].Ack?
    ensures r.trace == [if high then PinHigh(r.value) else PinLow(r.value)]
    ensures r.rest == if |s| > 0 then s[1..] else s
  {
    var ok := |s| > 0 && s[0].Ack?;
    Run(ok, [if high then PinHigh(ok) else PinLow(ok)], if |s| > 0 then s[1..] else s)
  }

  // ---------------------------------------------------------------------
  // Transactions

  /** From state `open` (inside a Start..Stop transaction or not), `t` is a
      sequence of transactions: data moves only inside a transaction, pins
      and Close only outside one, and the trace ends outside. */
  predicate FramedFrom(t: seq<Event>, open: bool)
    decreases |t|
  {
    if t == [] then !open
    else match t[0]
      case Start => !open && FramedFrom(t[1..], true)
      case Stop => open && FramedFrom(t[1..], false)
      case Write(_, _) => open && FramedFrom(t[1..], true)
      case Read(_, _) => open && FramedFrom(t[1..], true)
      case _ => !open && FramedFrom(t[1..], false)
  }

  /** Every Start is matched by exactly one Stop, and nothing else is unbalanced. */
  predicate Framed(t: seq<Event>) {
    FramedFrom(t, false)
  }

  /** A trace with one Stop too many at its end: `error:` fallthrough in the erases. */
  predicate ExtraStop(t: seq<Event>) {
    |t| > 0 && t[|t| - 1] == Stop && Framed(t[..|t| - 1])
  }

  lemma {:induction false} FramedFromConcat(a: seq<Event>, b: seq<Event>, open: bool)
    requires FramedFrom(a, open) && Framed(b)
    ensures FramedFrom(a + b, open)
    decreases |a|
  {
    if a == [] {
      assert a + b == b;
    } else {
      assert (a + b)[0] == a[0];
      assert (a + b)[1..] == a[1..] + b;
      match a[0]
      case Start => FramedFromConcat(a[1..], b, true);
      case Stop => FramedFromConcat(a[1..], b, false);
      case Write(_, _) => FramedFromConcat(a[1..], b, true);
      case Read(_, _) => FramedFromConcat(a[1..], b, true);
      case _ => FramedFromConcat(a[1..], b, false);
    }
  }

  lemma FramedConcat(a: seq<Event>, b: seq<Event>)
    requires Framed(a) && Framed(b)
    ensures Framed(a + b)
  {
    FramedFromConcat(a, b, false);
  }

  /** A framed trace never ends with an unmatched Stop. */
  lemma {:induction false} FramedFromNoExtraStop(t: seq<Event>, open: bool)
    requires FramedFrom(t, open)
    ensures !FramedFrom(t + [Stop], open)
    decreases |t|
  {
    if t == [] {
    } else {
      assert (t + [Stop])[1..] == t[1..] + [Stop];
      match t[0]
      case Start => FramedFromNoExtraStop(t[1..], true);
      case Stop => FramedFromNoExtraStop(t[1..], false);
      case Write(_, _) => FramedFromNoExtraStop(t[1..], true);
      case Read(_, _) => FramedFromNoExtraStop(t[1..], true);
      case _ => FramedFromNoExtraStop(t[1..], false);
    }
  }

  lemma FramedExcludesExtraStop(t: seq<Event>)
    ensures ExtraStop(t) ==> !Framed(t)
  {
    if ExtraStop(t) {
      var u := t[..|t| - 1];
      assert t == u + [Stop];
      FramedFromNoExtraStop(u, false);
    }
  }

  /** The trace does not end inside a transaction (after a Start or a Write). */
  predicate Settled(t: seq<Event>) {
    |t| == 0 || !(t[|t| - 1].Start? || t[|t| - 1].Write?)
  }

  lemma SettledConcat(a: seq<Event>, b: seq<Event>)
    requires Settled(a) && Settled(b)
    ensures Settled(a + b)
  {
    if |b| > 0 {
      assert (a + b)[|a + b| - 1] == b[|b| - 1];
    } else {
      assert a + b == a;
    }
  }

  // ---------------------------------------------------------------------
  // Commands: the first Write of each transaction

  /** One transaction seen from its head: the bytes of its first Write, whether
      the bridge accepted them, and the event that followed. */
  datatype Command = Command(bytes: seq<byte>, ok: bool, next: Event)

  /** The commands of a trace, in order: every Start immediately followed by
      a Write opens one. */
  function Commands(t: seq<Event>): seq<Command>
    decreases |t|
  {
    if |t| < 2 then []
    else if t[0].Start? && t[1].Write? then
      [Command(t[1].bytes, t[1].ok, if |t| > 2 then t[2] else Stop)] + Commands(t[1..])
    else Commands(t[1..])
  }

  lemma {:induction false} CommandsConcat(a: seq<Event>, b: seq<Event>)
    requires Settled(a)
    ensures Commands(a + b) == Commands(a) + Commands(b)
    decreases |a|
  {
    if a == [] {
      assert a + b == b;
    } else if |a| == 1 {
      assert (a + b)[1..] == b;
      assert Commands(a) == [];
    } else {
      assert (a + b)[1..] == a[1..] + b;
      CommandsConcat(a[1..], b);
      if |a| == 2 {
        assert !(a[1].Write?);
      }
    }
  }

  /** The first byte of a command, or -1 for an empty write. */
  function Opcode(c: Command): int {
    if |c.bytes| > 0 then c.bytes[0] else -1
  }

  /** The commands of `cs` whose opcode is in `ops`, in order. */
  function Select(cs: seq<Command>, ops: set<int>): (r: seq<Command>)
    ensures |r| <= |cs|
    ensures forall i :: 0 <= i < |r| ==> Opcode(r[i]) in ops
  {
    if cs == [] then []
    else (if Opcode(cs[0]) in ops then [cs[0]] else []) + Select(cs[1..], ops)
  }

  lemma {:induction false} SelectConcat(a: seq<Command>, b: seq<Command>, ops: set<int>)
    ensures Select(a + b, ops) == Select(a, ops) + Select(b, ops)
    decreases |a|
  {
    if a == [] {
      assert a + b == b;
    } else {
      assert (a + b)[1..] == a[1..] + b;
      SelectConcat(a[1..], b, ops);
    }
  }

  lemma {:induction false} SelectNone(cs: seq<Command>, ops: set<int>)
    requires forall i :: 0 <= i < |cs| ==> Opcode(cs[i]) !in ops
    ensures Select(cs, ops) == []
    decreases |cs|
  {
    if cs != [] {
      SelectNone(cs[1..], ops);
    }
  }

  /** The opcodes of a sequence of commands. */
  function Opcodes(cs: seq<Command>): (r: seq<int>)
    ensures |r| == |cs|
    ensures forall i :: 0 <= i < |cs| ==> r[i] == Opcode(cs[i])
  {
    seq(|cs|, i requires 0 <= i < |cs| => Opcode(cs[i]))
  }

  // ---------------------------------------------------------------------
  // Generic selection

  function Filter<T>(xs: seq<T>, p: T -> bool): (r: seq<T>)
    ensures |r| <= |xs|
    ensures forall i :: 0 <= i < |r| ==> p(r[i])
  {
    if xs == [] then []
    else (if p(xs[0]) then [xs[0]] else []) + Filter(xs[1..], p)
  }

  lemma {:induction false} FilterConcat<T>(a: seq<T>, b: seq<T>, p: T -> bool)
    ensures Filter(a + b, p) == Filter(a, p) + Filter(b, p)
    decreases |a|
  {
    if a == [] {
      assert a + b == b;
    } else {
      assert (a + b)[1..] == a[1..] + b;
      FilterConcat(a[1..], b, p);
    }
  }

  lemma FilterNone<T>(xs: seq<T>, p: T -> bool)
    requires forall i :: 0 <= i < |xs| ==> !p(xs[i])
    ensures Filter(xs, p) == []
  {
    if xs != [] {
      FilterNone(xs[1..], p);
    }
  }

  /** Only bus traffic: no pin is driven and the device is not closed. */
  predicate BusOnly(t: seq<Event>) {
    forall i :: 0 <= i < |t| ==> t[i].Start? || t[i].Stop? || t[i].Write? || t[i].Read?
  }

  /** A transaction around bus events is bus events. */
  lemma BusOnlyFrame(body: seq<Event>)
    requires BusOnly(body)
    ensures BusOnly([Start] + body + [Stop])
  {
    BusOnlyConcat([Start], body);
    BusOnlyConcat([Start] + body, [Stop]);
  }

  /** The same for a transaction of two writes. */
  lemma BusOnlyFrame2(a: seq<Event>, b: seq<Event>)
    requires BusOnly(a) && BusOnly(b)
    ensures BusOnly([Start] + a + b + [Stop])
  {
    BusOnlyConcat([Start], a);
    BusOnlyConcat([Start] + a, b);
    BusOnlyConcat([Start] + a + b, [Stop]);
  }

  lemma BusOnlyConcat(a: seq<Event>, b: seq<Event>)
    requires BusOnly(a) && BusOnly(b)
    ensures BusOnly(a + b)
  {
    forall i | 0 <= i < |a + b|
      ensures (a + b)[i].Start? || (a + b)[i].Stop? || (a + b)[i].Write? || (a + b)[i].Read?
    {
      if i >= |a| {
        assert (a + b)[i] == b[i - |a|];
      }
    }
  }

  predicate IsPin(e: Event) {
    e.PinHigh? || e.PinLow?
  }

  /** The PROGRAM_B pin operations of a trace, in order. */
  function Pins(t: seq<Event>): seq<Event> {
    Filter(t, IsPin)
  }

  /** The number of `Close` events of a trace. */
  function Closes(t: seq<Event>): nat
    decreases |t|
  {
    if t == [] then 0 else (if t[0].Close? then 1 else 0) + Closes(t[1..])
  }

  lemma {:induction false} ClosesConcat(a: seq<Event>, b: seq<Event>)
    ensures Closes(a + b) == Closes(a) + Closes(b)
    decreases |a|
  {
    if a == [] {
      assert a + b == b;
    } else {
      assert (a + b)[1..] == a[1..] + b;
      ClosesConcat(a[1..], b);
    }
  }

  lemma {:induction false} BusOnlyQuiet(t: seq<Event>)
    requires BusOnly(t)
    ensures Pins(t) == [] && Closes(t) == 0
    decreases |t|
  {
    FilterNone(t, IsPin);
    if t != [] {
      BusOnlyQuiet(t[1..]);
    }
  }
}
