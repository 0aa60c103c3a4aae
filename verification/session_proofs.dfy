/**
 Properties of the loader's sessions: the identity gate, the PROGRAM_B
 discipline of `erase_chip` and `flash` (once the pin is held it is released
 and the device closed on every path that returns), what a successful session
 did to the chip, and the command-line grammar of `main` against a reference
 reading of its usage text.
 */
module SessionProofs {
  import opened Transport
  import opened N25Q128A
  import opened N25Q128AProofs
  import opened SaturnLoader
  import opened SaturnLoaderProofs
  import opened SaturnLoaderOutcomes
  import opened Session

  /** The summary of a trace that sends nothing that reads the array or changes
      the chip. */
  const Untouched := Summary([], [], [], [])

  // ---------------------------------------------------------------------
  // Trace helpers

  /** The identify command is neither a read of the array nor a mutation. */
  lemma IdentifySummary(s: seq<Reply>)
    ensures Settled(Identify(s).trace)
    ensures Summarise(Identify(s).trace) == Untouched
  {
    IdentifyProtocol(s);
    var t := Identify(s).trace;
    IdentifyQuiet(t, Commands(t)[0]);
  }

  lemma IdentifyQuiet(t: seq<Event>, c: Command)
    requires Commands(t) == [c] && c.bytes == [ID]
    ensures Summarise(t) == Untouched
    ensures Assess(t) == Outcomes([], [])
  {
    OfOne(c);
    OutcomesOfOne(c);
  }

  /** A tail with no transaction start summarises as nothing. */
  lemma NoCommands(t: seq<Event>)
    requires forall i :: 0 <= i < |t| ==> !t[i].Start?
    ensures Commands(t) == [] && Summarise(t) == Untouched
    decreases |t|
  {
    if |t| >= 2 {
      NoCommands(t[1..]);
    }
  }

  /** Pin operations and the close, alone. */
  lemma PinsAndClose(p: Event)
    requires IsPin(p)
    ensures Pins([p]) == [p] && Closes([p]) == 0
    ensures Pins([Close]) == [] && Closes([Close]) == 1
    ensures Pins([p, Close]) == [p] && Closes([p, Close]) == 1
  {
    assert [p][1..] == [];
    assert [Close][1..] == [];
    assert [p, Close][1..] == [Close];
  }

  /** Appending events that start no transaction adds nothing to the summary,
      keeps the trace settled, and adds their pins and closes. */
  lemma Append(x: seq<Event>, y: seq<Event>)
    requires Settled(x) && 0 < |y| && forall i :: 0 <= i < |y| ==> !y[i].Start? && !y[i].Write?
    ensures Settled(x + y)
    ensures Summarise(x + y) == Summarise(x)
    ensures Pins(x + y) == Pins(x) + Pins(y)
    ensures Closes(x + y) == Closes(x) + Closes(y)
  {
    NoCommands(y);
    SummariseConcat(x, y);
    FilterConcat(x, y, IsPin);
    ClosesConcat(x, y);
  }

  /** Appending settled bus work. */
  lemma AppendBus(x: seq<Event>, w: seq<Event>)
    requires Settled(x) && Settled(w) && BusOnly(w)
    ensures Settled(x + w)
    ensures Summarise(x + w) == Join(Summarise(x), Summarise(w))
    ensures Pins(x + w) == Pins(x) && Closes(x + w) == Closes(x)
  {
    SettledConcat(x, w);
    SummariseConcat(x, w);
    BusOnlyQuiet(w);
    FilterConcat(x, w, IsPin);
    ClosesConcat(x, w);
  }

  /** Bus work `w` held between the pin operations `h` and `q` and followed by a
      close. */
  lemma Held(a: seq<Event>, h: seq<Event>, w: seq<Event>, q: seq<Event>)
    requires Settled(a) && Settled(w) && BusOnly(w)
    requires |h| == 1 && IsPin(h[0]) && |q| == 1 && IsPin(q[0])
    ensures Summarise(a + h + w + q + [Close]) == Join(Summarise(a), Summarise(w))
    ensures Pins(a + h + w + q + [Close]) == Pins(a) + h + q
    ensures Closes(a + h + w + q + [Close]) == Closes(a) + 1
  {
    PinsAndClose(h[0]);
    PinsAndClose(q[0]);
    assert h == [h[0]] && q == [q[0]];
    Append(a, h);
    AppendBus(a + h, w);
    Append(a + h + w, q);
    Append(a + h + w + q, [Close]);
  }

  /** A failed hold of PROGRAM_B, then the close. */
  lemma NotHeld(a: seq<Event>, p: Event)
    requires Settled(a) && IsPin(p)
    ensures Summarise(a + [p] + [Close]) == Summarise(a)
    ensures Pins(a + [p] + [Close]) == Pins(a) + [p]
    ensures Closes(a + [p] + [Close]) == Closes(a) + 1
  {
    assert a + [p] + [Close] == a + [p, Close];
    NoCommands([p, Close]);
    SummariseConcat(a, [p, Close]);
    PinsAndClose(p);
    FilterConcat(a, [p, Close], IsPin);
    ClosesConcat(a, [p, Close]);
  }

  /** Events that start no transaction add no outcomes. */
  lemma AssessQuiet(x: seq<Event>, y: seq<Event>)
    requires Settled(x) && forall i :: 0 <= i < |y| ==> !y[i].Start?
    ensures Assess(x + y) == Assess(x)
  {
    NoCommands(y);
    AssessConcat(x, y);
  }

  /** The outcomes of bus work `w` held between two pin operations and followed
      by a close are those of what came before and of `w`. */
  lemma AssessHeld(a: seq<Event>, h: seq<Event>, w: seq<Event>, q: seq<Event>)
    requires Settled(a) && Settled(w) && BusOnly(w)
    requires |h| == 1 && IsPin(h[0]) && |q| == 1 && IsPin(q[0])
    ensures Assess(a + h + w + q + [Close]) == Then(Assess(a), Assess(w))
  {
    Append(a, h);
    AssessQuiet(a, h);
    AppendBus(a + h, w);
    AssessConcat(a + h, w);
    Append(a + h + w, q);
    AssessQuiet(a + h + w, q);
    Append(a + h + w + q, [Close]);
    AssessQuiet(a + h + w + q, [Close]);
  }

  /** The identify command changes nothing and reads no flag register. */
  lemma IdentifyAssess(s: seq<Reply>)
    ensures Assess(Identify(s).trace) == Outcomes([], [])
  {
    IdentifyProtocol(s);
    var t := Identify(s).trace;
    IdentifyQuiet(t, Commands(t)[0]);
  }

  // ---------------------------------------------------------------------
  // initialize_mpsse

  /** The identify answer in a trace starts with manufacturer 0x20 and device
      0x18ba, the device id sent low byte first. */
  predicate Recognised(t: seq<Event>) {
    && |t| >= 3 && t[2].Read? && t[2].got.Some? && |t[2].got.value| >= 3
    && t[2].got.value[..3] == [MANUFACTURER_ID, 0xba, 0x18]
  }

  /** `initialize_mpsse` hands out the device exactly when one device is connected
      and the flash answers the identify command with the N25Q128A's manufacturer
      and device ids. It drives no pin and sends nothing that touches the array;
      a device it opened and rejects is closed once. */
  lemma InitializeGate(connected: bool, s: seq<Reply>)
    ensures var r := Initialize(connected, s);
      && Settled(r.trace)
      && (r.value <==> connected && Recognised(r.trace))
      && Summarise(r.trace) == Untouched
      && Assess(r.trace) == Outcomes([], [])
      && Pins(r.trace) == []
      && Closes(r.trace) == (if connected && !r.value then 1 else 0)
  {
    if connected {
      InitializeConnected(s);
    } else {
      assert Initialize(connected, s).trace == [];
      assert Assess([]) == OutcomesOf([]);
    }
  }

  lemma InitializeConnected(s: seq<Reply>)
    ensures var r := Initialize(true, s);
      && Settled(r.trace)
      && (r.value <==> Recognised(r.trace))
      && Summarise(r.trace) == Untouched
      && Assess(r.trace) == Outcomes([], [])
      && Pins(r.trace) == []
      && Closes(r.trace) == (if r.value then 0 else 1)
  {
    IdentifyProtocol(s);
    IdentifySummary(s);
    IdentifyAssess(s);
    InitializeShape(s);
    var id := Identify(s);
    var r := Initialize(true, s);
    BusOnlyQuiet(id.trace);
    Gate(id.value, id.trace, r.value, r.trace);
  }

  lemma InitializeShape(s: seq<Reply>)
    ensures var id := Identify(s); var r := Initialize(true, s);
      && (r.value <==> id.value.Some? && id.value.value.manufacturerId == MANUFACTURER_ID && id.value.value.deviceId == DEVICE_ID)
      && r.trace == if r.value then id.trace else id.trace + [Close]
  {
  }

  /** The identity check on the answer `x` of the identify transaction `t`, and the
      trace `rt` of the gate that follows from it. */
  lemma Gate(x: Option<FlashId>, t: seq<Event>, value: bool, rt: seq<Event>)
    requires x.Some? ==> WellFormedId(x.value) && |t| >= 3 && t[2] == Read(ID_LENGTH, Some(EncodeId(x.value)))
    requires x.None? ==> !(|t| >= 3 && t[2].Read? && t[2].got.Some?)
    requires |t| >= 3 && Settled(t) && BusOnly(t) && Summarise(t) == Untouched && Pins(t) == [] && Closes(t) == 0
    requires Assess(t) == Outcomes([], [])
    requires value <==> x.Some? && x.value.manufacturerId == MANUFACTURER_ID && x.value.deviceId == DEVICE_ID
    requires rt == if value then t else t + [Close]
    ensures Settled(rt) && (value <==> Recognised(rt)) && Summarise(rt) == Untouched
    ensures Assess(rt) == Outcomes([], [])
    ensures Pins(rt) == [] && Closes(rt) == (if value then 0 else 1)
  {
    IdentityCheck(x, t);
    if !value {
      assert rt[2] == t[2];
      NotHeldClose(t);
      AssessQuiet(t, [Close]);
    }
  }

  lemma IdentityCheck(x: Option<FlashId>, t: seq<Event>)
    requires x.Some? ==> WellFormedId(x.value) && |t| >= 3 && t[2] == Read(ID_LENGTH, Some(EncodeId(x.value)))
    requires x.None? ==> !(|t| >= 3 && t[2].Read? && t[2].got.Some?)
    ensures (x.Some? && x.value.manufacturerId == MANUFACTURER_ID && x.value.deviceId == DEVICE_ID) <==> Recognised(t)
  {
    if x.Some? {
      var d := EncodeId(x.value);
      assert d[..3] == [x.value.manufacturerId, x.value.deviceId % 0x100, x.value.deviceId / 0x100];
    }
  }

  lemma NotHeldClose(t: seq<Event>)
    requires Settled(t) && BusOnly(t)
    ensures Summarise(t + [Close]) == Summarise(t)
    ensures Pins(t + [Close]) == [] && Closes(t + [Close]) == 1
  {
    BusOnlyQuiet(t);
    NoCommands([Close]);
    SummariseConcat(t, [Close]);
    FilterConcat(t, [Close], IsPin);
    ClosesConcat(t, [Close]);
  }

  // ---------------------------------------------------------------------
  // erase_chip

  /** What a successful `erase_chip` did to the chip, read off the summary `sm`
      and the outcomes `o` of its bus traffic: write enable, bulk erase and
      write disable were sent, nothing else, all three were accepted, and the
      bulk erase made one flag-status read whose answer carried no erase failure
      (a flag read that failed counts, since the driver then keeps the OK of its
      last status read). */
  predicate ChipErased(sm: Summary, o: Outcomes) {
    && sm == Summary([], [], [], [WRITE_ENABLE, BULK_ERASE, WRITE_DISABLE])
    && Clean(o, FLAG_ERASE_FAIL) && |o.flags| == 1
  }

  /** The work of `erase_chip`: write enable, bulk erase, write disable, stopping at
      the first failure. It reads nothing and sends no sector erase or page
      program. It succeeds exactly when the chip was erased as `ChipErased`
      says; it fails with the bulk-erase message exactly when the flag register
      reported an erase failure, and with a transport error otherwise. */
  lemma BulkEraseStepsSummary(s: seq<Reply>)
    ensures var r := BulkEraseSteps(s); var sm := Summarise(r.trace); var o := Assess(r.trace);
      && Settled(r.trace)
      && sm.scans == [] && sm.erases == [] && sm.programs == []
      && (sm.mutations == [WRITE_ENABLE] || sm.mutations == [WRITE_ENABLE, BULK_ERASE]
          || sm.mutations == [WRITE_ENABLE, BULK_ERASE, WRITE_DISABLE])
      && (!(|s| > 0 && s[0].Ack?) ==> sm.mutations == [WRITE_ENABLE] && r.value == Fail(TransportError))
      && (r.value == Ok <==> ChipErased(sm, o))
      && (r.value == Fail(ChipError(BULK_ERASE_FAILED)) <==> |o.flags| == 1 && !Fine(o.flags[0], FLAG_ERASE_FAIL))
      && (r.value == Ok || r.value == Fail(TransportError) || r.value == Fail(ChipError(BULK_ERASE_FAILED)))
  {
    LatchSummary(WRITE_ENABLE, s);
    LatchProtocol(WRITE_ENABLE, s);
    LatchWent(WRITE_ENABLE, s);
    var we := WriteEnable(s);
    if we.value == Ok {
      BulkEraseSummary(we.rest);
      BulkEraseWent(we.rest);
      var be := BulkErase(we.rest);
      AssessConcat(we.trace, be.trace);
      if be.value == Ok {
        LatchSummary(WRITE_DISABLE, be.rest);
        LatchWent(WRITE_DISABLE, be.rest);
        var wd := WriteDisable(be.rest);
        assert BulkEraseSteps(s) == Run(wd.value, we.trace + be.trace + wd.trace, wd.rest);
        Bracket(we.trace, be.trace, wd.trace, [], BULK_ERASE);
        SettledConcat(we.trace, be.trace);
        AssessConcat(we.trace + be.trace, wd.trace);
        ErasedJoin(Assess(be.trace), wd.value == Ok, wd.value);
      } else {
        assert BulkEraseSteps(s) == Run(be.value, we.trace + be.trace, be.rest);
        Sequenced2(we.trace, be.trace);
        assert Assess(we.trace + be.trace).flags == Assess(be.trace).flags;
      }
    }
  }

  /** A bulk erase that went through, between an accepted write enable and a
      write disable whose code is returned. */
  lemma ErasedJoin(be: Outcomes, wd: bool, value: Code)
    requires CallWent(be, Ok, FLAG_ERASE_FAIL, BULK_ERASE_FAILED)
    requires value == if wd then Ok else Fail(TransportError)
    ensures var o := Then(Then(Outcomes([true], []), be), Outcomes([wd], []));
      && (value == Ok <==> Clean(o, FLAG_ERASE_FAIL) && |o.flags| == 1)
      && |o.flags| == 1 && Fine(o.flags[0], FLAG_ERASE_FAIL)
  {
    var o := Then(Then(Outcomes([true], []), be), Outcomes([wd], []));
    assert o.acks == [true, be.acks[0], wd] && o.flags == be.flags;
    assert be.acks[0] && Fine(o.flags[0], FLAG_ERASE_FAIL);
    if wd {
      forall i | 0 <= i < |o.acks|
        ensures o.acks[i]
      {
      }
      forall i | 0 <= i < |o.flags|
        ensures Fine(o.flags[i], FLAG_ERASE_FAIL)
      {
      }
    } else {
      assert !o.acks[2];
    }
  }

  /** Two settled calls with the summaries of a write enable and a bulk erase. */
  lemma Sequenced2(a: seq<Event>, b: seq<Event>)
    requires Settled(a) && Settled(b)
    requires Summarise(a) == Summary([], [], [], [WRITE_ENABLE]) && Summarise(b) == Summary([], [], [], [BULK_ERASE])
    ensures Settled(a + b) && Summarise(a + b) == Summary([], [], [], [WRITE_ENABLE, BULK_ERASE])
  {
    SummariseConcat(a, b);
    SettledConcat(a, b);
  }

  /** `erase_chip` always exits. With no single device it exits 1 without touching
      the bridge; otherwise it closes the device exactly once, last. PROGRAM_B is
      either never held, or its hold failed, or it was held and then released.
      It exits 0 exactly when both pin operations went through and the chip was
      erased as `ChipErased` says. */
  lemma EraseChipCleanup(connected: bool, s: seq<Reply>)
    ensures var r := EraseChip(connected, s); var ps := Pins(r.trace); var sm := Summarise(r.trace);
      && r.value.Exit?
      && (!connected ==> r.value == Exit(EXIT_FAILURE) && r.trace == [])
      && (connected ==> Closes(r.trace) == 1 && |r.trace| > 0 && r.trace[|r.trace| - 1] == Close)
      && (|ps| < 2 ==> r.value == Exit(EXIT_FAILURE) && sm == Untouched && (ps == [] || ps == [PinHigh(false)]))
      && (|ps| >= 2 ==> |ps| == 2 && ps[0] == PinHigh(true) && ps[1].PinLow?)
      && (r.value == Exit(EXIT_SUCCESS) <==> ps == [PinHigh(true), PinLow(true)] && ChipErased(sm, Assess(r.trace)))
  {
    var init := Initialize(connected, s);
    InitializeGate(connected, s);
    if init.value {
      var hold := SetProgramB(0, init.rest);
      if hold.value != Ok {
        EraseChipNotHeld(connected, s);
      } else {
        EraseChipHeld(connected, s);
      }
    }
  }

  /** The replies to an identify that an N25Q128A with unique id `uid` answers:
      manufacturer 0x20, then device 0x18ba low byte first. */
  function Opened(uid: seq<byte>): seq<Reply> {
    [Ack([]), Ack([MANUFACTURER_ID, 0xba, 0x18] + uid)]
  }

  /** One accepting reply. */
  const ACCEPT: seq<Reply> := [Ack([])]

  /** A chip that is idle and reports a clear flag register: the replies to one
      status read and one flag-status read. */
  const IDLE: seq<Reply> := [Ack([]), Ack([0x00]), Ack([]), Ack([0x00])]

  /** A healthy bridge for `erase_chip`: the identify, PROGRAM_B held, write
      enable, bulk erase, an idle chip, write disable and PROGRAM_B released are
      all accepted; `tail` is whatever the bridge would answer afterwards. */
  function HealthyErase(uid: seq<byte>, tail: seq<Reply>): seq<Reply> {
    Opened(uid) + (ACCEPT + (ACCEPT + (ACCEPT + (IDLE + (ACCEPT + (ACCEPT + tail))))))
  }

  /** `erase_chip` can succeed: on a healthy bridge it exits 0, so the success
      side of `EraseChipCleanup` is met by some bus. */
  lemma EraseChipHealthy(uid: seq<byte>, tail: seq<Reply>)
    requires |uid| == UNIQUE_ID_LENGTH
    ensures EraseChip(true, HealthyErase(uid, tail)).value == Exit(EXIT_SUCCESS)
  {
    var work := ACCEPT + (ACCEPT + (IDLE + (ACCEPT + (ACCEPT + tail))));
    BulkEraseHealthy(work, ACCEPT + tail);
    EraseChipSucceeds(uid, HealthyErase(uid, tail), work, tail);
  }

  /** An N25Q128A behind the bridge, PROGRAM_B held and released, and work that
      went through: `erase_chip` exits 0. */
  lemma EraseChipSucceeds(uid: seq<byte>, s: seq<Reply>, work: seq<Reply>, more: seq<Reply>)
    requires |uid| == UNIQUE_ID_LENGTH && s == Opened(uid) + (ACCEPT + work)
    requires BulkEraseSteps(work).value == Ok && BulkEraseSteps(work).rest == ACCEPT + more
    ensures EraseChip(true, s).value == Exit(EXIT_SUCCESS)
  {
    GenuineInit(uid, s, ACCEPT + work);
    Accepted(ACCEPT + work, work);
    Accepted(ACCEPT + more, more);
  }

  /** The work of `erase_chip` on a healthy bridge: write enable, bulk erase on
      an idle chip, write disable, all accepted. */
  lemma BulkEraseHealthy(s: seq<Reply>, more: seq<Reply>)
    requires s == ACCEPT + (ACCEPT + (IDLE + (ACCEPT + more)))
    ensures BulkEraseSteps(s).value == Ok && BulkEraseSteps(s).rest == more
  {
    var t1 := ACCEPT + (IDLE + (ACCEPT + more));
    var t2 := IDLE + (ACCEPT + more);
    Accepted(s, t1);
    AwaitIdle(FLAG_ERASE_FAIL, t2, ACCEPT + more);
    Accepted(t1, t2);
    assert BulkErase(t1).value == Ok && BulkErase(t1).rest == ACCEPT + more;
    Accepted(ACCEPT + more, more);
  }

  /** The identify is accepted and answered by an N25Q128A. */
  lemma GenuineInit(uid: seq<byte>, s: seq<Reply>, more: seq<Reply>)
    requires |uid| == UNIQUE_ID_LENGTH && s == Opened(uid) + more
    ensures Initialize(true, s).value && Initialize(true, s).rest == more
  {
    var id := [MANUFACTURER_ID, 0xba, 0x18] + uid;
    var w := WriteOut([ID], s);
    assert w.value && w.rest == [Ack(id)] + more;
    var d := ReadIn(ID_LENGTH, w.rest);
    assert d.value == Some(id) && d.rest == more;
    assert Identify(s).value == Some(DecodeId(id)) && Identify(s).rest == more;
  }

  /** A reply that accepts: write enable, write disable, a command write and
      either PROGRAM_B level all succeed and take just that reply. */
  lemma Accepted(s: seq<Reply>, more: seq<Reply>)
    requires s == ACCEPT + more
    ensures WriteEnable(s).value == Ok && WriteEnable(s).rest == more
    ensures WriteDisable(s).value == Ok && WriteDisable(s).rest == more
    ensures SetProgramB(0, s).value == Ok && SetProgramB(0, s).rest == more
    ensures SetProgramB(1, s).value == Ok && SetProgramB(1, s).rest == more
  {
    assert s[1..] == more;
  }

  /** An accepted reply is taken off the front of the script. */
  lemma AcceptTail(more: seq<Reply>)
    ensures (ACCEPT + more)[0] == Ack([]) && (ACCEPT + more)[1..] == more
  {
  }

  /** On an idle chip, the wait reads the status once and the flag register once
      and finds it clear. */
  lemma AwaitIdle(mask: byte, s: seq<Reply>, more: seq<Reply>)
    requires s == IDLE + more
    ensures Await(mask, s).value == FlagClear(0x00) && Await(mask, s).rest == more
  {
    var st := ReadStatus(s);
    assert st.value == Some(0x00) && st.rest == s[2..];
    var p := PollStatus(s);
    assert p.value == Ok && p.rest == s[2..];
    var f := ReadFlagStatus(p.rest);
    assert f.value == Some(0x00) && f.rest == more;
  }

  /** What the cleanup paths need of a successful `initialize_mpsse`. */
  lemma InitializeOpened(connected: bool, s: seq<Reply>)
    requires Initialize(connected, s).value
    ensures var r := Initialize(connected, s);
      && connected && Settled(r.trace) && Summarise(r.trace) == Untouched && Pins(r.trace) == [] && Closes(r.trace) == 0
  {
    InitializeGate(connected, s);
  }

  lemma EraseChipNotHeld(connected: bool, s: seq<Reply>)
    requires Initialize(connected, s).value && SetProgramB(0, Initialize(connected, s).rest).value != Ok
    ensures var r := EraseChip(connected, s);
      && r.value == Exit(EXIT_FAILURE) && connected
      && Pins(r.trace) == [PinHigh(false)] && Summarise(r.trace) == Untouched
      && Closes(r.trace) == 1 && |r.trace| > 0 && r.trace[|r.trace| - 1] == Close
  {
    var init := Initialize(connected, s);
    InitializeOpened(connected, s);
    var hold := SetProgramB(0, init.rest);
    assert EraseChip(connected, s) == Run(Exit(EXIT_FAILURE), init.trace + hold.trace + [Close], hold.rest);
    NotHeldSession(init.trace + hold.trace + [Close], init.trace, hold.trace);
  }

  /** A session whose hold of PROGRAM_B failed: the failed pin operation, then Close. */
  lemma NotHeldSession(t: seq<Event>, a: seq<Event>, h: seq<Event>)
    requires Settled(a) && Summarise(a) == Untouched && Pins(a) == [] && Closes(a) == 0
    requires h == [PinHigh(false)] && t == a + h + [Close]
    ensures Pins(t) == [PinHigh(false)] && Summarise(t) == Untouched
    ensures Closes(t) == 1 && t[|t| - 1] == Close
  {
    NotHeld(a, h[0]);
  }

  lemma EraseChipHeld(connected: bool, s: seq<Reply>)
    requires Initialize(connected, s).value && SetProgramB(0, Initialize(connected, s).rest).value == Ok
    ensures var r := EraseChip(connected, s); var ps := Pins(r.trace); var sm := Summarise(r.trace);
      && r.value.Exit? && connected
      && Closes(r.trace) == 1 && |r.trace| > 0 && r.trace[|r.trace| - 1] == Close
      && |ps| == 2 && ps[0] == PinHigh(true) && ps[1].PinLow?
      && (r.value == Exit(EXIT_SUCCESS) <==> ps == [PinHigh(true), PinLow(true)] && ChipErased(sm, Assess(r.trace)))
  {
    var init := Initialize(connected, s);
    var hold := SetProgramB(0, init.rest);
    var work := BulkEraseSteps(hold.rest);
    var release := SetProgramB(1, work.rest);
    var r := EraseChip(connected, s);
    EraseChipShape(connected, s);
    InitializeGate(connected, s);
    BulkEraseStepsSummary(hold.rest);
    HeldErase(r.trace, init.trace, hold.trace, work.trace, release.trace, work.value, r.value);
  }

  /** A session that held PROGRAM_B around the bulk-erase work `w` with code
      `value`, exiting with `exit`. */
  lemma HeldErase(t: seq<Event>, a: seq<Event>, h: seq<Event>, w: seq<Event>, q: seq<Event>, value: Code, exit: Outcome)
    requires Settled(a) && Summarise(a) == Untouched && Assess(a) == Outcomes([], []) && Pins(a) == [] && Closes(a) == 0
    requires h == [PinHigh(true)] && |q| == 1 && q[0].PinLow?
    requires Settled(w) && BusOnly(w)
    requires value == Ok <==> ChipErased(Summarise(w), Assess(w))
    requires t == a + h + w + q + [Close]
    requires exit.Exit? && (exit == Exit(EXIT_SUCCESS) <==> value == Ok && q[0].ok)
    ensures Closes(t) == 1 && t[|t| - 1] == Close
    ensures Pins(t) == [PinHigh(true), q[0]]
    ensures exit == Exit(EXIT_SUCCESS) <==> Pins(t) == [PinHigh(true), PinLow(true)] && ChipErased(Summarise(t), Assess(t))
  {
    HeldSession(a, h, w, q);
    AssessHeld(a, h, w, q);
    assert Then(Assess(a), Assess(w)) == Assess(w);
  }

  /** A session that held PROGRAM_B around bus work `w`: released, closed last,
      and the chip saw only what `w` sent. */
  lemma HeldSession(a: seq<Event>, h: seq<Event>, w: seq<Event>, q: seq<Event>)
    requires Settled(a) && Summarise(a) == Untouched && Pins(a) == [] && Closes(a) == 0
    requires h == [PinHigh(true)] && |q| == 1 && q[0].PinLow?
    requires Settled(w) && BusOnly(w)
    ensures var t := a + h + w + q + [Close];
      && Closes(t) == 1 && t[|t| - 1] == Close
      && Pins(t) == [PinHigh(true), q[0]]
      && Summarise(t) == Summarise(w)
  {
    Held(a, h, w, q);
  }

  lemma EraseChipShape(connected: bool, s: seq<Reply>)
    requires Initialize(connected, s).value && SetProgramB(0, Initialize(connected, s).rest).value == Ok
    ensures var init := Initialize(connected, s);
      var hold := SetProgramB(0, init.rest);
      var work := BulkEraseSteps(hold.rest);
      var release := SetProgramB(1, work.rest);
      var r := EraseChip(connected, s);
      && r.trace == init.trace + hold.trace + work.trace + release.trace + [Close]
      && (r.value == Exit(EXIT_SUCCESS) <==> work.value == Ok && release.value == Ok)
      && r.value.Exit?
  {
  }

  // ---------------------------------------------------------------------
  // flash

  /** What a successful flash did to the chip, read off the summary `sm` and
      the outcomes `o` of its bus traffic:
      - the erase scan ended on a blank sector, or after reading and erasing
        every sector up to 254 (the reads of the scan are all reads but the
        validation read, when there is one);
      - one page program was sent per page of the image; the i-th is the command
        for page i (byte address 256 * i), and their payloads concatenate to the
        image;
      - every chip-changing command was accepted; every erase made a
        flag-status read whose answer carried no erase failure, and every page
        program one whose answer carried no program failure (a flag read that
        failed counts, since the driver then keeps the OK of its last status
        read);
      - unless validation was skipped, the last read was of the image's length
        from address 0 and brought the image back. */
  predicate Flashed(data: seq<byte>, skip: bool, sm: Summary, o: Outcomes) {
    var n := |sm.erases|;
    var k := if skip then |sm.scans| else |sm.scans| - 1;
    && 1 <= k
    && (ReadBlank(sm.scans[k - 1]) || n == k == SCANNED_SECTORS)
    && |sm.programs| == (|data| + BYTES_PER_PAGE - 1) / BYTES_PER_PAGE
    && ProgramsImage(data, sm.programs)
    && |o.flags| == n + |sm.programs|
    && (forall i :: 0 <= i < |o.acks| ==> o.acks[i])
    && (forall i :: 0 <= i < n ==> Fine(o.flags[i], FLAG_ERASE_FAIL))
    && (forall i :: n <= i < |o.flags| ==> Fine(o.flags[i], FLAG_PROGRAM_FAIL))
    && (!skip ==> ReadsBack(data, Last(sm.scans)))
  }

  /** The page programs went through: one per page of the image, every
      chip-changing command of `program_flash` accepted, and every page program
      made a flag-status read whose answer carried no program failure (a flag
      read that failed counts, since the driver then keeps the OK of its last
      status read). */
  predicate Programmed(data: seq<byte>, m: Summary, mo: Outcomes) {
    && |m.programs| == (|data| + BYTES_PER_PAGE - 1) / BYTES_PER_PAGE
    && Clean(mo, FLAG_PROGRAM_FAIL) && |mo.flags| == |m.programs|
  }

  /** The work of `flash` while PROGRAM_B is held: its trace is settled; it
      reports success exactly when the image was flashed as `Flashed` says; a
      success means the erase succeeded, and an erase that did not succeed is
      followed by no page program. */
  lemma FlashStepsSummary(data: seq<byte>, skip: bool, s: seq<Reply>)
    requires |data| <= TOTAL_BYTES
    ensures var r := FlashSteps(data, skip, s); var sm := Summarise(r.trace);
      && Settled(r.trace)
      && (r.value == Returned(true) <==> Flashed(data, skip, sm, Assess(r.trace)))
      && (r.value == Returned(true) ==> EraseFlash(s).value == Returned(Ok))
      && (EraseFlash(s).value != Returned(Ok) ==> sm.programs == [])
  {
    EraseFlashWent(s);
    var erase := EraseFlash(s);
    if erase.value == Returned(Ok) {
      ProgramAndCheckSummary(data, skip, erase.rest);
      var more := ProgramAndCheck(data, skip, erase.rest);
      assert FlashSteps(data, skip, s) == Run(more.value, erase.trace + more.trace, more.rest);
      SettledConcat(erase.trace, more.trace);
      SummariseConcat(erase.trace, more.trace);
      AssessConcat(erase.trace, more.trace);
      FlashedJoin(data, skip, Summarise(erase.trace), Assess(erase.trace), Summarise(more.trace), Assess(more.trace),
                  more.value == Returned(true));
    } else {
      assert FlashSteps(data, skip, s).trace == erase.trace;
      NotFlashed(data, skip, Summarise(erase.trace), Assess(erase.trace), erase.value);
    }
  }

  /** Program and validation. Validation reads only after a program that went
      through, and only when not skipped. They report success exactly when the
      page programs went through and sent the image and, unless skipped, the
      read from address 0 brought it back. */
  lemma ProgramAndCheckSummary(data: seq<byte>, skip: bool, s: seq<Reply>)
    requires |data| <= TOTAL_BYTES
    ensures var r := ProgramAndCheck(data, skip, s); var sm := Summarise(r.trace); var o := Assess(r.trace);
      && Settled(r.trace)
      && sm.erases == []
      && |sm.scans| == (if skip || !Programmed(data, sm, o) then 0 else 1)
      && (r.value == Returned(true) <==>
            Programmed(data, sm, o) && ProgramsImage(data, sm.programs) && (!skip ==> ReadsBack(data, sm.scans[0])))
  {
    var program := ProgramFlash(data, s);
    if program.value == Ok && !skip {
      ProgramThenCheck(data, s);
    } else {
      ProgramFlashGood(data, s);
      ProgramFlashDone(data, s);
      assert ProgramAndCheck(data, skip, s) == Run(Returned(program.value == Ok), program.trace, program.rest);
    }
  }

  /** A program that went through, then the validation read. */
  lemma ProgramThenCheck(data: seq<byte>, s: seq<Reply>)
    requires |data| <= TOTAL_BYTES && ProgramFlash(data, s).value == Ok
    ensures var r := ProgramAndCheck(data, false, s); var sm := Summarise(r.trace); var o := Assess(r.trace);
      && Settled(r.trace)
      && sm.erases == []
      && |sm.scans| == (if !Programmed(data, sm, o) then 0 else 1)
      && (r.value == Returned(true) <==>
            Programmed(data, sm, o) && ProgramsImage(data, sm.programs) && ReadsBack(data, sm.scans[0]))
  {
    ProgramFlashGood(data, s);
    ProgramFlashDone(data, s);
    var program := ProgramFlash(data, s);
    ValidateGood(data, program.rest);
    ValidateSemantics(data, program.rest);
    ReadDataWent(0, |data|, program.rest);
    var check := ValidateFlash(data, program.rest);
    assert ProgramAndCheck(data, false, s) == Run(Verdict(check.value), program.trace + check.trace, check.rest);
    SummariseConcat(program.trace, check.trace);
    AssessConcat(program.trace, check.trace);
    CheckJoin(data, program.trace, check.trace, Verdict(check.value) == Returned(true));
    CheckedJoin(data, Summarise(program.trace), Assess(program.trace), Summarise(check.trace), Assess(check.trace));
  }

  /** What the flash session needs of a successful `program_flash`. */
  lemma ProgramFlashGood(data: seq<byte>, s: seq<Reply>)
    requires |data| <= TOTAL_BYTES
    ensures var r := ProgramFlash(data, s);
      && Settled(r.trace)
      && (r.value == Ok ==> Summarise(r.trace).scans == [] && ProgramsImage(data, Summarise(r.trace).programs))
  {
    var r := ProgramFlash(data, s);
    ProgramFlashSummary(data, s);
    var sm := Summarise(r.trace);
    assert sm.scans == [];
    ProgramFlashImage(data, s);
    if r.value == Ok {
      assert ProgramsImage(data, sm.programs);
    }
  }

  /** `program_flash` returns OK exactly when its page programs went through. */
  lemma ProgramFlashDone(data: seq<byte>, s: seq<Reply>)
    requires |data| <= TOTAL_BYTES
    ensures var r := ProgramFlash(data, s); var sm := Summarise(r.trace);
      && sm.scans == [] && sm.erases == []
      && (r.value == Ok <==> Programmed(data, sm, Assess(r.trace)))
  {
    ProgramFlashWent(data, s);
    PagesCount(data);
  }

  /** What the flash session needs of `validate_flash`. */
  lemma ValidateGood(data: seq<byte>, s: seq<Reply>)
    requires |data| <= TOTAL_BYTES
    ensures var r := ValidateFlash(data, s);
      && Settled(r.trace)
      && |Summarise(r.trace).scans| == 1 && Summarise(r.trace).programs == [] && Summarise(r.trace).erases == []
      && (Verdict(r.value) == Returned(true) <==> ReadsBack(data, Summarise(r.trace).scans[0]))
  {
    ValidateSemantics(data, s);
  }

  /** A successful program followed by the validation read. */
  lemma CheckJoin(data: seq<byte>, pt: seq<Event>, ct: seq<Event>, good: bool)
    requires Settled(pt) && Settled(ct)
    requires Summarise(pt).scans == [] && Summarise(pt).erases == []
    requires |Summarise(ct).scans| == 1 && Summarise(ct).programs == [] && Summarise(ct).erases == []
    requires good <==> ReadsBack(data, Summarise(ct).scans[0])
    ensures Settled(pt + ct)
    ensures Summarise(pt + ct).programs == Summarise(pt).programs && Summarise(pt + ct).erases == []
    ensures |Summarise(pt + ct).scans| == 1
    ensures good <==> ReadsBack(data, Summarise(pt + ct).scans[0])
  {
    SettledConcat(pt, ct);
    SummariseConcat(pt, ct);
    assert Summarise(pt + ct).programs == Summarise(pt).programs;
    assert Summarise(pt + ct).scans == Summarise(ct).scans;
  }

  /** The validation read adds no outcomes, so a program that went through still
      went through with it. */
  lemma CheckedJoin(data: seq<byte>, p: Summary, po: Outcomes, c: Summary, co: Outcomes)
    requires co == Outcomes([], []) && c.programs == []
    ensures Programmed(data, Join(p, c), Then(po, co)) <==> Programmed(data, p, po)
  {
    assert Join(p, c).programs == p.programs;
    assert Then(po, co) == po;
  }

  /** The page programs send the image page by page from page 0. */
  predicate ProgramsImage(data: seq<byte>, ps: seq<Command>) {
    && (forall i :: 0 <= i < |ps| ==> i < USHORT_LIMIT && ps[i].bytes == PageProgramCommand(i))
    && Flatten(Payloads(ps)) == data
  }

  /** A read from address 0 that brought the image back. */
  predicate ReadsBack(data: seq<byte>, c: Command) {
    c.bytes == ReadCommand(0) && Payload(c) == Some(data)
  }

  /** A successful erase scan, then program and check: the session reports
      success exactly when the whole of it flashed the image. */
  lemma FlashedJoin(data: seq<byte>, skip: bool, e: Summary, eo: Outcomes, m: Summary, mo: Outcomes, good: bool)
    requires ScanWent(0, e, eo, Returned(Ok)) && e.programs == []
    requires m.erases == [] && |m.scans| == (if skip || !Programmed(data, m, mo) then 0 else 1)
    requires good <==> Programmed(data, m, mo) && ProgramsImage(data, m.programs) && (!skip ==> ReadsBack(data, m.scans[0]))
    ensures good <==> Flashed(data, skip, Join(e, m), Then(eo, mo))
  {
    if good {
      FlashedForward(data, skip, e, eo, m, mo);
    }
    if Flashed(data, skip, Join(e, m), Then(eo, mo)) {
      FlashedBack(data, skip, e, eo, m, mo);
    }
  }

  lemma FlashedForward(data: seq<byte>, skip: bool, e: Summary, eo: Outcomes, m: Summary, mo: Outcomes)
    requires ScanWent(0, e, eo, Returned(Ok)) && e.programs == []
    requires m.erases == [] && |m.scans| == (if skip then 0 else 1)
    requires Programmed(data, m, mo) && ProgramsImage(data, m.programs) && (!skip ==> ReadsBack(data, m.scans[0]))
    ensures Flashed(data, skip, Join(e, m), Then(eo, mo))
  {
    var sm := Join(e, m);
    assert sm.erases == e.erases && sm.programs == m.programs && sm.scans == e.scans + m.scans;
    assert sm.scans[|e.scans| - 1] == Last(e.scans);
    if !skip {
      assert Last(sm.scans) == m.scans[0];
    }
    OutcomesSplit(eo, mo);
  }

  /** Two clean runs of outcomes, for the erase mask and then the program mask. */
  lemma OutcomesSplit(eo: Outcomes, mo: Outcomes)
    requires Clean(eo, FLAG_ERASE_FAIL) && Clean(mo, FLAG_PROGRAM_FAIL)
    ensures var o := Then(eo, mo);
      && (forall i :: 0 <= i < |o.acks| ==> o.acks[i])
      && (forall i :: 0 <= i < |eo.flags| ==> Fine(o.flags[i], FLAG_ERASE_FAIL))
      && (forall i :: |eo.flags| <= i < |o.flags| ==> Fine(o.flags[i], FLAG_PROGRAM_FAIL))
  {
    var o := Then(eo, mo);
    AcksPrefix(eo.acks, mo.acks, |mo.acks|);
    forall i | 0 <= i < |eo.flags|
      ensures Fine(o.flags[i], FLAG_ERASE_FAIL)
    {
      assert o.flags[i] == eo.flags[i];
    }
    forall i | |eo.flags| <= i < |o.flags|
      ensures Fine(o.flags[i], FLAG_PROGRAM_FAIL)
    {
      assert o.flags[i] == mo.flags[i - |eo.flags|];
    }
  }

  lemma FlashedBack(data: seq<byte>, skip: bool, e: Summary, eo: Outcomes, m: Summary, mo: Outcomes)
    requires ScanWent(0, e, eo, Returned(Ok)) && e.programs == []
    requires m.erases == [] && |m.scans| == (if skip || !Programmed(data, m, mo) then 0 else 1)
    requires Flashed(data, skip, Join(e, m), Then(eo, mo))
    ensures Programmed(data, m, mo) && ProgramsImage(data, m.programs) && (!skip ==> ReadsBack(data, m.scans[0]))
  {
    var sm := Join(e, m);
    assert sm.erases == e.erases && sm.programs == m.programs && sm.scans == e.scans + m.scans;
    assert |eo.flags| == |e.erases|;
    TailClean(eo, mo);
    if !skip {
      assert Last(sm.scans) == m.scans[0];
    }
  }

  /** The tail of outcomes whose acknowledgements all hold and whose flags after
      the head report no program failure is clean for the program mask. */
  lemma TailClean(eo: Outcomes, mo: Outcomes)
    requires var o := Then(eo, mo);
      && (forall i :: 0 <= i < |o.acks| ==> o.acks[i])
      && (forall i :: |eo.flags| <= i < |o.flags| ==> Fine(o.flags[i], FLAG_PROGRAM_FAIL))
    ensures Clean(mo, FLAG_PROGRAM_FAIL)
  {
    var o := Then(eo, mo);
    forall i | 0 <= i < |mo.acks|
      ensures mo.acks[i]
    {
      assert o.acks[|eo.acks| + i] == mo.acks[i];
    }
    forall i | 0 <= i < |mo.flags|
      ensures Fine(mo.flags[i], FLAG_PROGRAM_FAIL)
    {
      assert o.flags[|eo.flags| + i] == mo.flags[i];
    }
  }

  /** An erase scan that did not succeed flashes nothing: by itself, its trace
      cannot pass for a flashed image. */
  lemma NotFlashed(data: seq<byte>, skip: bool, e: Summary, eo: Outcomes, value: Step<Code>)
    requires value != Returned(Ok) && ScanFrom(0, e, value) && ScanWent(0, e, eo, value)
    ensures !Flashed(data, skip, e, eo)
  {
    if Flashed(data, skip, e, eo) && skip {
      assert Clean(eo, FLAG_ERASE_FAIL);
    }
  }

  /** How `flash` ended, as a property of its result `r`: an image that is missing,
      empty or larger than the chip, or no single device, exits 1 without touching
      the bridge; undefined behaviour leaves PROGRAM_B held and the device open;
      every exit after the device was opened closes it once, last; PROGRAM_B is
      released after every hold that succeeded; an exit without both pin
      operations is 1 and sent nothing that reads or changes the chip; and the
      exit is 0 exactly when both pin operations went through and the image was
      flashed as `Flashed` says. */
  predicate FlashEnded(image: Option<seq<byte>>, skip: bool, connected: bool, r: Run<Outcome>) {
    var ps := Pins(r.trace);
    var sm := Summarise(r.trace);
    && ((image.None? || |image.value| == 0 || |image.value| > TOTAL_BYTES || !connected) ==>
          r.value == Exit(EXIT_FAILURE) && r.trace == [])
    && (r.value == Crash <==> ps == [PinHigh(true)])
    && (r.value == Crash ==> Closes(r.trace) == 0)
    && (r.value.Exit? && r.trace != [] ==> Closes(r.trace) == 1 && r.trace[|r.trace| - 1] == Close)
    && (|ps| >= 2 ==> |ps| == 2 && ps[0] == PinHigh(true) && ps[1].PinLow?)
    && (|ps| < 2 && r.value.Exit? ==>
          r.value == Exit(EXIT_FAILURE) && sm == Untouched && (ps == [] || ps == [PinHigh(false)]))
    && (r.value == Exit(EXIT_SUCCESS) <==>
          ps == [PinHigh(true), PinLow(true)] && image.Some? && Flashed(image.value, skip, sm, Assess(r.trace)))
  }

  lemma FlashCleanup(image: Option<seq<byte>>, skip: bool, connected: bool, s: seq<Reply>)
    ensures FlashEnded(image, skip, connected, Flash(image, skip, connected, s))
  {
    if image.Some? && 0 < |image.value| <= TOTAL_BYTES && connected {
      var init := Initialize(connected, s);
      InitializeGate(connected, s);
      if init.value {
        if SetProgramB(0, init.rest).value != Ok {
          FlashNotHeld(image.value, skip, connected, s);
        } else {
          FlashHeld(image.value, skip, connected, s);
        }
      } else {
        assert Flash(image, skip, connected, s) == Run(Exit(EXIT_FAILURE), init.trace, init.rest);
        assert init.trace[|init.trace| - 1] == Close;
      }
    }
  }

  /** A healthy bridge for flashing a one-page image `data` with validation:
      the identify and PROGRAM_B as for `erase_chip`; sector 0 reads back as
      `blank`; write enable, the page program of page 0 and its data are accepted
      on an idle chip; then write disable; the validation read brings `data`
      back; PROGRAM_B is released; `tail` is whatever the bridge would answer
      afterwards. */
  function HealthyFlash(uid: seq<byte>, blank: seq<byte>, data: seq<byte>, tail: seq<Reply>): seq<Reply> {
    Opened(uid) + (ACCEPT + FlashWork(blank, data, ACCEPT + tail))
  }

  /** The replies to the work of `flash` on a healthy bridge, then `more`. */
  function FlashWork(blank: seq<byte>, data: seq<byte>, more: seq<Reply>): seq<Reply> {
    [Ack([]), Ack(blank)] + (ACCEPT + (ACCEPT + (ACCEPT + (IDLE + (ACCEPT + ([Ack([]), Ack(data)] + more))))))
  }

  /** `flash` can succeed: on a healthy bridge, with sector 0 blank, a one-page
      image is flashed and validated and `flash` exits 0, so the success side of
      `FlashCleanup` is met by some bus. */
  lemma FlashHealthy(uid: seq<byte>, blank: seq<byte>, data: seq<byte>, tail: seq<Reply>)
    requires |uid| == UNIQUE_ID_LENGTH
    requires |blank| == BYTES_PER_SECTOR && Blank(blank)
    requires 0 < |data| <= BYTES_PER_PAGE
    ensures Flash(Some(data), false, true, HealthyFlash(uid, blank, data, tail)).value == Exit(EXIT_SUCCESS)
  {
    var work := FlashWork(blank, data, ACCEPT + tail);
    FlashStepsHealthy(blank, data, ACCEPT + tail);
    FlashSucceeds(uid, data, HealthyFlash(uid, blank, data, tail), work, tail);
  }

  /** An N25Q128A behind the bridge, PROGRAM_B held and released, and flashing
      work that went through: `flash` exits 0. */
  lemma FlashSucceeds(uid: seq<byte>, data: seq<byte>, s: seq<Reply>, work: seq<Reply>, more: seq<Reply>)
    requires |uid| == UNIQUE_ID_LENGTH && 0 < |data| <= TOTAL_BYTES
    requires s == Opened(uid) + (ACCEPT + work)
    requires FlashSteps(data, false, work).value == Returned(true) && FlashSteps(data, false, work).rest == ACCEPT + more
    ensures Flash(Some(data), false, true, s).value == Exit(EXIT_SUCCESS)
  {
    GenuineInit(uid, s, ACCEPT + work);
    Accepted(ACCEPT + work, work);
    Accepted(ACCEPT + more, more);
  }

  /** The work of `flash` on a healthy bridge: a blank sector 0 ends the erase
      scan, the one page goes through, and the read-back matches. */
  lemma FlashStepsHealthy(blank: seq<byte>, data: seq<byte>, more: seq<Reply>)
    requires |blank| == BYTES_PER_SECTOR && Blank(blank)
    requires 0 < |data| <= BYTES_PER_PAGE
    ensures var r := FlashSteps(data, false, FlashWork(blank, data, more));
      r.value == Returned(true) && r.rest == more
  {
    var program := ACCEPT + (ACCEPT + (ACCEPT + (IDLE + (ACCEPT + ([Ack([]), Ack(data)] + more)))));
    assert FlashWork(blank, data, more) == [Ack([]), Ack(blank)] + program;
    ScanHealthy(blank, FlashWork(blank, data, more), program);
    ProgramHealthy(data, program, [Ack([]), Ack(data)] + more);
    ReadbackHealthy(data, [Ack([]), Ack(data)] + more, more);
  }

  /** A first sector that reads back blank ends the erase scan with OK. */
  lemma ScanHealthy(blank: seq<byte>, s: seq<Reply>, more: seq<Reply>)
    requires |blank| == BYTES_PER_SECTOR && Blank(blank)
    requires s == [Ack([]), Ack(blank)] + more
    ensures EraseFlash(s).value == Returned(Ok) && EraseFlash(s).rest == more
  {
    var rd := ReadData(0, BYTES_PER_SECTOR, s);
    assert rd.value == Fetched(Ok, Bytes(blank)) && rd.rest == more;
  }

  /** `program_flash` of a one-page image on a healthy bridge. */
  lemma ProgramHealthy(data: seq<byte>, s: seq<Reply>, more: seq<Reply>)
    requires 0 < |data| <= BYTES_PER_PAGE
    requires s == ACCEPT + (ACCEPT + (ACCEPT + (IDLE + (ACCEPT + more))))
    ensures ProgramFlash(data, s).value == Ok && ProgramFlash(data, s).rest == more
  {
    OnePage(data);
    PageHealthy(data, s, ACCEPT + more);
    var p := ProgramPage(0, data, s);
    assert ProgramFrom([data][1..], 1, p.rest) == Run(Ok, [], ACCEPT + more);
    assert ProgramFrom([data], 0, s).value == Ok && ProgramFrom([data], 0, s).rest == ACCEPT + more;
    Accepted(ACCEPT + more, more);
  }

  /** An image of one page is cut into itself. */
  lemma OnePage(data: seq<byte>)
    requires 0 < |data| <= BYTES_PER_PAGE
    ensures Pages(data) == [data]
  {
    if |data| == BYTES_PER_PAGE {
      assert data[BYTES_PER_PAGE * 0 .. BYTES_PER_PAGE * 1] == data;
    } else {
      assert data[BYTES_PER_PAGE * 0..] == data;
    }
  }

  /** One page program on a healthy bridge and an idle chip. */
  lemma PageHealthy(data: seq<byte>, s: seq<Reply>, more: seq<Reply>)
    requires 0 < |data| <= BYTES_PER_PAGE
    requires s == ACCEPT + (ACCEPT + (ACCEPT + (IDLE + more)))
    ensures ProgramPage(0, data, s).value == Ok && ProgramPage(0, data, s).rest == more
  {
    var t1 := ACCEPT + (ACCEPT + (IDLE + more));
    Accepted(s, t1);
    PageProgramHealthy(0, data, t1, more);
  }

  /** The page program itself: both writes accepted, then an idle chip. */
  lemma PageProgramHealthy(page: nat, data: seq<byte>, s: seq<Reply>, more: seq<Reply>)
    requires page < USHORT_LIMIT && 0 < |data| <= BYTES_PER_PAGE
    requires s == ACCEPT + (ACCEPT + (IDLE + more))
    ensures PageProgram(page, data, s).value == Ok && PageProgram(page, data, s).rest == more
  {
    var t2 := ACCEPT + (IDLE + more);
    AcceptTail(t2);
    AcceptTail(IDLE + more);
    AwaitIdle(FLAG_PROGRAM_FAIL, IDLE + more, more);
    var w := WriteOut(PageProgramCommand(page), s);
    assert w.value && w.rest == t2;
    var v := WriteOut(data, t2);
    assert v.value && v.rest == IDLE + more;
  }

  /** The validation read brings the image back. */
  lemma ReadbackHealthy(data: seq<byte>, s: seq<Reply>, more: seq<Reply>)
    requires 0 < |data| <= BYTES_PER_PAGE
    requires s == [Ack([]), Ack(data)] + more
    ensures ValidateFlash(data, s).value == Returned(Validation(Ok, true)) && ValidateFlash(data, s).rest == more
  {
    var rd := ReadData(0, |data|, s);
    assert rd.value == Fetched(Ok, Bytes(data)) && rd.rest == more;
  }

  lemma FlashNotHeld(data: seq<byte>, skip: bool, connected: bool, s: seq<Reply>)
    requires 0 < |data| <= TOTAL_BYTES
    requires Initialize(connected, s).value && SetProgramB(0, Initialize(connected, s).rest).value != Ok
    ensures FlashEnded(Some(data), skip, connected, Flash(Some(data), skip, connected, s))
  {
    var init := Initialize(connected, s);
    var hold := SetProgramB(0, init.rest);
    var r := Flash(Some(data), skip, connected, s);
    assert r.value == Exit(EXIT_FAILURE) && r.trace == init.trace + hold.trace + [Close];
    InitializeGate(connected, s);
    EndedNotHeld(data, skip, connected, r, init.trace, hold.trace);
  }

  lemma EndedNotHeld(data: seq<byte>, skip: bool, connected: bool, r: Run<Outcome>, a: seq<Event>, h: seq<Event>)
    requires 0 < |data| <= TOTAL_BYTES && connected
    requires Settled(a) && Summarise(a) == Untouched && Pins(a) == [] && Closes(a) == 0
    requires h == [PinHigh(false)]
    requires r.value == Exit(EXIT_FAILURE) && r.trace == a + h + [Close]
    ensures FlashEnded(Some(data), skip, connected, r)
  {
    NotHeldSession(r.trace, a, h);
  }

  lemma FlashHeld(data: seq<byte>, skip: bool, connected: bool, s: seq<Reply>)
    requires 0 < |data| <= TOTAL_BYTES
    requires Initialize(connected, s).value && SetProgramB(0, Initialize(connected, s).rest).value == Ok
    ensures FlashEnded(Some(data), skip, connected, Flash(Some(data), skip, connected, s))
  {
    var init := Initialize(connected, s);
    var hold := SetProgramB(0, init.rest);
    var work := FlashSteps(data, skip, hold.rest);
    var r := Flash(Some(data), skip, connected, s);
    if work.value == Undefined {
      assert r.value == Crash && r.trace == init.trace + hold.trace + work.trace;
      InitializeGate(connected, s);
      FlashStepsSummary(data, skip, hold.rest);
      EndedCrash(data, skip, connected, r, init.trace, hold.trace, work.trace);
    } else {
      var release := SetProgramB(1, work.rest);
      FlashShape(data, skip, connected, s);
      InitializeGate(connected, s);
      FlashStepsSummary(data, skip, hold.rest);
      EndedHeld(data, skip, connected, r, init.trace, hold.trace, work.trace, release.trace, work.value == Returned(true));
    }
  }

  lemma EndedCrash(data: seq<byte>, skip: bool, connected: bool, r: Run<Outcome>, a: seq<Event>, h: seq<Event>, w: seq<Event>)
    requires 0 < |data| <= TOTAL_BYTES && connected
    requires Settled(a) && Pins(a) == [] && Closes(a) == 0
    requires h == [PinHigh(true)] && BusOnly(w) && Settled(w)
    requires r.value == Crash && r.trace == a + h + w
    ensures FlashEnded(Some(data), skip, connected, r)
  {
    PinsAndClose(h[0]);
    Append(a, h);
    AppendBus(a + h, w);
  }

  lemma EndedHeld(data: seq<byte>, skip: bool, connected: bool, r: Run<Outcome>,
                  a: seq<Event>, h: seq<Event>, w: seq<Event>, q: seq<Event>, good: bool)
    requires 0 < |data| <= TOTAL_BYTES && connected
    requires Settled(a) && Summarise(a) == Untouched && Assess(a) == Outcomes([], []) && Pins(a) == [] && Closes(a) == 0
    requires h == [PinHigh(true)] && |q| == 1 && q[0].PinLow? && BusOnly(w) && Settled(w)
    requires good <==> Flashed(data, skip, Summarise(w), Assess(w))
    requires r.value.Exit? && (r.value == Exit(EXIT_SUCCESS) <==> good && q[0].ok)
    requires r.trace == a + h + w + q + [Close]
    ensures FlashEnded(Some(data), skip, connected, r)
  {
    HeldSession(a, h, w, q);
    AssessHeld(a, h, w, q);
    assert Then(Assess(a), Assess(w)) == Assess(w);
  }

  lemma FlashShape(data: seq<byte>, skip: bool, connected: bool, s: seq<Reply>)
    requires 0 < |data| <= TOTAL_BYTES
    requires Initialize(connected, s).value && SetProgramB(0, Initialize(connected, s).rest).value == Ok
    requires FlashSteps(data, skip, SetProgramB(0, Initialize(connected, s).rest).rest).value.Returned?
    ensures var init := Initialize(connected, s);
      var hold := SetProgramB(0, init.rest);
      var work := FlashSteps(data, skip, hold.rest);
      var release := SetProgramB(1, work.rest);
      var r := Flash(Some(data), skip, connected, s);
      && r.trace == init.trace + hold.trace + work.trace + release.trace + [Close]
      && (r.value == Exit(EXIT_SUCCESS) <==> work.value == Returned(true) && release.value == Ok)
      && r.value.Exit?
  {
  }

  // ---------------------------------------------------------------------
  // main

  /** An argument that does not start with '-' names the image file. */
  predicate IsFileArg(a: string) {
    CharAt(a, 0) != '-'
  }

  /** The flag a dash argument stands for: one of the five two-character options,
      or 0 for anything else. */
  function ArgFlag(a: string): bv8 {
    if |a| > 2 then 0 else OptionFlag(CharAt(a, 1))
  }

  /** The flags of the dash arguments, in order. */
  function FlagsOf(args: seq<string>): seq<bv8>
    decreases |args|
  {
    if args == [] then []
    else (if IsFileArg(args[0]) then [] else [ArgFlag(args[0])]) + FlagsOf(args[1..])
  }

  /** The usage text read as a grammar, over the file arguments and the option
      flags of a command line whatever their order:
        saturn-loader <file> [-s]
        saturn-loader [-l | -e | -h | -v]
      At most one file and one option; an unknown option, `-s` without a file,
      an option other than `-s` with a file, `-h` and an empty command line all
      show the usage. */
  function Judge(files: seq<string>, flags: seq<bv8>): Action {
    if |files| > 1 || |flags| > 1 || (|flags| == 1 && flags[0] == 0) then ShowUsage
    else
      var flag := if |flags| == 1 then flags[0] else 0;
      if |files| == 1 then
        if flag == 0 then FlashImage(files[0], false)
        else if flag == OPTIONS_SKIP_VALIDATION then FlashImage(files[0], true)
        else ShowUsage
      else if flag == OPTIONS_LIST_DEVICES then ListDevices
      else if flag == OPTIONS_ERASE_CHIP then EraseAll
      else if flag == OPTIONS_VERSION then ShowVersion
      else ShowUsage
  }

  /** What a command line asks for, by the usage grammar. */
  function Expected(args: seq<string>): Action {
    Judge(Filter(args, IsFileArg), FlagsOf(args))
  }

  /** `main`'s argument loop and dispatch accept exactly the usage grammar: the
      loop stops at the first offending argument, but the action is the one the
      whole command line calls for. */
  lemma ParseMatchesReference(args: seq<string>)
    requires forall i :: 0 <= i < |args| ==> CString(args[i])
    ensures Parse(args) == Expected(args)
  {
    if |args| > 0 {
      ParseFromReference(args, None, 0);
    }
  }

  function Files(file: Option<string>): seq<string> {
    if file.Some? then [file.value] else []
  }

  function Flags(options: bv8): seq<bv8> {
    if options == 0 then [] else [options]
  }

  lemma {:induction false} ParseFromReference(args: seq<string>, file: Option<string>, options: bv8)
    requires forall i :: 0 <= i < |args| ==> CString(args[i])
    requires |args| > 0 || file.Some? || options != 0
    requires Seen(options)
    ensures ParseFrom(args, file, options) == Judge(Files(file) + Filter(args, IsFileArg), Flags(options) + FlagsOf(args))
    decreases |args|
  {
    if args == [] {
      DispatchMatches(file, options);
      assert Filter(args, IsFileArg) == [] && FlagsOf(args) == [];
      assert Files(file) + [] == Files(file) && Flags(options) + [] == Flags(options);
    } else if IsFileArg(args[0]) {
      FileArgShape(args);
      if file.None? {
        ParseFromReference(args[1..], Some(args[0]), options);
        FileJoin(args[0], Filter(args[1..], IsFileArg));
      } else {
        JudgeUsage(Files(file) + Filter(args, IsFileArg), Flags(options) + FlagsOf(args));
      }
    } else {
      DashArgShape(args);
      if options == 0 && ArgFlag(args[0]) != 0 {
        ParseFromReference(args[1..], file, ArgFlag(args[0]));
        FlagJoin(ArgFlag(args[0]), FlagsOf(args[1..]));
      } else {
        JudgeUsage(Files(file) + Filter(args, IsFileArg), Flags(options) + FlagsOf(args));
      }
    }
  }

  /** How a file argument at the head of the command line enters the grammar. */
  lemma FileArgShape(args: seq<string>)
    requires |args| > 0 && IsFileArg(args[0])
    ensures Filter(args, IsFileArg) == [args[0]] + Filter(args[1..], IsFileArg)
    ensures FlagsOf(args) == FlagsOf(args[1..])
  {
  }

  lemma FileJoin(arg: string, fs: seq<string>)
    ensures Files(None) + ([arg] + fs) == Files(Some(arg)) + fs
  {
  }

  lemma FlagJoin(flag: bv8, gs: seq<bv8>)
    requires flag != 0
    ensures Flags(0) + ([flag] + gs) == Flags(flag) + gs
  {
  }

  /** How a dash argument at the head of the command line enters the grammar. */
  lemma DashArgShape(args: seq<string>)
    requires |args| > 0 && !IsFileArg(args[0])
    ensures Filter(args, IsFileArg) == Filter(args[1..], IsFileArg)
    ensures FlagsOf(args) == [ArgFlag(args[0])] + FlagsOf(args[1..])
  {
  }

  /** Two file names, two options or an unknown option is a usage error, whatever
      else is on the command line. */
  lemma JudgeUsage(files: seq<string>, flags: seq<bv8>)
    requires |files| > 1 || |flags| > 1 || (|flags| > 0 && flags[0] == 0)
    ensures Judge(files, flags) == ShowUsage
  {
  }

  /** The checks after the loop and the switch agree with the grammar. */
  lemma DispatchMatches(file: Option<string>, options: bv8)
    requires file.Some? || options != 0
    requires Seen(options)
    ensures Dispatch(file, options) == Judge(Files(file), Flags(options))
  {
  }

  /** `main` end to end: a command line outside the grammar exits 1 and the version
      banner exits 0, both without touching the bridge; listing devices exits 0
      exactly when an FTDI context can be created; only erasing and flashing use
      the bridge. Erasing exits 0 exactly when both pin operations went through
      and the chip was erased as `ChipErased` says; flashing exits 0 exactly
      when both pin operations went through and the named file's contents were
      flashed as `Flashed` says. */
  lemma MainOutcomes(args: seq<string>, env: Environment, s: seq<Reply>)
    requires forall i :: 0 <= i < |args| ==> CString(args[i])
    ensures var r := Main(args, env, s); var action := Expected(args);
      var held := Pins(r.trace) == [PinHigh(true), PinLow(true)];
      && (action == ShowUsage ==> r.value == Exit(EXIT_FAILURE) && r.trace == [])
      && (action == ShowVersion ==> r.value == Exit(EXIT_SUCCESS) && r.trace == [])
      && (action == ListDevices ==> r.trace == [] && (r.value == Exit(EXIT_SUCCESS) <==> env.ftdiAvailable))
      && (r.trace != [] ==> action == EraseAll || action.FlashImage?)
      && (action == EraseAll ==>
            (r.value == Exit(EXIT_SUCCESS) <==> held && ChipErased(Summarise(r.trace), Assess(r.trace))))
      && (action.FlashImage? ==>
            (r.value == Exit(EXIT_SUCCESS) <==>
               held && action.file in env.files
               && Flashed(env.files[action.file], action.skip, Summarise(r.trace), Assess(r.trace))))
  {
    ParseMatchesReference(args);
    match Parse(args)
    case EraseAll =>
      EraseChipCleanup(env.connected, s);
    case FlashImage(file, skip) =>
      FlashCleanup(if file in env.files then Some(env.files[file]) else None, skip, env.connected, s);
    case _ =>
  }
}
