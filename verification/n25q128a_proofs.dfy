/**
 Properties of the N25Q128A driver: the wire encodings and their inverses,
 the register masks, and the trace of every driver call (transaction
 framing, the order of the status and flag-status polls, the return code).
 */
module N25Q128AProofs {
  import opened Transport
  import opened N25Q128A

  // ---------------------------------------------------------------------
  // Constants of the part

  /** The page and sector geometry is consistent and every byte address of the
      device fits the 3-byte address field. */
  lemma Geometry()
    ensures TOTAL_BYTES == PAGES * BYTES_PER_PAGE
    ensures TOTAL_BYTES == SECTORS * BYTES_PER_SECTOR
    ensures BYTES_PER_SECTOR == 256 * BYTES_PER_PAGE
    ensures TOTAL_BYTES == ADDRESS_LIMIT
    ensures SECTORS - 1 < 0x100 && PAGES - 1 < USHORT_LIMIT
    ensures 1 + 2 + UNIQUE_ID_LENGTH == ID_LENGTH
  {
  }

  const OPCODES: seq<byte> :=
    [ID, READ, READ_STATUS, READ_FLAG_STATUS, WRITE_ENABLE, WRITE_DISABLE, BULK_ERASE, PAGE_PROGRAM, SECTOR_ERASE]

  /** No two of the nine commands share an opcode. */
  lemma OpcodesDistinct()
    ensures |OPCODES| == 9
    ensures forall i, j :: 0 <= i < j < |OPCODES| ==> OPCODES[i] != OPCODES[j]
  {
  }

  /** The three failure messages tell the three failing operations apart. */
  lemma MessagesDistinct()
    ensures BULK_ERASE_FAILED != SECTOR_ERASE_FAILED
    ensures BULK_ERASE_FAILED != PROGRAM_FAILED
    ensures SECTOR_ERASE_FAILED != PROGRAM_FAILED
  {
  }

  // ---------------------------------------------------------------------
  // Address field

  /** The address field keeps the low 24 bits of the address, and loses nothing
      for an address of the device. */
  lemma {:induction false} AddressRoundTrip(a: nat)
    requires a < UINT_LIMIT
    ensures DecodeAddress(AddressBytes(a)) == a % ADDRESS_LIMIT
    ensures a < ADDRESS_LIMIT ==> DecodeAddress(AddressBytes(a)) == a
  {
    var l := a % 0x100;
    var q1 := a / 0x100;
    var m := q1 % 0x100;
    var q2 := q1 / 0x100;
    var h := q2 % 0x100;
    var c := q2 / 0x100;
    assert a == q1 * 0x100 + l;
    assert q1 == q2 * 0x100 + m;
    assert q2 == c * 0x100 + h;
    assert a == q2 * 0x1_0000 + (m * 0x100 + l);
    assert a / 0x1_0000 == q2;
    assert a == c * ADDRESS_LIMIT + (h * 0x1_0000 + m * 0x100 + l);
    assert a % ADDRESS_LIMIT == h * 0x1_0000 + m * 0x100 + l;
    assert AddressBytes(a) == [h, m, l];
  }

  /** Every 3-byte field is the encoding of the address it decodes to. */
  lemma AddressBytesRoundTrip(b: seq<byte>)
    requires |b| == 3
    ensures AddressBytes(DecodeAddress(b)) == b
  {
    var a := DecodeAddress(b);
    assert a == (b[0] as int) * 0x1_0000 + ((b[1] as int) * 0x100 + (b[2] as int));
    assert a / 0x1_0000 == b[0];
    assert a == ((b[0] as int) * 0x100 + (b[1] as int)) * 0x100 + (b[2] as int);
    assert a / 0x100 == (b[0] as int) * 0x100 + (b[1] as int);
    assert (a / 0x100) % 0x100 == b[1];
  }

  /** The read command is opcode 0x03 and the address, most significant byte first. */
  lemma ReadCommandRoundTrip(a: nat)
    requires a < ADDRESS_LIMIT
    ensures ReadCommand(a)[0] == 0x03
    ensures DecodeAddress(ReadCommand(a)[1..]) == a
  {
    AddressRoundTrip(a);
  }

  /** The sector-erase command is `[0xd8, sector, 0, 0]`: the sector's base address. */
  lemma SectorEraseCommandBytes(sector: nat)
    requires sector < SECTORS
    ensures SectorEraseCommand(sector) == [0xd8, sector, 0x00, 0x00]
    ensures DecodeAddress(SectorEraseCommand(sector)[1..]) == sector * BYTES_PER_SECTOR
  {
    var a := sector * BYTES_PER_SECTOR;
    assert a / 0x1_0000 == sector;
    assert a / 0x100 == sector * 0x100;
    assert AddressBytes(a) == [sector, 0, 0];
    assert SectorEraseCommand(sector)[1..] == [sector, 0, 0];
  }

  /** The page-program command is `[0x02, page >> 8, page & 0xff, 0]`: the page's base address. */
  lemma PageProgramCommandBytes(page: nat)
    requires page < USHORT_LIMIT
    ensures PageProgramCommand(page) == [0x02, page / 0x100, page % 0x100, 0x00]
    ensures DecodeAddress(PageProgramCommand(page)[1..]) == page * BYTES_PER_PAGE
  {
    var a := page * BYTES_PER_PAGE;
    var hi := page / 0x100;
    var lo := page % 0x100;
    assert page == hi * 0x100 + lo;
    assert a == hi * 0x1_0000 + lo * 0x100;
    assert a / 0x1_0000 == hi;
    assert a / 0x100 == page;
    assert AddressBytes(a) == [hi, lo, 0];
    assert PageProgramCommand(page)[1..] == [hi, lo, 0];
  }

  // ---------------------------------------------------------------------
  // Identity

  /** Decoding the identify answer of a chip gives back its identity. */
  lemma IdRoundTrip(x: FlashId)
    requires WellFormedId(x)
    ensures DecodeId(EncodeId(x)) == x
  {
    var d := EncodeId(x);
    assert d[3..] == x.uniqueId;
    assert (d[2] as int) * 0x100 + (d[1] as int) == x.deviceId;
  }

  /** Every 20-byte identify answer is the encoding of the identity decoded from it. */
  lemma IdBytesRoundTrip(d: seq<byte>)
    requires |d| == ID_LENGTH
    ensures EncodeId(DecodeId(d)) == d
  {
    var x := DecodeId(d);
    var dev := (d[2] as int) * 0x100 + (d[1] as int);
    assert dev % 0x100 == d[1] && dev / 0x100 == d[2];
    assert EncodeId(x) == [d[0], d[1], d[2]] + d[3..];
    assert d == [d[0], d[1], d[2]] + d[3..];
  }

  // ---------------------------------------------------------------------
  // Register masks

  /** Status bit 0 is the write-in-progress flag. */
  lemma {:induction false} WritingIsBit0(status: byte)
    ensures Writing(status) <==> Bit(status, 0)
  {
    assert BitAnd(status, 1) == BitAnd(status / 2, 0) * 2 + (if status % 2 == 1 then 1 else 0) by {
      if status != 0 {
      }
    }
  }

  /** The erase check fails on bit 1 or bit 2 of the flag register, whatever the
      other bits: a mask test, not an equality with 0x06. */
  lemma {:induction false} EraseFailMask(flag: byte)
    ensures Masked(flag, FLAG_ERASE_FAIL) <==> Bit(flag, 1) || Bit(flag, 2)
  {
    var f1 := flag / 2;
    var f2 := f1 / 2;
    assert f2 == flag / 4;
    assert BitAnd(f2, 1) == (if f2 % 2 == 1 then 1 else 0) by {
      if f2 != 0 {
        assert BitAnd(f2, 1) == 2 * BitAnd(f2 / 2, 0) + (if f2 % 2 == 1 then 1 else 0);
      }
    }
    assert BitAnd(f1, 3) == 2 * BitAnd(f2, 1) + (if f1 % 2 == 1 then 1 else 0) by {
      if f1 == 0 {
        assert f2 == 0;
      }
    }
    assert BitAnd(flag, 6) == 2 * BitAnd(f1, 3) by {
      if flag == 0 {
        assert f1 == 0;
      }
    }
    assert Pow2(1) == 2 && Pow2(2) == 4;
  }

  /** The program check fails on bit 0 or bit 2 of the flag register, whatever
      the other bits: a mask test, not an equality with 0x05. */
  lemma {:induction false} ProgramFailMask(flag: byte)
    ensures Masked(flag, FLAG_PROGRAM_FAIL) <==> Bit(flag, 0) || Bit(flag, 2)
  {
    var f1 := flag / 2;
    var f2 := f1 / 2;
    assert f2 == flag / 4;
    assert BitAnd(f2, 1) == (if f2 % 2 == 1 then 1 else 0) by {
      if f2 != 0 {
        assert BitAnd(f2, 1) == 2 * BitAnd(f2 / 2, 0) + (if f2 % 2 == 1 then 1 else 0);
      }
    }
    assert BitAnd(f1, 2) == 2 * BitAnd(f2, 1) by {
      if f1 == 0 {
        assert f2 == 0;
      }
    }
    assert BitAnd(flag, 5) == 2 * BitAnd(f1, 2) + (if flag % 2 == 1 then 1 else 0) by {
      if flag == 0 {
        assert f1 == 0;
      }
    }
    assert Pow2(1) == 2 && Pow2(2) == 4;
  }

  // ---------------------------------------------------------------------
  // Transactions

  /** A run of data events (writes and reads). */
  predicate DataOnly(body: seq<Event>) {
    forall i :: 0 <= i < |body| ==> body[i].Write? || body[i].Read?
  }

  lemma {:induction false} DataOnlyCloses(body: seq<Event>)
    requires DataOnly(body)
    ensures FramedFrom(body + [Stop], true)
    decreases |body|
  {
    if body == [] {
      assert FramedFrom([], false);
    } else {
      assert (body + [Stop])[1..] == body[1..] + [Stop];
      DataOnlyCloses(body[1..]);
    }
  }

  lemma {:induction false} NoStartNoCommands(t: seq<Event>)
    requires forall i :: 0 <= i < |t| ==> !t[i].Start?
    ensures Commands(t) == []
    decreases |t|
  {
    if |t| >= 2 {
      NoStartNoCommands(t[1..]);
    }
  }

  /** One transaction `Start, Write(bytes), …, Stop`: it is framed and is one command. */
  lemma Transaction(t: seq<Event>)
    requires |t| >= 3 && t[0] == Start && t[1].Write? && t[|t| - 1] == Stop
    requires DataOnly(t[1..|t| - 1])
    ensures Framed(t) && Settled(t)
    ensures Commands(t) == [Command(t[1].bytes, t[1].ok, t[2])]
  {
    DataOnlyCloses(t[1..|t| - 1]);
    assert t[1..|t| - 1] + [Stop] == t[1..];
    NoStartNoCommands(t[1..]);
  }

  /** The one-byte answer of a register read, if it came. */
  function Answer(c: Command): Option<byte> {
    if c.ok && c.next.Read? && c.next.got.Some? && |c.next.got.value| == 1 then Some(c.next.got.value[0]) else None
  }

  // ---------------------------------------------------------------------
  // Leaf calls

  /** `n25q128a_id`: one transaction sending 0x9f and asking for 20 bytes; the
      identity returned is the one those bytes encode. */
  lemma IdentifyProtocol(s: seq<Reply>)
    ensures var r := Identify(s);
      && Framed(r.trace) && Settled(r.trace)
      && r.trace[..2] == [Start, Write([ID], |s| > 0 && s[0].Ack?)]
      && Commands(r.trace) == [Command([ID], |s| > 0 && s[0].Ack?, r.trace[2])]
      && (|s| > 0 && s[0].Ack? ==> |r.trace| == 4 && r.trace[2].Read? && r.trace[2].count == ID_LENGTH)
      && (r.value.Some? <==> |r.trace| == 4 && r.trace[2].Read? && r.trace[2].got.Some?)
      && (r.value.Some? ==> r.trace[2] == Read(ID_LENGTH, Some(EncodeId(r.value.value))))
  {
    var r := Identify(s);
    Transaction(r.trace);
    if r.value.Some? {
      IdBytesRoundTrip(s[1].data);
    }
  }

  /** `n25q128a_read`: one transaction with the read command and a payload read of
      `length` bytes. The code reports only the command write: a failed payload
      read still returns OK, with a NULL buffer. */
  lemma ReadDataProtocol(address: nat, length: nat, s: seq<Reply>)
    requires address < UINT_LIMIT && length < UINT_LIMIT
    ensures var r := ReadData(address, length, s); var ok := |s| > 0 && s[0].Ack?;
      && Framed(r.trace) && Settled(r.trace)
      && Commands(r.trace) == [Command(ReadCommand(address), ok, r.trace[2])]
      && (r.value.code == Ok <==> ok)
      && (r.value.code != Ok ==> r.value == Fetched(Fail(TransportError), Unassigned) && r.trace[2] == Stop)
      && (ok ==> r.trace[2] == Read(length, if r.value.buffer.Bytes? then Some(r.value.buffer.data) else None))
      && (ok ==> r.value.buffer.Null? || r.value.buffer.Bytes?)
  {
    Transaction(ReadData(address, length, s).trace);
  }

  /** A register read: one transaction with the one-byte command and a one-byte
      read; the value is the byte the chip answered, if it answered. */
  lemma RegisterProtocol(opcode: byte, s: seq<Reply>)
    ensures var r := ReadRegister(opcode, s); var ok := |s| > 0 && s[0].Ack?;
      && Framed(r.trace) && Settled(r.trace)
      && Commands(r.trace) == [Command([opcode], ok, r.trace[2])]
      && r.value == Answer(Commands(r.trace)[0])
      && (r.value.Some? ==> r.trace == [Start, Write([opcode], true), Read(1, Some([r.value.value])), Stop])
      && (r.value.None? ==>
            r.trace == [Start, Write([opcode], false), Stop] || r.trace == [Start, Write([opcode], true), Read(1, None), Stop])
  {
    var r := ReadRegister(opcode, s);
    Transaction(r.trace);
    if r.value.Some? {
      assert s[1].data == [r.value.value];
    }
  }

  /** Write enable and write disable: exactly `Start, Write([opcode]), Stop`, and
      the call fails iff the write failed. */
  lemma LatchProtocol(opcode: byte, s: seq<Reply>)
    ensures var r := Latch(opcode, s); var ok := |s| > 0 && s[0].Ack?;
      && r.trace == [Start, Write([opcode], ok), Stop]
      && Framed(r.trace) && Settled(r.trace)
      && Commands(r.trace) == [Command([opcode], ok, Stop)]
      && (r.value == Ok <==> ok)
      && (r.value != Ok ==> r.value == Fail(TransportError))
  {
    Transaction(Latch(opcode, s).trace);
  }

  // ---------------------------------------------------------------------
  // Polling

  /** The commands of a poll, as the driver issues them: status reads, one per
      transaction, repeated while the chip answers "write in progress"; a failed
      status read ends the sequence; once the chip answers idle, one flag-status
      read follows when `flag` is set, and nothing otherwise. */
  predicate PollShape(ps: seq<Command>, flag: bool)
    decreases |ps|
  {
    |ps| >= 1 && ps[0].bytes == [READ_STATUS] &&
    match Answer(ps[0])
    case None => |ps| == 1
    case Some(status) =>
      if Writing(status) then PollShape(ps[1..], flag)
      else if flag then |ps| == 2 && ps[1].bytes == [READ_FLAG_STATUS]
      else |ps| == 1
  }

  function Last<T>(xs: seq<T>): T
    requires |xs| > 0
  {
    xs[|xs| - 1]
  }

  /** What the poll loop promises of its trace `t` and code `value`. */
  predicate PollEnds(t: seq<Event>, value: Code) {
    && Framed(t) && Settled(t)
    && PollShape(Commands(t), false)
    && (value == Ok <==> Answer(Last(Commands(t))).Some?)
    && (value == Ok ==> !Writing(Answer(Last(Commands(t))).value))
    && (value != Ok ==> value == Fail(TransportError))
  }

  /** The poll loop: its commands have the poll shape, and it returns OK iff the
      last status read was answered (then with write in progress clear). */
  lemma {:induction false} PollStatusProtocol(s: seq<Reply>)
    ensures Framed(PollStatus(s).trace) && Settled(PollStatus(s).trace)
    ensures PollShape(Commands(PollStatus(s).trace), false)
    ensures PollStatus(s).value == Ok <==> Answer(Last(Commands(PollStatus(s).trace))).Some?
    ensures PollStatus(s).value == Ok ==> !Writing(Answer(Last(Commands(PollStatus(s).trace))).value)
    ensures PollStatus(s).value != Ok ==> PollStatus(s).value == Fail(TransportError)
    decreases |s|
  {
    RegisterProtocol(READ_STATUS, s);
    PollSteps(s);
  }

  lemma {:induction false} PollSteps(s: seq<Reply>)
    ensures PollEnds(PollStatus(s).trace, PollStatus(s).value)
    decreases |s|
  {
    RegisterProtocol(READ_STATUS, s);
    var st := ReadStatus(s);
    if st.value.Some? && Writing(st.value.value) {
      PollSteps(st.rest);
      var more := PollStatus(st.rest);
      assert PollStatus(s) == Run(more.value, st.trace + more.trace, more.rest);
      PollJoin(st.trace, Commands(st.trace)[0], more.trace, more.value);
    } else {
      assert PollStatus(s).trace == st.trace;
    }
  }

  /** A status read that found the chip busy, followed by the rest of the poll. */
  lemma PollJoin(a: seq<Event>, c: Command, b: seq<Event>, value: Code)
    requires Framed(a) && Settled(a) && Commands(a) == [c]
    requires c.bytes == [READ_STATUS] && Answer(c).Some? && Writing(Answer(c).value)
    requires PollEnds(b, value)
    ensures PollEnds(a + b, value)
  {
    FramedConcat(a, b);
    CommandsConcat(a, b);
    SettledConcat(a, b);
    var cs := Commands(a + b);
    assert cs == [c] + Commands(b);
    assert cs[1..] == Commands(b);
    assert Last(cs) == Last(Commands(b));
  }

  lemma {:induction false} PollShapeExtends(ps: seq<Command>, f: Command)
    requires PollShape(ps, false)
    requires f.bytes == [READ_FLAG_STATUS]
    ensures Answer(Last(ps)).None? ==> PollShape(ps, true)
    ensures Answer(Last(ps)).Some? ==> PollShape(ps + [f], true)
    decreases |ps|
  {
    assert (ps + [f])[0] == ps[0];
    match Answer(ps[0])
    case None =>
    case Some(status) =>
      if Writing(status) {
        PollShapeExtends(ps[1..], f);
        assert (ps + [f])[1..] == ps[1..] + [f];
      }
  }

  /** The flag-status read happened: it is the last command. */
  predicate ReachedFlag(cs: seq<Command>) {
    |cs| > 0 && Last(cs).bytes == [READ_FLAG_STATUS]
  }

  /** The flag-status read came back without any bit of `mask`. */
  predicate FlagCleared(cs: seq<Command>, mask: byte) {
    ReachedFlag(cs) && Answer(Last(cs)).Some? && !Masked(Answer(Last(cs)).value, mask)
  }

  /** The flag-status read came back with some bit of `mask`. */
  predicate FlagFailed(cs: seq<Command>, mask: byte) {
    ReachedFlag(cs) && Answer(Last(cs)).Some? && Masked(Answer(Last(cs)).value, mask)
  }

  /** The flag-status read was issued but failed. */
  predicate FlagUnanswered(cs: seq<Command>) {
    ReachedFlag(cs) && Answer(Last(cs)).None?
  }

  /** The wait that follows every erase and program command: status polls, then
      one flag-status read once idle; how it ended is read off its commands. */
  predicate AwaitBehaviour(mask: byte, c: Run<Completion>) {
    var cs := Commands(c.trace);
    && Framed(c.trace) && Settled(c.trace)
    && PollShape(cs, true)
    && (c.value.PollFailed? <==> !ReachedFlag(cs))
    && (c.value.FlagUnread? <==> FlagUnanswered(cs))
    && (c.value.FlagSet? <==> FlagFailed(cs, mask))
    && (c.value.FlagClear? <==> FlagCleared(cs, mask))
  }

  lemma AwaitProtocol(mask: byte, s: seq<Reply>)
    ensures AwaitBehaviour(mask, Await(mask, s))
  {
    PollStatusProtocol(s);
    if PollStatus(s).value != Ok {
      AwaitPollFailed(mask, s);
    } else {
      AwaitFlagRead(mask, s);
    }
  }

  lemma AwaitPollFailed(mask: byte, s: seq<Reply>)
    requires PollStatus(s).value != Ok
    ensures AwaitBehaviour(mask, Await(mask, s))
  {
    var p := PollStatus(s);
    PollStatusProtocol(s);
    var pcs := Commands(p.trace);
    assert Await(mask, s) == Run(PollFailed, p.trace, p.rest);
    PollShapeExtends(pcs, Command([READ_FLAG_STATUS], false, Stop));
    PollShapeLastIsStatus(pcs, false);
    assert !ReachedFlag(pcs);
  }

  lemma AwaitFlagRead(mask: byte, s: seq<Reply>)
    requires PollStatus(s).value == Ok
    ensures AwaitBehaviour(mask, Await(mask, s))
  {
    var p := PollStatus(s);
    PollStatusProtocol(s);
    var f := ReadFlagStatus(p.rest);
    RegisterProtocol(READ_FLAG_STATUS, p.rest);
    FlagReadJoins(mask, p.trace, f.trace, f.value);
  }

  /** A finished poll followed by one flag-status transaction answering `v`. */
  lemma FlagReadJoins(mask: byte, pt: seq<Event>, ft: seq<Event>, v: Option<byte>)
    requires Framed(pt) && Settled(pt) && PollShape(Commands(pt), false)
    requires Answer(Last(Commands(pt))).Some?
    requires Framed(ft) && Settled(ft)
    requires |Commands(ft)| == 1 && Commands(ft)[0].bytes == [READ_FLAG_STATUS]
    requires Answer(Commands(ft)[0]) == v
    ensures var value := match v
              case None => FlagUnread
              case Some(flag) => if Masked(flag, mask) then FlagSet(flag) else FlagClear(flag);
            AwaitBehaviour(mask, Run(value, pt + ft, []))
  {
    var pcs := Commands(pt);
    var fc := Commands(ft)[0];
    FramedConcat(pt, ft);
    CommandsConcat(pt, ft);
    PollShapeExtends(pcs, fc);
    var cs := pcs + [fc];
    assert Commands(pt + ft) == cs;
    assert Last(cs) == fc;
  }

  /** Every command of a poll is a status or flag-status read. */
  lemma {:induction false} PollShapeOpcodes(ps: seq<Command>, flag: bool)
    requires PollShape(ps, flag)
    ensures forall i :: 0 <= i < |ps| ==> Opcode(ps[i]) == READ_STATUS || Opcode(ps[i]) == READ_FLAG_STATUS
    decreases |ps|
  {
    match Answer(ps[0])
    case None =>
    case Some(status) =>
      if Writing(status) {
        PollShapeOpcodes(ps[1..], flag);
        forall i | 1 <= i < |ps|
          ensures Opcode(ps[i]) == READ_STATUS || Opcode(ps[i]) == READ_FLAG_STATUS
        {
          assert ps[i] == ps[1..][i - 1];
        }
      }
  }

  /** Selecting any opcodes other than the two register reads drops a whole poll. */
  lemma PollSelectsNothing(ps: seq<Command>, flag: bool, ops: set<int>)
    requires PollShape(ps, flag)
    requires READ_STATUS !in ops && READ_FLAG_STATUS !in ops
    ensures Select(ps, ops) == []
  {
    PollShapeOpcodes(ps, flag);
    SelectNone(ps, ops);
  }

  lemma {:induction false} PollShapeLastIsStatus(ps: seq<Command>, flag: bool)
    requires PollShape(ps, flag)
    ensures Last(ps).bytes == [READ_STATUS] || (flag && Last(ps).bytes == [READ_FLAG_STATUS] && |ps| >= 2 && Answer(ps[|ps| - 2]).Some?)
    ensures !flag ==> Last(ps).bytes == [READ_STATUS]
    decreases |ps|
  {
    match Answer(ps[0])
    case None =>
    case Some(status) =>
      if Writing(status) {
        PollShapeLastIsStatus(ps[1..], flag);
      }
  }

  // ---------------------------------------------------------------------
  // Erase and program

  /** What the bulk and sector erases promise about a run `r` that sends `command`:
      - the command is the first transaction and is closed before any poll;
      - if the bridge accepted it, the status polls and the flag-status read follow
        in the poll shape (flag-status only after an idle status, a failed status
        read ends the call);
      - the erase fails with `message` iff the flag register has bit 1 or 2 set;
        it fails with a transport error iff the flag register was never read; a
        flag-status read that fails leaves the OK code of the last status read;
      - Start/Stop are balanced, except for the one extra Stop that closes every
        run whose flag register came back clear. */
  predicate EraseBehaviour(command: seq<byte>, message: string, s: seq<Reply>, r: Run<Code>) {
    var cs := Commands(r.trace);
    && Settled(r.trace)
    && |cs| >= 1 && cs[0].bytes == command && cs[0].next == Stop
    && (cs[0].ok <==> |s| > 0 && s[0].Ack?)
    && (cs[0].ok ==> PollShape(cs[1..], true))
    && (!cs[0].ok ==> |cs| == 1)
    && (ExtraStop(r.trace) <==> FlagCleared(cs, FLAG_ERASE_FAIL))
    && (Framed(r.trace) <==> !FlagCleared(cs, FLAG_ERASE_FAIL))
    && (r.value == Ok <==> FlagCleared(cs, FLAG_ERASE_FAIL) || FlagUnanswered(cs))
    && (r.value == Fail(ChipError(message)) <==> FlagFailed(cs, FLAG_ERASE_FAIL))
    && (r.value == Fail(TransportError) <==> !ReachedFlag(cs))
  }

  lemma EraseProtocol(command: seq<byte>, message: string, s: seq<Reply>)
    requires command != [READ_FLAG_STATUS]
    ensures EraseBehaviour(command, message, s, Erase(command, message, s))
  {
    if |s| > 0 && s[0].Ack? {
      EraseAccepted(command, message, s);
    } else {
      EraseRejected(command, message, s);
    }
  }

  lemma EraseRejected(command: seq<byte>, message: string, s: seq<Reply>)
    requires command != [READ_FLAG_STATUS]
    requires !(|s| > 0 && s[0].Ack?)
    ensures EraseBehaviour(command, message, s, Erase(command, message, s))
  {
    var t := [Start, Write(command, false), Stop];
    assert Erase(command, message, s).trace == t;
    assert Erase(command, message, s).value == Fail(TransportError);
    Transaction(t);
    FramedExcludesExtraStop(t);
  }

  lemma EraseAccepted(command: seq<byte>, message: string, s: seq<Reply>)
    requires |s| > 0 && s[0].Ack?
    ensures EraseBehaviour(command, message, s, Erase(command, message, s))
  {
    var head := [Start, Write(command, true), Stop];
    var w := WriteOut(command, s);
    assert w.value && w.rest == s[1..];
    assert [Start] + w.trace + [Stop] == head;
    var c := Await(FLAG_ERASE_FAIL, s[1..]);
    assert Erase(command, message, s) == EraseOutcome(head, message, c);
    AwaitProtocol(FLAG_ERASE_FAIL, s[1..]);
    EraseOutcomeBehaviour(command, message, head, c);
  }

  lemma EraseOutcomeBehaviour(command: seq<byte>, message: string, head: seq<Event>, c: Run<Completion>)
    requires head == [Start, Write(command, true), Stop]
    requires AwaitBehaviour(FLAG_ERASE_FAIL, c)
    ensures var r := EraseOutcome(head, message, c); var cs := Commands(r.trace);
      && Settled(r.trace)
      && |cs| >= 1 && cs[0] == Command(command, true, Stop)
      && PollShape(cs[1..], true)
      && (ExtraStop(r.trace) <==> FlagCleared(cs, FLAG_ERASE_FAIL))
      && (Framed(r.trace) <==> !FlagCleared(cs, FLAG_ERASE_FAIL))
      && (r.value == Ok <==> FlagCleared(cs, FLAG_ERASE_FAIL) || FlagUnanswered(cs))
      && (r.value == Fail(ChipError(message)) <==> FlagFailed(cs, FLAG_ERASE_FAIL))
      && (r.value == Fail(TransportError) <==> !ReachedFlag(cs))
  {
    var r := EraseOutcome(head, message, c);
    Transaction(head);
    var c0 := Command(command, true, Stop);
    var ccs := Commands(c.trace);
    FramedConcat(head, c.trace);
    CommandsConcat(head, c.trace);
    var body := head + c.trace;
    assert Commands(body) == [c0] + ccs;
    assert Commands(body)[1..] == ccs;
    assert Last(Commands(body)) == Last(ccs);
    assert Settled(body);
    if c.value.FlagClear? {
      assert r.trace == body + [Stop];
      CommandsConcat(body, [Stop]);
      assert Commands(r.trace) == Commands(body);
      assert r.trace[..|r.trace| - 1] == body;
      assert ExtraStop(r.trace);
      FramedExcludesExtraStop(r.trace);
    } else {
      assert r.trace == body;
      FramedExcludesExtraStop(body);
    }
  }

  /** `n25q128a_bulk_erase` sends `[0xc7]` and behaves as every erase does. */
  lemma BulkEraseProtocol(s: seq<Reply>)
    ensures EraseBehaviour([0xc7], BULK_ERASE_FAILED, s, BulkErase(s))
  {
    EraseProtocol([BULK_ERASE], BULK_ERASE_FAILED, s);
  }

  /** `n25q128a_sector_erase` sends `[0xd8, sector, 0, 0]` and behaves as every erase does. */
  lemma SectorEraseProtocol(sector: nat, s: seq<Reply>)
    requires sector < SECTORS
    ensures EraseBehaviour([0xd8, sector, 0x00, 0x00], SECTOR_ERASE_FAILED, s, SectorErase(sector, s))
  {
    SectorEraseCommandBytes(sector);
    EraseProtocol(SectorEraseCommand(sector), SECTOR_ERASE_FAILED, s);
  }

  /** What `n25q128a_page_program` promises about a run `r`:
      - the command `[0x02, page >> 8, page & 0xff, 0]` and then the payload are
        written inside one transaction, with no Stop between them;
      - if either write fails, the call fails with a transport error after that
        one transaction;
      - otherwise the status polls and the flag-status read follow in the poll shape;
      - the call fails with its message iff the flag register has bit 0 or 2 set, with
        a transport error iff the flag register was never read, and a flag-status
        read that fails leaves the OK code of the last status read;
      - Start/Stop are balanced on every path. */
  predicate ProgramBehaviour(page: nat, data: seq<byte>, s: seq<Reply>, r: Run<Code>)
    requires page < USHORT_LIMIT
  {
    var cs := Commands(r.trace);
    var accepted := |cs| >= 1 && cs[0].ok && cs[0].next.Write? && cs[0].next.ok;
    && Framed(r.trace) && Settled(r.trace)
    && |cs| >= 1 && cs[0].bytes == [0x02, page / 0x100, page % 0x100, 0x00]
    && (cs[0].ok <==> |s| > 0 && s[0].Ack?)
    && (cs[0].ok ==> cs[0].next.Write? && |r.trace| >= 4
                     && r.trace[..4] == [Start, Write(cs[0].bytes, true), Write(data, cs[0].next.ok), Stop])
    && (accepted ==> PollShape(cs[1..], true))
    && (!accepted ==> |cs| == 1 && r.value == Fail(TransportError))
    && (r.value == Ok <==> FlagCleared(cs, FLAG_PROGRAM_FAIL) || FlagUnanswered(cs))
    && (r.value == Fail(ChipError(PROGRAM_FAILED)) <==> FlagFailed(cs, FLAG_PROGRAM_FAIL))
    && (r.value == Fail(TransportError) <==> !ReachedFlag(cs))
  }

  lemma PageProgramProtocol(page: nat, data: seq<byte>, s: seq<Reply>)
    requires page < USHORT_LIMIT && |data| < USHORT_LIMIT
    ensures ProgramBehaviour(page, data, s, PageProgram(page, data, s))
  {
    if !(|s| > 0 && s[0].Ack?) {
      ProgramRejected(page, data, s, false);
    } else if !(|s| > 1 && s[1].Ack?) {
      ProgramRejected(page, data, s, true);
    } else {
      ProgramAccepted(page, data, s);
    }
  }

  /** The command write failed (`!commandOk`) or the payload write failed. */
  lemma ProgramRejected(page: nat, data: seq<byte>, s: seq<Reply>, commandOk: bool)
    requires page < USHORT_LIMIT && |data| < USHORT_LIMIT
    requires commandOk <==> |s| > 0 && s[0].Ack?
    requires commandOk ==> !(|s| > 1 && s[1].Ack?)
    ensures ProgramBehaviour(page, data, s, PageProgram(page, data, s))
  {
    PageProgramCommandBytes(page);
    var cmd := PageProgramCommand(page);
    var t := if commandOk then [Start, Write(cmd, true), Write(data, false), Stop] else [Start, Write(cmd, false), Stop];
    var w := WriteOut(cmd, s);
    if commandOk {
      var v := WriteOut(data, w.rest);
      assert [Start] + w.trace + v.trace + [Stop] == t;
    } else {
      assert [Start] + w.trace + [Stop] == t;
    }
    assert PageProgram(page, data, s).trace == t;
    assert PageProgram(page, data, s).value == Fail(TransportError);
    Transaction(t);
  }

  lemma ProgramAccepted(page: nat, data: seq<byte>, s: seq<Reply>)
    requires page < USHORT_LIMIT && |data| < USHORT_LIMIT
    requires |s| > 1 && s[0].Ack? && s[1].Ack?
    ensures ProgramBehaviour(page, data, s, PageProgram(page, data, s))
  {
    PageProgramCommandBytes(page);
    var cmd := PageProgramCommand(page);
    var head := [Start, Write(cmd, true), Write(data, true), Stop];
    var w := WriteOut(cmd, s);
    var v := WriteOut(data, w.rest);
    assert w.value && v.value && v.rest == s[2..];
    assert [Start] + w.trace + v.trace + [Stop] == head;
    var c := Await(FLAG_PROGRAM_FAIL, s[2..]);
    assert PageProgram(page, data, s) == ProgramOutcome(head, c);
    AwaitProtocol(FLAG_PROGRAM_FAIL, s[2..]);
    ProgramOutcomeBehaviour(cmd, data, head, c);
  }

  lemma ProgramOutcomeBehaviour(command: seq<byte>, data: seq<byte>, head: seq<Event>, c: Run<Completion>)
    requires head == [Start, Write(command, true), Write(data, true), Stop]
    requires AwaitBehaviour(FLAG_PROGRAM_FAIL, c)
    ensures var r := ProgramOutcome(head, c); var cs := Commands(r.trace);
      && Framed(r.trace) && Settled(r.trace)
      && |cs| >= 1 && cs[0] == Command(command, true, Write(data, true))
      && |r.trace| >= 4 && r.trace[..4] == head
      && PollShape(cs[1..], true)
      && (r.value == Ok <==> FlagCleared(cs, FLAG_PROGRAM_FAIL) || FlagUnanswered(cs))
      && (r.value == Fail(ChipError(PROGRAM_FAILED)) <==> FlagFailed(cs, FLAG_PROGRAM_FAIL))
      && (r.value == Fail(TransportError) <==> !ReachedFlag(cs))
  {
    var r := ProgramOutcome(head, c);
    Transaction(head);
    var c0 := Command(command, true, Write(data, true));
    var ccs := Commands(c.trace);
    FramedConcat(head, c.trace);
    CommandsConcat(head, c.trace);
    assert r.trace == head + c.trace;
    assert Commands(r.trace) == [c0] + ccs;
    assert Commands(r.trace)[1..] == ccs;
    assert Last(Commands(r.trace)) == Last(ccs);
    assert r.trace[..4] == head;
  }
}
