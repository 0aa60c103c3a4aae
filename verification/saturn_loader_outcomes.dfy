/**
 How the commands of the flashing steps went.

 A summary (module `SaturnLoaderProofs`) says what was sent. The outcomes of a
 trace say how it went: for every chip-changing command, in the order of the
 summary's `mutations`, whether the bridge accepted it; and for every
 flag-status read, the byte it brought back (None when the read failed). With
 both, the codes the loops return and the exit status of a session can be
 stated in both directions, in terms of what happened on the bus.
 */
module SaturnLoaderOutcomes {
  import opened Transport
  import opened N25Q128A
  import opened N25Q128AProofs
  import opened SaturnLoader
  import opened SaturnLoaderProofs

  const FLAG_READS: set<int> := {READ_FLAG_STATUS}

  datatype Outcomes = Outcomes(acks: seq<bool>, flags: seq<Option<byte>>)

  function Oks(cs: seq<Command>): (r: seq<bool>)
    ensures |r| == |cs| && forall i :: 0 <= i < |cs| ==> r[i] == cs[i].ok
  {
    seq(|cs|, i requires 0 <= i < |cs| => cs[i].ok)
  }

  function Answers(cs: seq<Command>): (r: seq<Option<byte>>)
    ensures |r| == |cs| && forall i :: 0 <= i < |cs| ==> r[i] == Answer(cs[i])
  {
    seq(|cs|, i requires 0 <= i < |cs| => Answer(cs[i]))
  }

  function OutcomesOf(cs: seq<Command>): Outcomes {
    Outcomes(Oks(Select(cs, MUTATIONS)), Answers(Select(cs, FLAG_READS)))
  }

  function Assess(t: seq<Event>): Outcomes {
    OutcomesOf(Commands(t))
  }

  function Then(a: Outcomes, b: Outcomes): Outcomes {
    Outcomes(a.acks + b.acks, a.flags + b.flags)
  }

  lemma OutcomesOfConcat(a: seq<Command>, b: seq<Command>)
    ensures OutcomesOf(a + b) == Then(OutcomesOf(a), OutcomesOf(b))
  {
    SelectConcat(a, b, MUTATIONS);
    SelectConcat(a, b, FLAG_READS);
    assert Oks(Select(a, MUTATIONS) + Select(b, MUTATIONS)) == Oks(Select(a, MUTATIONS)) + Oks(Select(b, MUTATIONS));
    assert Answers(Select(a, FLAG_READS) + Select(b, FLAG_READS))
        == Answers(Select(a, FLAG_READS)) + Answers(Select(b, FLAG_READS));
  }

  lemma AssessConcat(a: seq<Event>, b: seq<Event>)
    requires Settled(a)
    ensures Assess(a + b) == Then(Assess(a), Assess(b))
  {
    CommandsConcat(a, b);
    OutcomesOfConcat(Commands(a), Commands(b));
  }

  lemma OutcomesOfOne(c: Command)
    ensures OutcomesOf([c]) == Outcomes(if Opcode(c) in MUTATIONS then [c.ok] else [],
                                        if Opcode(c) == READ_FLAG_STATUS then [Answer(c)] else [])
  {
    assert [c][1..] == [];
  }

  /** A flag-status answer that reports none of the bits of `mask`: a flag
      register that came back without them, or one that did not come back (the
      driver then keeps the OK of its last status read). */
  predicate Fine(f: Option<byte>, mask: byte) {
    f.None? || !Masked(f.value, mask)
  }

  /** Every chip-changing command was accepted, and no flag-status read reported
      a bit of `mask`. */
  predicate Clean(o: Outcomes, mask: byte) {
    && (forall i :: 0 <= i < |o.acks| ==> o.acks[i])
    && (forall i :: 0 <= i < |o.flags| ==> Fine(o.flags[i], mask))
  }

  lemma CleanThen(a: Outcomes, b: Outcomes, mask: byte)
    ensures Clean(Then(a, b), mask) <==> Clean(a, mask) && Clean(b, mask)
  {
    var o := Then(a, b);
    if Clean(a, mask) && Clean(b, mask) {
      forall i | 0 <= i < |o.acks|
        ensures o.acks[i]
      {
        if i >= |a.acks| {
          assert o.acks[i] == b.acks[i - |a.acks|];
        }
      }
      forall i | 0 <= i < |o.flags|
        ensures Fine(o.flags[i], mask)
      {
        if i >= |a.flags| {
          assert o.flags[i] == b.flags[i - |a.flags|];
        }
      }
    }
    if Clean(o, mask) {
      forall i | 0 <= i < |a.acks|
        ensures a.acks[i]
      {
        assert o.acks[i] == a.acks[i];
      }
      forall i | 0 <= i < |a.flags|
        ensures Fine(a.flags[i], mask)
      {
        assert o.flags[i] == a.flags[i];
      }
      forall i | 0 <= i < |b.acks|
        ensures b.acks[i]
      {
        assert o.acks[|a.acks| + i] == b.acks[i];
      }
      forall i | 0 <= i < |b.flags|
        ensures Fine(b.flags[i], mask)
      {
        assert o.flags[|a.flags| + i] == b.flags[i];
      }
    }
  }

  /** Acks that hold for a whole head and for the first `m` of a tail hold for
      the first `|a| + m` of the two. */
  lemma AcksPrefix(a: seq<bool>, b: seq<bool>, m: nat)
    requires forall i :: 0 <= i < |a| ==> a[i]
    requires m <= |b| && forall i :: 0 <= i < m ==> b[i]
    ensures forall i :: 0 <= i < |a| + m ==> (a + b)[i]
  {
    forall i | |a| <= i < |a| + m
      ensures (a + b)[i]
    {
      assert (a + b)[i] == b[i - |a|];
    }
  }

  /** The same for flag-status answers that report no bit of `mask`. */
  lemma FlagsPrefix(a: seq<Option<byte>>, b: seq<Option<byte>>, m: nat, mask: byte)
    requires forall i :: 0 <= i < |a| ==> Fine(a[i], mask)
    requires m <= |b| && forall i :: 0 <= i < m ==> Fine(b[i], mask)
    ensures forall i :: 0 <= i < |a| + m ==> Fine((a + b)[i], mask)
  {
    forall i | |a| <= i < |a| + m
      ensures Fine((a + b)[i], mask)
    {
      assert (a + b)[i] == b[i - |a|];
    }
  }

  // ---------------------------------------------------------------------
  // Outcomes of the driver calls

  /** A poll reads the flag register at most once, as its last command. */
  lemma {:induction false} PollFlagReads(ps: seq<Command>)
    requires PollShape(ps, true)
    ensures Select(ps, FLAG_READS) == if ReachedFlag(ps) then [Last(ps)] else []
    decreases |ps|
  {
    assert Select(ps, FLAG_READS) == Select(ps[1..], FLAG_READS);
    match Answer(ps[0])
    case None =>
      assert ps[1..] == [];
    case Some(status) =>
      if Writing(status) {
        PollFlagReads(ps[1..]);
        assert Last(ps[1..]) == Last(ps);
      } else {
        assert ps[1..] == [ps[1]] && [ps[1]][1..] == [];
      }
  }

  /** The outcomes of a poll: no acknowledgement, and the flag-status answer if
      the poll got that far. */
  lemma PollOutcomes(ps: seq<Command>)
    requires PollShape(ps, true)
    ensures OutcomesOf(ps) == Outcomes([], if ReachedFlag(ps) then [Answer(Last(ps))] else [])
  {
    PollSelectsNothing(ps, true, MUTATIONS);
    PollFlagReads(ps);
  }

  /** The outcomes of a driver call whose first command changes the chip: that
      command's acknowledgement, then the flag-status answer if the poll got that
      far. */
  lemma CallOutcomes(cs: seq<Command>)
    requires |cs| >= 1 && Opcode(cs[0]) in MUTATIONS
    requires |cs| > 1 ==> PollShape(cs[1..], true)
    ensures OutcomesOf(cs) == Outcomes([cs[0].ok], if ReachedFlag(cs) then [Answer(Last(cs))] else [])
  {
    assert cs == [cs[0]] + cs[1..];
    OutcomesOfConcat([cs[0]], cs[1..]);
    OutcomesOfOne(cs[0]);
    if |cs| > 1 {
      PollOutcomes(cs[1..]);
      assert Last(cs[1..]) == Last(cs);
    } else {
      assert cs[1..] == [];
    }
  }

  /** How one erase or page program went, read off its outcomes `o` and its code
      `value`: one acknowledgement, for its command, and at most one flag-status
      answer, which comes only after an accepted command; OK iff a flag-status
      read was attempted and its answer carried none of the bits of `mask` (a
      flag read that failed counts, since the driver then keeps the OK of its
      last status read); `message` iff it came back with one of them; a
      transport error otherwise. */
  predicate CallWent(o: Outcomes, value: Code, mask: byte, message: string) {
    && |o.acks| == 1 && |o.flags| <= 1
    && (o.flags != [] ==> o.acks[0])
    && (value == Ok <==> |o.flags| == 1 && Fine(o.flags[0], mask))
    && (value == Fail(ChipError(message)) <==> |o.flags| == 1 && !Fine(o.flags[0], mask))
    && (value == Ok || value == Fail(TransportError) || value == Fail(ChipError(message)))
  }

  lemma EraseRunWent(command: seq<byte>, message: string, s: seq<Reply>, r: Run<Code>)
    requires EraseBehaviour(command, message, s, r)
    requires |command| > 0 && command[0] in MUTATIONS
    ensures CallWent(Assess(r.trace), r.value, FLAG_ERASE_FAIL, message)
  {
    CallOutcomes(Commands(r.trace));
  }

  /** `n25q128a_sector_erase`, by its outcomes. */
  lemma SectorEraseWent(sector: nat, s: seq<Reply>)
    requires sector < SECTORS
    ensures CallWent(Assess(SectorErase(sector, s).trace), SectorErase(sector, s).value, FLAG_ERASE_FAIL, SECTOR_ERASE_FAILED)
  {
    SectorEraseProtocol(sector, s);
    EraseRunWent([0xd8, sector, 0x00, 0x00], SECTOR_ERASE_FAILED, s, SectorErase(sector, s));
  }

  /** `n25q128a_bulk_erase`, by its outcomes. */
  lemma BulkEraseWent(s: seq<Reply>)
    ensures CallWent(Assess(BulkErase(s).trace), BulkErase(s).value, FLAG_ERASE_FAIL, BULK_ERASE_FAILED)
  {
    BulkEraseProtocol(s);
    EraseRunWent([0xc7], BULK_ERASE_FAILED, s, BulkErase(s));
  }

  /** `n25q128a_page_program`, by its outcomes. */
  lemma PageProgramWent(page: nat, data: seq<byte>, s: seq<Reply>)
    requires page < USHORT_LIMIT && |data| < USHORT_LIMIT
    ensures CallWent(Assess(PageProgram(page, data, s).trace), PageProgram(page, data, s).value, FLAG_PROGRAM_FAIL, PROGRAM_FAILED)
  {
    PageProgramProtocol(page, data, s);
    CallOutcomes(Commands(PageProgram(page, data, s).trace));
  }

  /** Write enable and write disable: one acknowledgement, which is the code. */
  lemma LatchWent(opcode: byte, s: seq<Reply>)
    requires opcode == WRITE_ENABLE || opcode == WRITE_DISABLE
    ensures Assess(Latch(opcode, s).trace) == Outcomes([Latch(opcode, s).value == Ok], [])
    ensures Latch(opcode, s).value == Ok || Latch(opcode, s).value == Fail(TransportError)
  {
    LatchProtocol(opcode, s);
    OutcomesOfOne(Command([opcode], |s| > 0 && s[0].Ack?, Stop));
  }

  /** A read changes nothing and reads no flag register; a failed read command is
      a transport error. */
  lemma ReadDataWent(address: nat, length: nat, s: seq<Reply>)
    requires address < UINT_LIMIT && length < UINT_LIMIT
    ensures Assess(ReadData(address, length, s).trace) == Outcomes([], [])
    ensures ReadData(address, length, s).value.code == Ok || ReadData(address, length, s).value.code == Fail(TransportError)
  {
    var r := ReadData(address, length, s);
    ReadDataProtocol(address, length, s);
    OutcomesOfOne(Commands(r.trace)[0]);
  }

  // ---------------------------------------------------------------------
  // erase_flash

  /** How a pass of the erase loop went once its write enable was accepted, read
      off its outcomes `o` and code `value`: three acknowledgements (write
      enable, sector erase, write disable) and at most one flag-status answer;
      OK iff every command was accepted and a flag-status read was attempted
      whose answer carried no erase failure (a flag read that failed counts,
      since the driver then keeps the OK of its last status read); the
      sector-erase message iff it came back with one, whatever became of the
      write disable; a transport error otherwise. */
  predicate PassWent(o: Outcomes, value: Code) {
    && |o.acks| == 3 && o.acks[0] && |o.flags| <= 1
    && (value == Ok <==> Clean(o, FLAG_ERASE_FAIL) && |o.flags| == 1)
    && (value == Fail(ChipError(SECTOR_ERASE_FAILED)) <==> |o.flags| == 1 && !Fine(o.flags[0], FLAG_ERASE_FAIL))
    && (value == Ok || value == Fail(TransportError) || value == Fail(ChipError(SECTOR_ERASE_FAILED)))
  }

  lemma PassJoin(se: Outcomes, wd: bool, seValue: Code, value: Code)
    requires CallWent(se, seValue, FLAG_ERASE_FAIL, SECTOR_ERASE_FAILED)
    requires value == if seValue != Ok then seValue else if wd then Ok else Fail(TransportError)
    ensures PassWent(Then(Then(Outcomes([true], []), se), Outcomes([wd], [])), value)
  {
    var o := Then(Then(Outcomes([true], []), se), Outcomes([wd], []));
    assert o.acks == [true, se.acks[0], wd] && o.flags == se.flags;
    if Clean(o, FLAG_ERASE_FAIL) && |o.flags| == 1 {
      assert Fine(se.flags[0], FLAG_ERASE_FAIL) && o.acks[2];
    }
    if seValue == Ok && wd {
      assert se.acks[0];
      forall i | 0 <= i < |o.acks|
        ensures o.acks[i]
      {
      }
    }
  }

  /** The loop body for a sector that is not blank, by its outcomes: a rejected
      write enable is the only command and its failure is returned; otherwise a
      failed erase is returned whatever the write disable did, and a good erase
      returns the write disable's code. */
  lemma EraseSectorWent(sector: nat, s: seq<Reply>)
    requires sector < SECTORS
    ensures var r := EraseSector(sector, s); var accepted := |s| > 0 && s[0].Ack?;
      && (!accepted ==> Assess(r.trace) == Outcomes([false], []) && r.value == Fail(TransportError))
      && (accepted ==> PassWent(Assess(r.trace), r.value))
      && (accepted && SectorErase(sector, s[1..]).value != Ok ==> r.value == SectorErase(sector, s[1..]).value)
  {
    LatchWent(WRITE_ENABLE, s);
    LatchProtocol(WRITE_ENABLE, s);
    if |s| > 0 && s[0].Ack? {
      var we := WriteEnable(s);
      assert we.value == Ok && we.rest == s[1..];
      var se := SectorErase(sector, s[1..]);
      SectorEraseWent(sector, s[1..]);
      SectorEraseSummary(sector, s[1..]);
      LatchWent(WRITE_DISABLE, se.rest);
      var wd := WriteDisable(se.rest);
      var r := EraseSector(sector, s);
      assert r.trace == we.trace + se.trace + wd.trace;
      AssessConcat(we.trace, se.trace);
      SettledConcat(we.trace, se.trace);
      AssessConcat(we.trace + se.trace, wd.trace);
      PassJoin(Assess(se.trace), wd.value == Ok, se.value, r.value);
    }
  }

  /** How the erase loop started at sector `k` went, read off the summary `sm`
      and the outcomes `o` of its trace and its result `value`: every pass but
      the last went through (`PassesWent`), and the last one decides the code
      (`ScanEnds`). */
  predicate ScanWent(k: nat, sm: Summary, o: Outcomes, value: Step<Code>) {
    PassesWent(sm, o) && ScanEnds(k, sm, o, value)
  }

  /** Every pass before the last went through: its write enable, sector erase
      and write disable were accepted and its flag-status read reported no erase
      failure; so a failing pass is always the last one. Each erase reads the
      flag register at most once. */
  predicate PassesWent(sm: Summary, o: Outcomes) {
    var rs := sm.scans;
    var n := |sm.erases|;
    && |rs| >= 1
    && n - 1 <= |o.flags| <= n
    && 3 * (|rs| - 1) <= |o.acks| && |rs| - 1 <= |o.flags|
    && (forall i :: 0 <= i < 3 * (|rs| - 1) ==> o.acks[i])
    && (forall i :: 0 <= i < |rs| - 1 ==> Fine(o.flags[i], FLAG_ERASE_FAIL))
  }

  /** How the loop ends: OK iff it ended on a blank sector or after sector 254,
      every command was accepted and every erase made a flag-status read whose
      answer carried no erase failure (a flag read that failed counts, since the
      driver then keeps the OK of its last status read); the sector-erase
      message iff the last flag-status read came back with an erase failure; a
      transport error for any other failure. */
  predicate ScanEnds(k: nat, sm: Summary, o: Outcomes, value: Step<Code>)
    requires |sm.scans| >= 1
  {
    var rs := sm.scans;
    var n := |sm.erases|;
    && (value == Returned(Ok) <==>
          (ReadBlank(Last(rs)) || n == |rs| == SCANNED_SECTORS - k) && Clean(o, FLAG_ERASE_FAIL) && |o.flags| == n)
    && (value == Returned(Fail(ChipError(SECTOR_ERASE_FAILED))) <==>
          |o.flags| > 0 && !Fine(Last(o.flags), FLAG_ERASE_FAIL))
    && (value.Returned? ==>
          value.value == Ok || value.value == Fail(TransportError) || value.value == Fail(ChipError(SECTOR_ERASE_FAILED)))
  }

  /** The loop ends at its first read. */
  lemma WentOne(k: nat, rc: Command, value: Step<Code>)
    requires k < SCANNED_SECTORS
    requires || (value == Returned(Ok) && ReadBlank(rc))
             || (value == Undefined && !ReadBlank(rc))
             || (value == Returned(Fail(TransportError)) && !ReadBlank(rc))
    ensures ScanWent(k, Summary([rc], [], [], []), Outcomes([], []), value)
  {
  }

  /** The loop ends in its first pass because the write enable failed. */
  lemma WentRejected(k: nat, rc: Command, es: Summary, eo: Outcomes)
    requires k < SCANNED_SECTORS && ReadDirty(rc)
    requires es == Summary([], [], [], [WRITE_ENABLE as int]) && eo == Outcomes([false], [])
    ensures ScanWent(k, Join(Summary([rc], [], [], []), es), Then(Outcomes([], []), eo), Returned(Fail(TransportError)))
  {
    assert Join(Summary([rc], [], [], []), es).scans == [rc];
  }

  /** The loop ends after the erase of its first pass. */
  lemma WentErased(k: nat, rc: Command, es: Summary, eo: Outcomes, value: Code)
    requires k < SCANNED_SECTORS && ReadDirty(rc)
    requires Erased(k, es) && PassWent(eo, value)
    requires value == Ok ==> k + 1 == SCANNED_SECTORS
    ensures ScanWent(k, Join(Summary([rc], [], [], []), es), Then(Outcomes([], []), eo), Returned(value))
  {
    var sm := Join(Summary([rc], [], [], []), es);
    assert sm.scans == [rc] && |sm.erases| == 1;
    assert Then(Outcomes([], []), eo) == eo;
  }

  /** One full pass, then the loop from the next sector. */
  lemma WentStep(k: nat, rc: Command, es: Summary, eo: Outcomes, more: Summary, mo: Outcomes, value: Step<Code>)
    requires k + 1 < SCANNED_SECTORS && ReadDirty(rc)
    requires Erased(k, es) && PassWent(eo, Ok)
    requires ScanWent(k + 1, more, mo, value)
    ensures ScanWent(k, Join(Summary([rc], [], [], []), Join(es, more)), Then(Outcomes([], []), Then(eo, mo)), value)
  {
    var sm := Join(Summary([rc], [], [], []), Join(es, more));
    assert Then(Outcomes([], []), Then(eo, mo)) == Then(eo, mo);
    assert sm.scans == [rc] + more.scans && |sm.erases| == 1 + |more.erases|;
    StepPasses(rc, more, eo, mo);
    StepEnds(k, rc, more, eo, mo, value);
  }

  lemma StepPasses(rc: Command, more: Summary, eo: Outcomes, mo: Outcomes)
    requires PassWent(eo, Ok) && PassesWent(more, mo)
    ensures PassesWent(Summary([rc] + more.scans, [rc] + more.erases, [], []), Then(eo, mo))
  {
    assert Clean(eo, FLAG_ERASE_FAIL);
    AcksPrefix(eo.acks, mo.acks, 3 * (|more.scans| - 1));
    FlagsPrefix(eo.flags, mo.flags, |more.scans| - 1, FLAG_ERASE_FAIL);
  }

  lemma StepEnds(k: nat, rc: Command, more: Summary, eo: Outcomes, mo: Outcomes, value: Step<Code>)
    requires k + 1 < SCANNED_SECTORS
    requires PassWent(eo, Ok) && |more.scans| >= 1 && ScanEnds(k + 1, more, mo, value)
    requires |mo.flags| <= |more.erases|
    ensures ScanEnds(k, Summary([rc] + more.scans, [rc] + more.erases, [], []), Then(eo, mo), value)
  {
    var o := Then(eo, mo);
    assert Last([rc] + more.scans) == Last(more.scans);
    CleanThen(eo, mo, FLAG_ERASE_FAIL);
    if mo.flags != [] {
      assert Last(o.flags) == Last(mo.flags);
    } else {
      assert o.flags == eo.flags;
    }
  }

  /** The erase loop from sector `k`: what it sent (`ScanFrom`) and how it went
      (`ScanWent`). */
  lemma {:induction false} EraseFromWent(k: nat, s: seq<Reply>)
    requires k < SCANNED_SECTORS
    ensures Settled(EraseFrom(k, s).trace)
    ensures ScanFrom(k, Summarise(EraseFrom(k, s).trace), EraseFrom(k, s).value)
    ensures ScanWent(k, Summarise(EraseFrom(k, s).trace), Assess(EraseFrom(k, s).trace), EraseFrom(k, s).value)
    decreases SCANNED_SECTORS - k, 2
  {
    EraseFromScan(k, s);
    var rd := ReadData(k * BYTES_PER_SECTOR, BYTES_PER_SECTOR, s);
    if rd.value.code != Ok || !rd.value.buffer.Bytes? || Blank(rd.value.buffer.data) {
      ReadOnlyWent(k, s);
    } else if EraseSector(k, rd.rest).value != Ok || k + 1 == SCANNED_SECTORS {
      DirtyLastWent(k, s);
    } else {
      DirtyMoreWent(k, s);
    }
  }

  /** A loop that ends at its first read: a failed read, a missing payload or a
      blank sector. */
  lemma ReadOnlyWent(k: nat, s: seq<Reply>)
    requires k < SCANNED_SECTORS
    requires var rd := ReadData(k * BYTES_PER_SECTOR, BYTES_PER_SECTOR, s);
      rd.value.code != Ok || !rd.value.buffer.Bytes? || Blank(rd.value.buffer.data)
    ensures ScanWent(k, Summarise(EraseFrom(k, s).trace), Assess(EraseFrom(k, s).trace), EraseFrom(k, s).value)
  {
    var rd := ReadData(k * BYTES_PER_SECTOR, BYTES_PER_SECTOR, s);
    FirstRead(k, s);
    ReadDataWent(k * BYTES_PER_SECTOR, BYTES_PER_SECTOR, s);
    assert EraseFrom(k, s).trace == rd.trace;
    WentOne(k, Commands(rd.trace)[0], EraseFrom(k, s).value);
  }

  /** A pass whose read found the sector not blank and that ends the loop. */
  lemma DirtyLastWent(k: nat, s: seq<Reply>)
    requires k < SCANNED_SECTORS
    requires var rd := ReadData(k * BYTES_PER_SECTOR, BYTES_PER_SECTOR, s);
      && rd.value.code == Ok && rd.value.buffer.Bytes? && !Blank(rd.value.buffer.data)
      && (EraseSector(k, rd.rest).value != Ok || k + 1 == SCANNED_SECTORS)
    ensures ScanWent(k, Summarise(EraseFrom(k, s).trace), Assess(EraseFrom(k, s).trace), EraseFrom(k, s).value)
  {
    var rd := ReadData(k * BYTES_PER_SECTOR, BYTES_PER_SECTOR, s);
    FirstRead(k, s);
    ReadDataWent(k * BYTES_PER_SECTOR, BYTES_PER_SECTOR, s);
    var e := EraseSector(k, rd.rest);
    EraseSectorProtocol(k, rd.rest);
    EraseSectorWent(k, rd.rest);
    assert EraseFrom(k, s) == Run(Returned(e.value), rd.trace + e.trace, e.rest);
    LastJoin(k, rd.trace, e.trace, Commands(rd.trace)[0], e.value, |rd.rest| > 0 && rd.rest[0].Ack?);
  }

  lemma LastJoin(k: nat, rt: seq<Event>, et: seq<Event>, rc: Command, value: Code, accepted: bool)
    requires k < SCANNED_SECTORS && ReadDirty(rc)
    requires Settled(rt) && Summarise(rt) == Summary([rc], [], [], []) && Assess(rt) == Outcomes([], [])
    requires !accepted ==> Summarise(et) == Summary([], [], [], [WRITE_ENABLE]) && Assess(et) == Outcomes([false], [])
                           && value == Fail(TransportError)
    requires accepted ==> Erased(k, Summarise(et)) && PassWent(Assess(et), value)
    requires value == Ok ==> accepted && k + 1 == SCANNED_SECTORS
    ensures ScanWent(k, Summarise(rt + et), Assess(rt + et), Returned(value))
  {
    SummariseConcat(rt, et);
    AssessConcat(rt, et);
    if accepted {
      WentErased(k, rc, Summarise(et), Assess(et), value);
    } else {
      WentRejected(k, rc, Summarise(et), Assess(et));
    }
  }

  /** A pass that erased its sector, then the loop from the next one. */
  lemma {:induction false} DirtyMoreWent(k: nat, s: seq<Reply>)
    requires k + 1 < SCANNED_SECTORS
    requires var rd := ReadData(k * BYTES_PER_SECTOR, BYTES_PER_SECTOR, s);
      && rd.value.code == Ok && rd.value.buffer.Bytes? && !Blank(rd.value.buffer.data)
      && EraseSector(k, rd.rest).value == Ok
    ensures ScanWent(k, Summarise(EraseFrom(k, s).trace), Assess(EraseFrom(k, s).trace), EraseFrom(k, s).value)
    decreases SCANNED_SECTORS - k, 1
  {
    var rd := ReadData(k * BYTES_PER_SECTOR, BYTES_PER_SECTOR, s);
    var e := EraseSector(k, rd.rest);
    var n := EraseNext(k, e);
    assert EraseFrom(k, s) == Run(n.value, rd.trace + n.trace, n.rest);
    NextMoreWent(k, e);
    FirstRead(k, s);
    ReadDataWent(k * BYTES_PER_SECTOR, BYTES_PER_SECTOR, s);
    EraseSectorProtocol(k, rd.rest);
    EraseSectorWent(k, rd.rest);
    MoreJoin(k, rd.trace, e.trace, EraseFrom(k + 1, e.rest).trace, Commands(rd.trace)[0], n.value);
  }

  /** After an erase that went through, the loop goes on with the next sector. */
  lemma {:induction false} NextMoreWent(k: nat, e: Run<Code>)
    requires k + 1 < SCANNED_SECTORS && BusOnly(e.trace) && e.value == Ok
    ensures var more := EraseFrom(k + 1, e.rest);
      && EraseNext(k, e).trace == e.trace + more.trace
      && EraseNext(k, e).value == more.value
      && ScanWent(k + 1, Summarise(more.trace), Assess(more.trace), more.value)
    decreases SCANNED_SECTORS - k, 0
  {
    EraseFromWent(k + 1, e.rest);
  }

  lemma MoreJoin(k: nat, rt: seq<Event>, et: seq<Event>, mt: seq<Event>, rc: Command, value: Step<Code>)
    requires k + 1 < SCANNED_SECTORS && ReadDirty(rc)
    requires Settled(rt) && Summarise(rt) == Summary([rc], [], [], []) && Assess(rt) == Outcomes([], [])
    requires Settled(et) && Erased(k, Summarise(et)) && PassWent(Assess(et), Ok)
    requires ScanWent(k + 1, Summarise(mt), Assess(mt), value)
    ensures ScanWent(k, Summarise(rt + (et + mt)), Assess(rt + (et + mt)), value)
  {
    SummariseConcat(et, mt);
    AssessConcat(et, mt);
    SummariseConcat(rt, et + mt);
    AssessConcat(rt, et + mt);
    WentStep(k, rc, Summarise(et), Assess(et), Summarise(mt), Assess(mt), value);
  }

  /** `erase_flash`: the loop from sector 0, what it sent and how it went. Its
      reads never reach sector 255. */
  lemma EraseFlashWent(s: seq<Reply>)
    ensures Settled(EraseFlash(s).trace)
    ensures ScanFrom(0, Summarise(EraseFlash(s).trace), EraseFlash(s).value)
    ensures forall c :: c in Summarise(EraseFlash(s).trace).scans ==> c.bytes[1] < SCANNED_SECTORS
    ensures ScanWent(0, Summarise(EraseFlash(s).trace), Assess(EraseFlash(s).trace), EraseFlash(s).value)
  {
    EraseFlashScan(s);
    EraseFromWent(0, s);
  }

  // ---------------------------------------------------------------------
  // program_flash

  /** How one page went once its write enable was accepted, read off its
      outcomes `o` and code `value`: the write enable's acknowledgement, the
      page program's, and a write disable's only on failure; at most one
      flag-status answer; OK iff every command was accepted and a flag-status
      read was attempted whose answer carried no program failure (a flag read
      that failed counts, since the driver then keeps the OK of its last status
      read); the program-failure message iff it came back with one; a transport
      error otherwise. */
  predicate PageWent(o: Outcomes, value: Code) {
    && 2 <= |o.acks| <= 3 && o.acks[0] && |o.flags| <= 1
    && (|o.acks| == 2 <==> value == Ok)
    && (value == Ok <==> Clean(o, FLAG_PROGRAM_FAIL) && |o.flags| == 1)
    && (value == Fail(ChipError(PROGRAM_FAILED)) <==> |o.flags| == 1 && !Fine(o.flags[0], FLAG_PROGRAM_FAIL))
    && (value == Ok || value == Fail(TransportError) || value == Fail(ChipError(PROGRAM_FAILED)))
  }

  lemma PageDoneJoin(pp: Outcomes)
    requires CallWent(pp, Ok, FLAG_PROGRAM_FAIL, PROGRAM_FAILED)
    ensures PageWent(Then(Outcomes([true], []), pp), Ok)
  {
    var o := Then(Outcomes([true], []), pp);
    assert o.acks == [true, pp.acks[0]] && o.flags == pp.flags;
  }

  lemma PageFailedJoin(pp: Outcomes, wd: bool, value: Code)
    requires value != Ok && CallWent(pp, value, FLAG_PROGRAM_FAIL, PROGRAM_FAILED)
    ensures PageWent(Then(Then(Outcomes([true], []), pp), Outcomes([wd], [])), value)
  {
    var o := Then(Then(Outcomes([true], []), pp), Outcomes([wd], []));
    assert o.acks == [true, pp.acks[0], wd] && o.flags == pp.flags;
  }

  /** One page of the program loop, by its outcomes: a rejected write enable is
      followed by a write disable and fails with a transport error, without a
      flag-status read; otherwise the page returns the page program's own code,
      so a page whose flag register reported a program failure fails with the
      program-failure message. */
  lemma ProgramPageWent(page: nat, chunk: seq<byte>, s: seq<Reply>)
    requires page < USHORT_LIMIT && |chunk| <= BYTES_PER_PAGE
    ensures var r := ProgramPage(page, chunk, s); var o := Assess(r.trace); var accepted := |s| > 0 && s[0].Ack?;
      && (!accepted ==> |o.acks| == 2 && !o.acks[0] && o.flags == [] && r.value == Fail(TransportError))
      && (accepted ==> PageWent(o, r.value) && r.value == PageProgram(page, chunk, s[1..]).value)
  {
    if |s| > 0 && s[0].Ack? {
      PageAcceptedWent(page, chunk, s);
    } else {
      PageRejectedWent(page, chunk, s);
    }
  }

  lemma PageRejectedWent(page: nat, chunk: seq<byte>, s: seq<Reply>)
    requires page < USHORT_LIMIT && |chunk| <= BYTES_PER_PAGE
    requires !(|s| > 0 && s[0].Ack?)
    ensures var r := ProgramPage(page, chunk, s); var o := Assess(r.trace);
      |o.acks| == 2 && !o.acks[0] && o.flags == [] && r.value == Fail(TransportError)
  {
    LatchWent(WRITE_ENABLE, s);
    LatchProtocol(WRITE_ENABLE, s);
    var we := WriteEnable(s);
    LatchWent(WRITE_DISABLE, we.rest);
    var wd := WriteDisable(we.rest);
    assert ProgramPage(page, chunk, s) == Run(we.value, we.trace + wd.trace, wd.rest);
    AssessConcat(we.trace, wd.trace);
  }

  lemma PageAcceptedWent(page: nat, chunk: seq<byte>, s: seq<Reply>)
    requires page < USHORT_LIMIT && |chunk| <= BYTES_PER_PAGE
    requires |s| > 0 && s[0].Ack?
    ensures var r := ProgramPage(page, chunk, s);
      PageWent(Assess(r.trace), r.value) && r.value == PageProgram(page, chunk, s[1..]).value
  {
    LatchWent(WRITE_ENABLE, s);
    LatchProtocol(WRITE_ENABLE, s);
    var we := WriteEnable(s);
    assert we.value == Ok && we.rest == s[1..];
    var pp := PageProgram(page, chunk, s[1..]);
    PageProgramWent(page, chunk, s[1..]);
    PageProgramProtocol(page, chunk, s[1..]);
    AssessConcat(we.trace, pp.trace);
    if pp.value == Ok {
      assert ProgramPage(page, chunk, s) == Run(Ok, we.trace + pp.trace, pp.rest);
      PageDoneJoin(Assess(pp.trace));
    } else {
      LatchWent(WRITE_DISABLE, pp.rest);
      var wd := WriteDisable(pp.rest);
      assert ProgramPage(page, chunk, s) == Run(pp.value, we.trace + pp.trace + wd.trace, wd.rest);
      SettledConcat(we.trace, pp.trace);
      AssessConcat(we.trace + pp.trace, wd.trace);
      PageFailedJoin(Assess(pp.trace), wd.value == Ok, pp.value);
    }
  }

  /** How the program loop went over `chunks`, read off the summary `sm` and the
      outcomes `o` of its trace and its code `value`: every page but the last
      went through (`PagesWent`), and the last one decides the code
      (`PagesEnd`). */
  predicate ProgramsWent(chunks: seq<seq<byte>>, sm: Summary, o: Outcomes, value: Code) {
    PagesWent(|sm.programs|, o) && PagesEnd(|chunks|, |sm.programs|, o, value)
  }

  /** Of `n` page programs, every one before the last was accepted after an
      accepted write enable, and its flag-status read reported no program
      failure; so a failing page is always the last one. Each page program reads
      the flag register at most once. */
  predicate PagesWent(n: nat, o: Outcomes) {
    && n - 1 <= |o.flags| <= n
    && 2 * (n - 1) <= |o.acks|
    && (forall i :: 0 <= i < 2 * (n - 1) ==> o.acks[i])
    && (forall i :: 0 <= i < n - 1 ==> Fine(o.flags[i], FLAG_PROGRAM_FAIL))
  }

  /** How the loop ends: OK iff a page program was sent for every one of the
      `chunks` chunks, every command was accepted and every page program made a
      flag-status read whose answer carried no program failure (a flag read that
      failed counts, since the driver then keeps the OK of its last status
      read); the program-failure message iff the last flag-status read came back
      with a program failure; a transport error for any other failure. */
  predicate PagesEnd(chunks: nat, n: nat, o: Outcomes, value: Code) {
    && n <= chunks
    && (value == Ok <==> n == chunks && Clean(o, FLAG_PROGRAM_FAIL) && |o.flags| == n)
    && (value == Fail(ChipError(PROGRAM_FAILED)) <==> |o.flags| > 0 && !Fine(Last(o.flags), FLAG_PROGRAM_FAIL))
    && (value == Ok || value == Fail(TransportError) || value == Fail(ChipError(PROGRAM_FAILED)))
  }

  /** The loop ends at its first page. */
  lemma PagesLast(chunks: nat, n: nat, o: Outcomes, value: Code, accepted: bool)
    requires chunks >= 1 && value != Ok
    requires !accepted ==> n == 0 && |o.acks| == 2 && !o.acks[0] && o.flags == [] && value == Fail(TransportError)
    requires accepted ==> n == 1 && PageWent(o, value)
    ensures PagesWent(n, o) && PagesEnd(chunks, n, o, value)
  {
  }

  /** One page that went through, then the loop over the remaining chunks. */
  lemma PagesStep(chunks: nat, m: nat, ho: Outcomes, mo: Outcomes, value: Code)
    requires chunks >= 1
    requires PageWent(ho, Ok) && PagesWent(m, mo) && PagesEnd(chunks - 1, m, mo, value)
    ensures PagesWent(1 + m, Then(ho, mo)) && PagesEnd(chunks, 1 + m, Then(ho, mo), value)
  {
    var o := Then(ho, mo);
    assert Clean(ho, FLAG_PROGRAM_FAIL);
    AcksPrefix(ho.acks, mo.acks, if m == 0 then 0 else 2 * (m - 1));
    FlagsPrefix(ho.flags, mo.flags, if m == 0 then 0 else m - 1, FLAG_PROGRAM_FAIL);
    CleanThen(ho, mo, FLAG_PROGRAM_FAIL);
    if mo.flags != [] {
      assert Last(o.flags) == Last(mo.flags);
    } else {
      assert o.flags == ho.flags;
    }
  }

  /** The program loop from page number `first`: what it sent (`ProgramsFrom`)
      and how it went (`ProgramsWent`). */
  lemma {:induction false} ProgramFromWent(chunks: seq<seq<byte>>, first: nat, s: seq<Reply>)
    requires forall i :: 0 <= i < |chunks| ==> |chunks[i]| <= BYTES_PER_PAGE
    ensures var r := ProgramFrom(chunks, first, s);
      && Settled(r.trace)
      && ProgramsFrom(chunks, first, Summarise(r.trace), r.value)
      && ProgramsWent(chunks, Summarise(r.trace), Assess(r.trace), r.value)
    decreases |chunks|, 1
  {
    ProgramFromSummary(chunks, first, s);
    if chunks == [] {
      assert ProgramFrom(chunks, first, s).trace == [];
      assert Summarise([]) == Summary([], [], [], []);
      assert Assess([]) == Outcomes([], []);
    } else if ProgramPage(first % USHORT_LIMIT, chunks[0], s).value != Ok {
      var p := ProgramPage(first % USHORT_LIMIT, chunks[0], s);
      ProgramPageProtocol(first % USHORT_LIMIT, chunks[0], s);
      ProgramPageWent(first % USHORT_LIMIT, chunks[0], s);
      assert ProgramFrom(chunks, first, s) == p;
      PagesLast(|chunks|, |Summarise(p.trace).programs|, Assess(p.trace), p.value, |s| > 0 && s[0].Ack?);
    } else {
      ProgramFromNextWent(chunks, first, s);
    }
  }

  lemma {:induction false} ProgramFromNextWent(chunks: seq<seq<byte>>, first: nat, s: seq<Reply>)
    requires forall i :: 0 <= i < |chunks| ==> |chunks[i]| <= BYTES_PER_PAGE
    requires chunks != [] && ProgramPage(first % USHORT_LIMIT, chunks[0], s).value == Ok
    ensures var r := ProgramFrom(chunks, first, s);
      ProgramsWent(chunks, Summarise(r.trace), Assess(r.trace), r.value)
    decreases |chunks|, 0
  {
    var p := ProgramPage(first % USHORT_LIMIT, chunks[0], s);
    ProgramPageProtocol(first % USHORT_LIMIT, chunks[0], s);
    ProgramPageWent(first % USHORT_LIMIT, chunks[0], s);
    ProgramFromWent(chunks[1..], first + 1, p.rest);
    var more := ProgramFrom(chunks[1..], first + 1, p.rest);
    assert ProgramFrom(chunks, first, s) == Run(more.value, p.trace + more.trace, more.rest);
    SummariseConcat(p.trace, more.trace);
    AssessConcat(p.trace, more.trace);
    PagesStep(|chunks|, |Summarise(more.trace).programs|, Assess(p.trace), Assess(more.trace), more.value);
  }

  /** The final write disable of a loop that went through: its acknowledgement
      is added to the outcomes and its code is returned. */
  lemma DisableJoin(chunks: nat, n: nat, lo: Outcomes, wd: bool, value: Code)
    requires PagesWent(n, lo) && PagesEnd(chunks, n, lo, Ok)
    requires value == if wd then Ok else Fail(TransportError)
    ensures PagesWent(n, Then(lo, Outcomes([wd], []))) && PagesEnd(chunks, n, Then(lo, Outcomes([wd], [])), value)
  {
    var o := Then(lo, Outcomes([wd], []));
    assert o.flags == lo.flags;
    CleanThen(lo, Outcomes([wd], []), FLAG_PROGRAM_FAIL);
    var d := Outcomes([wd], []);
    if wd {
      assert forall i :: 0 <= i < |d.acks| ==> d.acks[i];
    } else {
      assert !d.acks[0];
    }
    forall i | 0 <= i < 2 * (n - 1)
      ensures o.acks[i]
    {
      assert o.acks[i] == lo.acks[i];
    }
    if |o.flags| > 0 {
      assert Fine(Last(o.flags), FLAG_PROGRAM_FAIL);
    }
  }

  /** `program_flash`: what it sent (`ProgramFlashRun`) and how it went, with
      the same verdicts as its loop and the final write disable counted among
      the commands that must be accepted. */
  lemma ProgramFlashWent(data: seq<byte>, s: seq<Reply>)
    requires |data| < UINT_LIMIT
    ensures var r := ProgramFlash(data, s);
      && Settled(r.trace)
      && ProgramFlashRun(Pages(data), Summarise(r.trace), r.value)
      && ProgramsWent(Pages(data), Summarise(r.trace), Assess(r.trace), r.value)
  {
    ProgramFlashSummary(data, s);
    var chunks := Pages(data);
    ProgramFromWent(chunks, 0, s);
    ProgramFromSummary(chunks, 0, s);
    var all := ProgramFrom(chunks, 0, s);
    if all.value == Ok {
      LatchSummary(WRITE_DISABLE, all.rest);
      LatchWent(WRITE_DISABLE, all.rest);
      var wd := WriteDisable(all.rest);
      assert ProgramFlash(data, s) == Run(wd.value, all.trace + wd.trace, wd.rest);
      SummariseConcat(all.trace, wd.trace);
      AssessConcat(all.trace, wd.trace);
      assert Summarise(all.trace + wd.trace).programs == Summarise(all.trace).programs;
      DisableJoin(|chunks|, |Summarise(all.trace).programs|, Assess(all.trace), wd.value == Ok, wd.value);
    }
  }
}
