/**
 Properties of the flashing steps, stated on their traces.

 A trace is summarised by the commands that matter to the loader: the reads,
 the sector erases, the page programs, and the opcodes of every command that
 changes the chip (write enable, write disable, the erases and the page
 program). Status and flag-status polls drop out of every summary.
 */
module SaturnLoaderProofs {
  import opened Transport
  import opened N25Q128A
  import opened N25Q128AProofs
  import opened SaturnLoader

  const READS: set<int> := {READ}
  const SECTOR_ERASES: set<int> := {SECTOR_ERASE}
  const PAGE_PROGRAMS: set<int> := {PAGE_PROGRAM}
  const MUTATIONS: set<int> := {WRITE_ENABLE, WRITE_DISABLE, BULK_ERASE, SECTOR_ERASE, PAGE_PROGRAM}

  datatype Summary = Summary(scans: seq<Command>, erases: seq<Command>, programs: seq<Command>, mutations: seq<int>)

  function Of(cs: seq<Command>): Summary {
    Summary(Select(cs, READS), Select(cs, SECTOR_ERASES), Select(cs, PAGE_PROGRAMS), Opcodes(Select(cs, MUTATIONS)))
  }

  function Summarise(t: seq<Event>): Summary {
    Of(Commands(t))
  }

  function Join(a: Summary, b: Summary): Summary {
    Summary(a.scans + b.scans, a.erases + b.erases, a.programs + b.programs, a.mutations + b.mutations)
  }

  lemma OfConcat(a: seq<Command>, b: seq<Command>)
    ensures Of(a + b) == Join(Of(a), Of(b))
  {
    SelectConcat(a, b, READS);
    SelectConcat(a, b, SECTOR_ERASES);
    SelectConcat(a, b, PAGE_PROGRAMS);
    SelectConcat(a, b, MUTATIONS);
    assert Opcodes(Select(a, MUTATIONS) + Select(b, MUTATIONS))
        == Opcodes(Select(a, MUTATIONS)) + Opcodes(Select(b, MUTATIONS));
  }

  lemma SummariseConcat(a: seq<Event>, b: seq<Event>)
    requires Settled(a)
    ensures Summarise(a + b) == Join(Summarise(a), Summarise(b))
  {
    CommandsConcat(a, b);
    OfConcat(Commands(a), Commands(b));
  }

  lemma OfOne(c: Command)
    ensures Of([c]) == Summary(if Opcode(c) == READ then [c] else [],
                               if Opcode(c) == SECTOR_ERASE then [c] else [],
                               if Opcode(c) == PAGE_PROGRAM then [c] else [],
                               if Opcode(c) in MUTATIONS then [Opcode(c)] else [])
  {
    assert [c][1..] == [];
  }

  /** The summary of a driver call: its first command, then a poll or nothing. */
  lemma CallSummary(cs: seq<Command>)
    requires |cs| >= 1
    requires cs[0].ok ==> PollShape(cs[1..], true)
    requires !cs[0].ok ==> |cs| == 1
    ensures Of(cs) == Of([cs[0]])
  {
    HeadOnly(cs);
  }

  /** A command followed by the polls of its wait summarises as the command alone. */
  lemma HeadOnly(cs: seq<Command>)
    requires |cs| >= 1
    requires |cs| > 1 ==> PollShape(cs[1..], true)
    ensures Of(cs) == Of([cs[0]])
  {
    assert cs == [cs[0]] + cs[1..];
    OfConcat([cs[0]], cs[1..]);
    if |cs| > 1 {
      PollSelectsNothing(cs[1..], true, READS);
      PollSelectsNothing(cs[1..], true, SECTOR_ERASES);
      PollSelectsNothing(cs[1..], true, PAGE_PROGRAMS);
      PollSelectsNothing(cs[1..], true, MUTATIONS);
    } else {
      assert cs[1..] == [];
    }
  }

  // ---------------------------------------------------------------------
  // Summaries of the driver calls

  lemma ReadDataSummary(address: nat, length: nat, s: seq<Reply>)
    requires address < UINT_LIMIT && length < UINT_LIMIT
    ensures var r := ReadData(address, length, s);
      && Settled(r.trace)
      && Summarise(r.trace) == Summary(Commands(r.trace), [], [], [])
      && |Commands(r.trace)| == 1
  {
    ReadDataProtocol(address, length, s);
  }

  lemma LatchSummary(opcode: byte, s: seq<Reply>)
    requires opcode == WRITE_ENABLE || opcode == WRITE_DISABLE
    ensures Settled(Latch(opcode, s).trace)
    ensures Summarise(Latch(opcode, s).trace) == Summary([], [], [], [opcode])
  {
    LatchProtocol(opcode, s);
    var c := Command([opcode], |s| > 0 && s[0].Ack?, Stop);
    assert Commands(Latch(opcode, s).trace) == [c];
    OfSingle(c, opcode);
  }

  /** An erase run summarises as its one command. */
  lemma EraseRunSummary(command: seq<byte>, message: string, s: seq<Reply>, r: Run<Code>)
    requires EraseBehaviour(command, message, s, r)
    ensures Settled(r.trace)
    ensures |Commands(r.trace)| >= 1 && Commands(r.trace)[0].bytes == command
    ensures Summarise(r.trace) == Of([Commands(r.trace)[0]])
  {
    CallSummary(Commands(r.trace));
  }

  lemma SectorEraseSummary(sector: nat, s: seq<Reply>)
    requires sector < SECTORS
    ensures var r := SectorErase(sector, s);
      && Settled(r.trace)
      && |Commands(r.trace)| >= 1
      && Summarise(r.trace) == Summary([], [Commands(r.trace)[0]], [], [SECTOR_ERASE])
      && Commands(r.trace)[0].bytes == SectorEraseCommand(sector)
  {
    var r := SectorErase(sector, s);
    SectorEraseProtocol(sector, s);
    EraseRunSummary([0xd8, sector, 0x00, 0x00], SECTOR_ERASE_FAILED, s, r);
    var c := Commands(r.trace)[0];
    SectorEraseCommandBytes(sector);
    OfSingle(c, SECTOR_ERASE);
  }

  lemma BulkEraseSummary(s: seq<Reply>)
    ensures Settled(BulkErase(s).trace)
    ensures Summarise(BulkErase(s).trace) == Summary([], [], [], [BULK_ERASE])
  {
    BulkEraseProtocol(s);
    BulkEraseRun(s, BulkErase(s));
  }

  lemma BulkEraseRun(s: seq<Reply>, r: Run<Code>)
    requires EraseBehaviour([0xc7], BULK_ERASE_FAILED, s, r)
    ensures Settled(r.trace) && Summarise(r.trace) == Summary([], [], [], [BULK_ERASE])
  {
    EraseRunSummary([0xc7], BULK_ERASE_FAILED, s, r);
    OfSingle(Commands(r.trace)[0], BULK_ERASE);
  }

  /** The summary of one command with a chip-changing opcode. */
  lemma OfSingle(c: Command, opcode: byte)
    requires Opcode(c) == opcode
    requires opcode in {SECTOR_ERASE, BULK_ERASE, PAGE_PROGRAM, WRITE_ENABLE, WRITE_DISABLE}
    ensures Of([c]) == Summary([], if opcode == SECTOR_ERASE then [c] else [],
                               if opcode == PAGE_PROGRAM then [c] else [], [opcode])
  {
    OfOne(c);
  }

  /** A page program run summarises as its one command. */
  lemma ProgramRunSummary(page: nat, data: seq<byte>, s: seq<Reply>, r: Run<Code>)
    requires page < USHORT_LIMIT
    requires ProgramBehaviour(page, data, s, r)
    ensures Settled(r.trace)
    ensures |Commands(r.trace)| >= 1
    ensures var c := Commands(r.trace)[0];
      && c.bytes == [0x02, page / 0x100, page % 0x100, 0x00]
      && Summarise(r.trace) == Of([c])
      && (r.value == Ok ==> c.ok && c.next == Write(data, true))
  {
    var cs := Commands(r.trace);
    HeadOnly(cs);
    if r.value == Ok {
      assert r.trace[..4][2] == r.trace[2];
    }
  }

  lemma PageProgramSummary(page: nat, data: seq<byte>, s: seq<Reply>)
    requires page < USHORT_LIMIT && |data| < USHORT_LIMIT
    ensures var r := PageProgram(page, data, s);
      && Settled(r.trace)
      && |Commands(r.trace)| >= 1
      && var c := Commands(r.trace)[0];
      && Summarise(r.trace) == Summary([], [], [c], [PAGE_PROGRAM])
      && c.bytes == PageProgramCommand(page)
      && (r.value == Ok ==> c.ok && c.next == Write(data, true))
  {
    var r := PageProgram(page, data, s);
    PageProgramProtocol(page, data, s);
    PageProgramCommandBytes(page);
    ProgramRunSummary(page, data, s, r);
    OfSingle(Commands(r.trace)[0], PAGE_PROGRAM);
  }

  // ---------------------------------------------------------------------
  // erase_flash

  /** The loop body for a sector that is not blank: a rejected write enable is the
      only command and its failure is returned; otherwise the sector erase comes
      between the write enable and one write disable, which is sent even when the
      erase failed, and then the erase's failure is the one returned. */
  lemma EraseSectorProtocol(sector: nat, s: seq<Reply>)
    requires sector < SECTORS
    ensures var r := EraseSector(sector, s); var sm := Summarise(r.trace); var accepted := |s| > 0 && s[0].Ack?;
      && Settled(r.trace)
      && (r.value == Ok ==> accepted)
      && (!accepted ==> sm == Summary([], [], [], [WRITE_ENABLE]) && r.value == Fail(TransportError))
      && (accepted ==> Erased(sector, sm))
      && (accepted && SectorErase(sector, s[1..]).value != Ok ==> r.value == SectorErase(sector, s[1..]).value)
  {
    if |s| > 0 && s[0].Ack? {
      EraseSectorAccepted(sector, s);
    } else {
      EraseSectorRejected(sector, s);
    }
  }

  /** The summary of the loop body for sector `k` once its write enable was
      accepted: write enable, the erase of sector `k`, write disable. */
  predicate Erased(k: nat, es: Summary) {
    && es.scans == [] && es.programs == []
    && |es.erases| == 1 && es.erases[0].bytes == [SECTOR_ERASE, k, 0x00, 0x00]
    && es.mutations == [WRITE_ENABLE, SECTOR_ERASE, WRITE_DISABLE]
  }

  lemma EraseSectorRejected(sector: nat, s: seq<Reply>)
    requires sector < SECTORS
    requires !(|s| > 0 && s[0].Ack?)
    ensures var r := EraseSector(sector, s);
      && Settled(r.trace)
      && Summarise(r.trace) == Summary([], [], [], [WRITE_ENABLE])
      && r.value == Fail(TransportError)
  {
    LatchSummary(WRITE_ENABLE, s);
    LatchProtocol(WRITE_ENABLE, s);
  }

  lemma EraseSectorAccepted(sector: nat, s: seq<Reply>)
    requires sector < SECTORS
    requires |s| > 0 && s[0].Ack?
    ensures var r := EraseSector(sector, s);
      && Settled(r.trace)
      && Erased(sector, Summarise(r.trace))
      && (SectorErase(sector, s[1..]).value != Ok ==> r.value == SectorErase(sector, s[1..]).value)
  {
    LatchSummary(WRITE_ENABLE, s);
    LatchProtocol(WRITE_ENABLE, s);
    SectorEraseSummary(sector, s[1..]);
    SectorEraseCommandBytes(sector);
    var we := WriteEnable(s);
    var se := SectorErase(sector, s[1..]);
    LatchSummary(WRITE_DISABLE, se.rest);
    var wd := WriteDisable(se.rest);
    assert we.value == Ok && we.rest == s[1..];
    assert EraseSector(sector, s).trace == we.trace + se.trace + wd.trace;
    Bracket(we.trace, se.trace, wd.trace, [Commands(se.trace)[0]], SECTOR_ERASE);
  }

  /** Three settled calls: write enable, one chip-changing command `op` with the
      erases `es`, write disable. */
  lemma Bracket(a: seq<Event>, b: seq<Event>, c: seq<Event>, es: seq<Command>, op: int)
    requires Settled(a) && Settled(b) && Settled(c)
    requires Summarise(a) == Summary([], [], [], [WRITE_ENABLE])
    requires Summarise(b) == Summary([], es, [], [op])
    requires Summarise(c) == Summary([], [], [], [WRITE_DISABLE])
    ensures Settled(a + b + c)
    ensures Summarise(a + b + c) == Summary([], es, [], [WRITE_ENABLE, op, WRITE_DISABLE])
  {
    SummariseConcat(a, b);
    SettledConcat(a, b);
    SummariseConcat(a + b, c);
    SettledConcat(a + b, c);
  }

  /** The bytes a read command brought back, if they came. */
  function Payload(c: Command): Option<seq<byte>> {
    if c.ok && c.next.Read? then c.next.got else None
  }

  /** A whole sector came back and the compared bytes are all 0xff. */
  predicate ReadBlank(c: Command) {
    Payload(c).Some? && |Payload(c).value| == BYTES_PER_SECTOR && Blank(Payload(c).value)
  }

  /** A whole sector came back and some compared byte is not 0xff. */
  predicate ReadDirty(c: Command) {
    Payload(c).Some? && |Payload(c).value| == BYTES_PER_SECTOR && !Blank(Payload(c).value)
  }

  /** `n` rounds of write enable, sector erase, write disable. */
  function Bracketed(n: nat): seq<int> {
    if n == 0 then [] else [WRITE_ENABLE as int, SECTOR_ERASE, WRITE_DISABLE] + Bracketed(n - 1)
  }

  /** What the erase loop started at sector `k` did, read off the summary `sm` of
      its trace and its result `value`:
      - it read sectors k, k+1, … in order, at least one and never past sector 254;
      - every read but the last found a sector that is not blank;
      - the i-th sector erase is for sector k+i, whose read found it not blank, and
        every read but the last was followed by its erase;
      - the chip-changing commands are rounds of write enable, sector erase, write
        disable, possibly ended by one write enable that failed;
      - a blank read ends the loop with OK and without an erase; OK otherwise means
        every sector up to 254 was read and erased;
      - undefined behaviour happens exactly when the last read command was accepted
        but its payload did not come. */
  predicate ScanFrom(k: nat, sm: Summary, value: Step<Code>)
    requires k < SCANNED_SECTORS
  {
    var rs := sm.scans;
    var es := sm.erases;
    && sm.programs == []
    && 1 <= |rs| <= SCANNED_SECTORS - k
    && ReadsFrom(k, rs)
    && (|es| == |rs| - 1 || |es| == |rs|)
    && ErasesFrom(k, rs, es)
    && (sm.mutations == Bracketed(|es|) || sm.mutations == Bracketed(|es|) + [WRITE_ENABLE as int])
    && (ReadBlank(Last(rs)) ==> value == Returned(Ok) && |es| == |rs| - 1)
    && (value == Returned(Ok) ==> ReadBlank(Last(rs)) || |es| == |rs| == SCANNED_SECTORS - k)
    && (value == Undefined <==> Last(rs).ok && Payload(Last(rs)).None?)
  }

  /** The reads are of sectors k, k+1, … in order, and all but the last found a
      sector that is not blank. */
  predicate ReadsFrom(k: nat, rs: seq<Command>) {
    && (forall i :: 0 <= i < |rs| ==> rs[i].bytes == [READ, k + i, 0x00, 0x00])
    && (forall i :: 0 <= i < |rs| - 1 ==> ReadDirty(rs[i]))
  }

  /** The i-th sector erase is for sector k+i, whose read found it not blank. */
  predicate ErasesFrom(k: nat, rs: seq<Command>, es: seq<Command>)
    requires |es| <= |rs|
  {
    forall i :: 0 <= i < |es| ==> es[i].bytes == [SECTOR_ERASE, k + i, 0x00, 0x00] && ReadDirty(rs[i])
  }

  lemma ReadsStep(k: nat, rc: Command, rs: seq<Command>)
    requires rc.bytes == [READ, k, 0x00, 0x00] && ReadDirty(rc)
    requires ReadsFrom(k + 1, rs)
    ensures ReadsFrom(k, [rc] + rs)
  {
    var all := [rc] + rs;
    forall i | 0 < i < |all|
      ensures all[i] == rs[i - 1]
    {
    }
  }

  lemma ErasesStep(k: nat, rc: Command, ec: Command, rs: seq<Command>, es: seq<Command>)
    requires |es| <= |rs|
    requires ReadDirty(rc) && ec.bytes == [SECTOR_ERASE, k, 0x00, 0x00]
    requires ErasesFrom(k + 1, rs, es)
    ensures ErasesFrom(k, [rc] + rs, [ec] + es)
  {
    var rall := [rc] + rs;
    var eall := [ec] + es;
    forall i | 0 < i < |eall|
      ensures eall[i] == es[i - 1] && rall[i] == rs[i - 1]
    {
    }
  }

  /** The loop ends at its first read: a failed read command, a missing payload,
      or a blank sector. */
  lemma ScanOne(k: nat, rc: Command, value: Step<Code>)
    requires k < SCANNED_SECTORS
    requires rc.bytes == [READ, k, 0x00, 0x00]
    requires || (value == Returned(Ok) && ReadBlank(rc))
             || (value == Undefined && rc.ok && Payload(rc).None?)
             || (value.Returned? && value.value != Ok && !rc.ok)
    ensures ScanFrom(k, Summary([rc], [], [], []), value)
  {
  }

  /** The loop ends in the body of its first pass because the write enable failed. */
  lemma ScanLastRejected(k: nat, rc: Command, es: Summary, value: Step<Code>)
    requires k < SCANNED_SECTORS
    requires rc.bytes == [READ, k, 0x00, 0x00] && ReadDirty(rc)
    requires es == Summary([], [], [], [WRITE_ENABLE as int])
    requires value.Returned? && value != Returned(Ok)
    ensures ScanFrom(k, Join(Summary([rc], [], [], []), es), value)
  {
  }

  /** The loop ends after the erase of its first pass: the erase or the write
      disable failed, or sector 254 was erased. */
  lemma ScanLastErased(k: nat, rc: Command, es: Summary, value: Step<Code>)
    requires k < SCANNED_SECTORS
    requires rc.bytes == [READ, k, 0x00, 0x00] && ReadDirty(rc)
    requires Erased(k, es)
    requires value.Returned? && (value == Returned(Ok) ==> k + 1 == SCANNED_SECTORS)
    ensures ScanFrom(k, Join(Summary([rc], [], [], []), es), value)
  {
    var sm := Join(Summary([rc], [], [], []), es);
    assert sm.scans == [rc] && sm.erases == [es.erases[0]] && sm.programs == [];
    ScanSingle(k, rc, es.erases[0]);
    assert sm.mutations == Bracketed(1);
  }

  /** A single read of sector k that found it not blank, and its erase. */
  lemma ScanSingle(k: nat, rc: Command, e: Command)
    requires rc.bytes == [READ, k, 0x00, 0x00] && ReadDirty(rc)
    requires e.bytes == [SECTOR_ERASE, k, 0x00, 0x00]
    ensures ReadsFrom(k, [rc]) && ErasesFrom(k, [rc], [e])
    ensures Last([rc]) == rc && !ReadBlank(rc) && !(rc.ok && Payload(rc).None?)
  {
  }

  /** One full pass, then the loop from the next sector. */
  lemma ScanStep(k: nat, rc: Command, e: Summary, more: Summary, value: Step<Code>)
    requires k + 1 < SCANNED_SECTORS
    requires rc.bytes == [READ, k, 0x00, 0x00] && ReadDirty(rc)
    requires Erased(k, e)
    requires ScanFrom(k + 1, more, value)
    ensures ScanFrom(k, Join(Summary([rc], [], [], []), Join(e, more)), value)
  {
    ScanStepLists(k, rc, e, more, value);
    ScanStepEnd(k, rc, e, more, value);
  }

  /** The reads, erases and chip-changing commands of a full pass and the rest. */
  lemma ScanStepLists(k: nat, rc: Command, e: Summary, more: Summary, value: Step<Code>)
    requires k + 1 < SCANNED_SECTORS
    requires rc.bytes == [READ, k, 0x00, 0x00] && ReadDirty(rc)
    requires Erased(k, e)
    requires ScanFrom(k + 1, more, value)
    ensures var sm := Join(Summary([rc], [], [], []), Join(e, more));
      && sm.programs == []
      && sm.scans == [rc] + more.scans && sm.erases == [e.erases[0]] + more.erases
      && 1 <= |sm.scans| <= SCANNED_SECTORS - k
      && ReadsFrom(k, sm.scans)
      && (|sm.erases| == |sm.scans| - 1 || |sm.erases| == |sm.scans|)
      && ErasesFrom(k, sm.scans, sm.erases)
      && (sm.mutations == Bracketed(|sm.erases|) || sm.mutations == Bracketed(|sm.erases|) + [WRITE_ENABLE as int])
  {
    var sm := Join(Summary([rc], [], [], []), Join(e, more));
    assert sm.scans == [rc] + more.scans;
    assert sm.erases == [e.erases[0]] + more.erases;
    ReadsStep(k, rc, more.scans);
    ErasesStep(k, rc, e.erases[0], more.scans, more.erases);
    MutationsStep(|more.erases|, more.mutations);
  }

  /** How a full pass and the rest end: as the rest does. */
  lemma ScanStepEnd(k: nat, rc: Command, e: Summary, more: Summary, value: Step<Code>)
    requires k + 1 < SCANNED_SECTORS
    requires Erased(k, e)
    requires ScanFrom(k + 1, more, value)
    ensures var sm := Join(Summary([rc], [], [], []), Join(e, more));
      && Last(sm.scans) == Last(more.scans)
      && (ReadBlank(Last(sm.scans)) ==> value == Returned(Ok) && |sm.erases| == |sm.scans| - 1)
      && (value == Returned(Ok) ==> ReadBlank(Last(sm.scans)) || |sm.erases| == |sm.scans| == SCANNED_SECTORS - k)
      && (value == Undefined <==> Last(sm.scans).ok && Payload(Last(sm.scans)).None?)
  {
    var sm := Join(Summary([rc], [], [], []), Join(e, more));
    assert sm.scans == [rc] + more.scans;
    assert sm.erases == [e.erases[0]] + more.erases;
  }

  /** One more round of write enable, sector erase, write disable in front. */
  lemma MutationsStep(n: nat, ms: seq<int>)
    requires ms == Bracketed(n) || ms == Bracketed(n) + [WRITE_ENABLE as int]
    ensures var head := [WRITE_ENABLE as int, SECTOR_ERASE, WRITE_DISABLE];
      head + ms == Bracketed(n + 1) || head + ms == Bracketed(n + 1) + [WRITE_ENABLE as int]
  {
    var head := [WRITE_ENABLE as int, SECTOR_ERASE, WRITE_DISABLE];
    assert Bracketed(n + 1) == head + Bracketed(n);
    assert head + (Bracketed(n) + [WRITE_ENABLE as int]) == Bracketed(n + 1) + [WRITE_ENABLE as int];
  }

  /** The erase loop from sector `k`. */
  lemma {:induction false} EraseFromScan(k: nat, s: seq<Reply>)
    requires k < SCANNED_SECTORS
    ensures Settled(EraseFrom(k, s).trace)
    ensures ScanFrom(k, Summarise(EraseFrom(k, s).trace), EraseFrom(k, s).value)
    decreases SCANNED_SECTORS - k, 3
  {
    var rd := ReadData(k * BYTES_PER_SECTOR, BYTES_PER_SECTOR, s);
    if rd.value.code != Ok || !rd.value.buffer.Bytes? || Blank(rd.value.buffer.data) {
      EraseFromFirstRead(k, s);
    } else {
      EraseFromDirty(k, s);
    }
  }

  /** The facts of the first read of the loop from sector `k`. */
  lemma FirstRead(k: nat, s: seq<Reply>)
    requires k < SCANNED_SECTORS
    ensures var rd := ReadData(k * BYTES_PER_SECTOR, BYTES_PER_SECTOR, s);
      && Settled(rd.trace)
      && |Commands(rd.trace)| == 1
      && var rc := Commands(rd.trace)[0];
      && Summarise(rd.trace) == Summary([rc], [], [], [])
      && rc.bytes == [READ, k, 0x00, 0x00]
      && (rc.ok <==> rd.value.code == Ok)
      && (rd.value.code == Ok && rd.value.buffer.Bytes? ==> Payload(rc) == Some(rd.value.buffer.data))
      && (rd.value.code == Ok && !rd.value.buffer.Bytes? ==> Payload(rc).None?)
      && (rd.value.code == Ok && rd.value.buffer.Bytes? && Blank(rd.value.buffer.data) ==> ReadBlank(rc))
      && (rd.value.code == Ok && rd.value.buffer.Bytes? && !Blank(rd.value.buffer.data) ==> ReadDirty(rc))
  {
    ReadDataProtocol(k * BYTES_PER_SECTOR, BYTES_PER_SECTOR, s);
    ReadDataSummary(k * BYTES_PER_SECTOR, BYTES_PER_SECTOR, s);
    SectorReadCommand(k);
  }

  /** The read of a whole sector addresses its first byte: `[0x03, sector, 0, 0]`. */
  lemma SectorReadCommand(sector: nat)
    requires sector < SECTORS
    ensures ReadCommand(sector * BYTES_PER_SECTOR) == [READ, sector, 0x00, 0x00]
  {
  }

  /** A pass that ends at its read. */
  lemma EraseFromFirstRead(k: nat, s: seq<Reply>)
    requires k < SCANNED_SECTORS
    requires var rd := ReadData(k * BYTES_PER_SECTOR, BYTES_PER_SECTOR, s);
      rd.value.code != Ok || !rd.value.buffer.Bytes? || Blank(rd.value.buffer.data)
    ensures Settled(EraseFrom(k, s).trace)
    ensures ScanFrom(k, Summarise(EraseFrom(k, s).trace), EraseFrom(k, s).value)
  {
    var r := EraseFrom(k, s);
    var rd := ReadData(k * BYTES_PER_SECTOR, BYTES_PER_SECTOR, s);
    FirstRead(k, s);
    assert r.trace == rd.trace;
    ScanOne(k, Commands(rd.trace)[0], r.value);
  }

  /** A pass whose read found the sector not blank. */
  lemma {:induction false} EraseFromDirty(k: nat, s: seq<Reply>)
    requires k < SCANNED_SECTORS
    requires var rd := ReadData(k * BYTES_PER_SECTOR, BYTES_PER_SECTOR, s);
      rd.value.code == Ok && rd.value.buffer.Bytes? && !Blank(rd.value.buffer.data)
    ensures Settled(EraseFrom(k, s).trace)
    ensures ScanFrom(k, Summarise(EraseFrom(k, s).trace), EraseFrom(k, s).value)
    decreases SCANNED_SECTORS - k, 2
  {
    var rd := ReadData(k * BYTES_PER_SECTOR, BYTES_PER_SECTOR, s);
    FirstRead(k, s);
    var rc := Commands(rd.trace)[0];
    var e := EraseSector(k, rd.rest);
    EraseSectorProtocol(k, rd.rest);
    var n := EraseNext(k, e);
    EraseNextScan(k, e, rc, |rd.rest| > 0 && rd.rest[0].Ack?);
    assert EraseFrom(k, s) == Run(n.value, rd.trace + n.trace, n.rest);
    SummariseConcat(rd.trace, n.trace);
    SettledConcat(rd.trace, n.trace);
  }

  /** The rest of a pass after the erase of sector `k`, joined to the read `rc`
      that found the sector not blank. */
  lemma {:induction false} EraseNextScan(k: nat, e: Run<Code>, rc: Command, accepted: bool)
    requires k < SCANNED_SECTORS && BusOnly(e.trace)
    requires rc.bytes == [READ, k, 0x00, 0x00] && ReadDirty(rc)
    requires Settled(e.trace)
    requires e.value == Ok ==> accepted
    requires !accepted ==> Summarise(e.trace) == Summary([], [], [], [WRITE_ENABLE]) && e.value != Ok
    requires accepted ==> Erased(k, Summarise(e.trace))
    ensures Settled(EraseNext(k, e).trace)
    ensures ScanFrom(k, Join(Summary([rc], [], [], []), Summarise(EraseNext(k, e).trace)), EraseNext(k, e).value)
    decreases SCANNED_SECTORS - k, 1
  {
    if e.value != Ok || k + 1 == SCANNED_SECTORS {
      EraseNextLast(k, e, rc, accepted);
    } else {
      EraseNextMore(k, e, rc);
    }
  }

  /** A pass that erased its sector and goes on with the next one. */
  lemma {:induction false} EraseNextMore(k: nat, e: Run<Code>, rc: Command)
    requires k + 1 < SCANNED_SECTORS && BusOnly(e.trace)
    requires rc.bytes == [READ, k, 0x00, 0x00] && ReadDirty(rc)
    requires Settled(e.trace) && Erased(k, Summarise(e.trace)) && e.value == Ok
    ensures Settled(EraseNext(k, e).trace)
    ensures ScanFrom(k, Join(Summary([rc], [], [], []), Summarise(EraseNext(k, e).trace)), EraseNext(k, e).value)
    decreases SCANNED_SECTORS - k, 0
  {
    EraseFromScan(k + 1, e.rest);
    var more := EraseFrom(k + 1, e.rest);
    assert EraseNext(k, e) == Run(more.value, e.trace + more.trace, more.rest);
    NextJoin(k, e.trace, more.trace, rc, more.value);
  }

  /** The pass that ends the loop after its erase. */
  lemma EraseNextLast(k: nat, e: Run<Code>, rc: Command, accepted: bool)
    requires k < SCANNED_SECTORS && BusOnly(e.trace)
    requires rc.bytes == [READ, k, 0x00, 0x00] && ReadDirty(rc)
    requires Settled(e.trace)
    requires e.value == Ok ==> accepted
    requires !accepted ==> Summarise(e.trace) == Summary([], [], [], [WRITE_ENABLE]) && e.value != Ok
    requires accepted ==> Erased(k, Summarise(e.trace))
    requires e.value != Ok || k + 1 == SCANNED_SECTORS
    ensures Settled(EraseNext(k, e).trace)
    ensures ScanFrom(k, Join(Summary([rc], [], [], []), Summarise(EraseNext(k, e).trace)), EraseNext(k, e).value)
  {
    assert EraseNext(k, e) == Run(Returned(e.value), e.trace, e.rest);
    if accepted {
      ScanLastErased(k, rc, Summarise(e.trace), Returned(e.value));
    } else {
      ScanLastRejected(k, rc, Summarise(e.trace), Returned(e.value));
    }
  }

  /** An erased sector, then the loop from the next one. */
  lemma NextJoin(k: nat, et: seq<Event>, mt: seq<Event>, rc: Command, value: Step<Code>)
    requires k + 1 < SCANNED_SECTORS
    requires rc.bytes == [READ, k, 0x00, 0x00] && ReadDirty(rc)
    requires Settled(et) && Erased(k, Summarise(et))
    requires Settled(mt) && ScanFrom(k + 1, Summarise(mt), value)
    ensures Settled(et + mt)
    ensures ScanFrom(k, Join(Summary([rc], [], [], []), Summarise(et + mt)), value)
  {
    SummariseConcat(et, mt);
    SettledConcat(et, mt);
    ScanStep(k, rc, Summarise(et), Summarise(mt), value);
  }

  /** The loop from sector 0: `erase_flash`. Its reads never reach sector 255. */
  lemma EraseFlashScan(s: seq<Reply>)
    ensures Settled(EraseFlash(s).trace)
    ensures ScanFrom(0, Summarise(EraseFlash(s).trace), EraseFlash(s).value)
    ensures forall c :: c in Summarise(EraseFlash(s).trace).scans ==> c.bytes[1] < SCANNED_SECTORS
  {
    EraseFromScan(0, s);
    ScanBelowLast(Summarise(EraseFlash(s).trace), EraseFlash(s).value);
  }

  /** A scan from sector 0 reads sectors below 255 only. */
  lemma ScanBelowLast(sm: Summary, value: Step<Code>)
    requires ScanFrom(0, sm, value)
    ensures forall c :: c in sm.scans ==> c.bytes[1] < SCANNED_SECTORS
  {
    var rs := sm.scans;
    forall c | c in rs
      ensures c.bytes[1] < SCANNED_SECTORS
    {
      var i :| 0 <= i < |rs| && rs[i] == c;
      assert c.bytes == [READ, i, 0x00, 0x00];
    }
  }

  // ---------------------------------------------------------------------
  // program_flash

  /** Both writes of the page program `c` went through, and its payload was `chunk`. */
  predicate Delivered(c: Command, chunk: seq<byte>) {
    c.ok && c.next == Write(chunk, true)
  }

  /** `n` rounds of write enable, page program. */
  function Paired(n: nat): seq<int> {
    if n == 0 then [] else [WRITE_ENABLE as int, PAGE_PROGRAM] + Paired(n - 1)
  }

  /** One page of the program loop, read off its summary `sm`: one page program
      for `page`, preceded by a write enable; on success its payload was `chunk`
      and no write disable follows; on failure one write disable follows. */
  predicate PageSent(page: nat, chunk: seq<byte>, sm: Summary, value: Code)
    requires page < USHORT_LIMIT
  {
    && sm.scans == [] && sm.erases == []
    && |sm.programs| == 1
    && sm.programs[0].bytes == [PAGE_PROGRAM, page / 0x100, page % 0x100, 0x00]
    && (value == Ok ==> Delivered(sm.programs[0], chunk) && sm.mutations == [WRITE_ENABLE, PAGE_PROGRAM])
    && (value != Ok ==> sm.mutations == [WRITE_ENABLE, PAGE_PROGRAM, WRITE_DISABLE])
  }

  /** One page of the program loop: a rejected write enable is followed by a
      write disable and fails; otherwise the page program is sent, and a write
      disable follows only when it failed. */
  lemma ProgramPageProtocol(page: nat, chunk: seq<byte>, s: seq<Reply>)
    requires page < USHORT_LIMIT && |chunk| <= BYTES_PER_PAGE
    ensures var r := ProgramPage(page, chunk, s); var sm := Summarise(r.trace); var accepted := |s| > 0 && s[0].Ack?;
      && Settled(r.trace)
      && (!accepted ==> sm == Summary([], [], [], [WRITE_ENABLE, WRITE_DISABLE]) && r.value == Fail(TransportError))
      && (accepted ==> PageSent(page, chunk, sm, r.value))
      && (accepted ==> r.value == PageProgram(page, chunk, s[1..]).value)
  {
    if |s| > 0 && s[0].Ack? {
      ProgramPageAccepted(page, chunk, s);
    } else {
      ProgramPageRejected(page, chunk, s);
    }
  }

  lemma ProgramPageRejected(page: nat, chunk: seq<byte>, s: seq<Reply>)
    requires page < USHORT_LIMIT && |chunk| <= BYTES_PER_PAGE
    requires !(|s| > 0 && s[0].Ack?)
    ensures var r := ProgramPage(page, chunk, s);
      && Settled(r.trace)
      && Summarise(r.trace) == Summary([], [], [], [WRITE_ENABLE, WRITE_DISABLE])
      && r.value == Fail(TransportError)
  {
    LatchSummary(WRITE_ENABLE, s);
    LatchProtocol(WRITE_ENABLE, s);
    var we := WriteEnable(s);
    assert we.value == Fail(TransportError);
    LatchSummary(WRITE_DISABLE, we.rest);
    var wd := WriteDisable(we.rest);
    assert ProgramPage(page, chunk, s) == Run(we.value, we.trace + wd.trace, wd.rest);
    SummariseConcat(we.trace, wd.trace);
    SettledConcat(we.trace, wd.trace);
    PairSummary(Summarise(we.trace), Summarise(wd.trace), WRITE_ENABLE, WRITE_DISABLE);
  }

  lemma PairSummary(a: Summary, b: Summary, x: int, y: int)
    requires a == Summary([], [], [], [x]) && b == Summary([], [], [], [y])
    ensures Join(a, b) == Summary([], [], [], [x, y])
  {
  }

  lemma ProgramPageAccepted(page: nat, chunk: seq<byte>, s: seq<Reply>)
    requires page < USHORT_LIMIT && |chunk| <= BYTES_PER_PAGE
    requires |s| > 0 && s[0].Ack?
    ensures var r := ProgramPage(page, chunk, s);
      && Settled(r.trace)
      && PageSent(page, chunk, Summarise(r.trace), r.value)
      && r.value == PageProgram(page, chunk, s[1..]).value
  {
    LatchSummary(WRITE_ENABLE, s);
    LatchProtocol(WRITE_ENABLE, s);
    PageProgramSummary(page, chunk, s[1..]);
    PageProgramCommandBytes(page);
    var we := WriteEnable(s);
    assert we.value == Ok && we.rest == s[1..];
    var pp := PageProgram(page, chunk, s[1..]);
    var c := Commands(pp.trace)[0];
    SummariseConcat(we.trace, pp.trace);
    SettledConcat(we.trace, pp.trace);
    if pp.value == Ok {
      assert ProgramPage(page, chunk, s) == Run(Ok, we.trace + pp.trace, pp.rest);
      PageSentDone(page, chunk, c, Summarise(we.trace), Summarise(pp.trace));
    } else {
      LatchSummary(WRITE_DISABLE, pp.rest);
      var wd := WriteDisable(pp.rest);
      assert ProgramPage(page, chunk, s) == Run(pp.value, we.trace + pp.trace + wd.trace, wd.rest);
      SummariseConcat(we.trace + pp.trace, wd.trace);
      SettledConcat(we.trace + pp.trace, wd.trace);
      PageSentFailed(page, chunk, c, Summarise(we.trace), Summarise(pp.trace), Summarise(wd.trace), pp.value);
    }
  }

  lemma PageSentDone(page: nat, chunk: seq<byte>, c: Command, we: Summary, pp: Summary)
    requires page < USHORT_LIMIT
    requires we == Summary([], [], [], [WRITE_ENABLE]) && pp == Summary([], [], [c], [PAGE_PROGRAM])
    requires c.bytes == [PAGE_PROGRAM, page / 0x100, page % 0x100, 0x00] && Delivered(c, chunk)
    ensures PageSent(page, chunk, Join(we, pp), Ok)
  {
  }

  lemma PageSentFailed(page: nat, chunk: seq<byte>, c: Command, we: Summary, pp: Summary, wd: Summary, value: Code)
    requires page < USHORT_LIMIT && value != Ok
    requires we == Summary([], [], [], [WRITE_ENABLE]) && pp == Summary([], [], [c], [PAGE_PROGRAM])
    requires wd == Summary([], [], [], [WRITE_DISABLE])
    requires c.bytes == [PAGE_PROGRAM, page / 0x100, page % 0x100, 0x00]
    ensures PageSent(page, chunk, Join(Join(we, pp), wd), value)
  {
  }

  /** What the program loop started at page number `first` did, read off the
      summary `sm` of its trace and its result `value`:
      - it sent page programs only, at most one per chunk, the i-th for page
        `(first + i) mod 65536`;
      - every page program but the last delivered its chunk;
      - OK means every chunk was delivered in its own page program, each after a
        write enable and none followed by a write disable;
      - a failure ends the loop with one write disable, after a write enable that
        failed (so the chunk was never sent) or after a page program that failed. */
  predicate ProgramsFrom(chunks: seq<seq<byte>>, first: nat, sm: Summary, value: Code) {
    var ps := sm.programs;
    && sm.scans == [] && sm.erases == []
    && |ps| <= |chunks|
    && (forall i :: 0 <= i < |ps| ==>
          ps[i].bytes == [PAGE_PROGRAM, (first + i) % USHORT_LIMIT / 0x100, (first + i) % USHORT_LIMIT % 0x100, 0x00])
    && (forall i :: 0 <= i < |ps| - 1 ==> Delivered(ps[i], chunks[i]))
    && (value == Ok ==> ProgramsDone(chunks, sm))
    && (value != Ok ==> ProgramsStopped(chunks, sm))
  }

  /** The loop ran to the end: every chunk was delivered in its own page program. */
  predicate ProgramsDone(chunks: seq<seq<byte>>, sm: Summary) {
    var ps := sm.programs;
    && |ps| == |chunks|
    && sm.mutations == Paired(|ps|)
    && (forall i :: 0 <= i < |ps| ==> Delivered(ps[i], chunks[i]))
  }

  /** The loop stopped early: one write disable after a write enable that failed
      (so the chunk was never sent) or after a page program that failed. */
  predicate ProgramsStopped(chunks: seq<seq<byte>>, sm: Summary) {
    var ps := sm.programs;
    || (|ps| < |chunks| && sm.mutations == Paired(|ps|) + [WRITE_ENABLE as int, WRITE_DISABLE])
    || (|ps| >= 1 && sm.mutations == Paired(|ps| - 1) + [WRITE_ENABLE as int, PAGE_PROGRAM, WRITE_DISABLE])
  }

  /** The program loop from page number `first`. */
  lemma {:induction false} ProgramFromSummary(chunks: seq<seq<byte>>, first: nat, s: seq<Reply>)
    requires forall i :: 0 <= i < |chunks| ==> |chunks[i]| <= BYTES_PER_PAGE
    ensures Settled(ProgramFrom(chunks, first, s).trace)
    ensures ProgramsFrom(chunks, first, Summarise(ProgramFrom(chunks, first, s).trace), ProgramFrom(chunks, first, s).value)
    decreases |chunks|, 1
  {
    if chunks == [] {
      assert ProgramFrom(chunks, first, s).trace == [];
      assert Summarise([]) == Summary([], [], [], []);
    } else if ProgramPage(first % USHORT_LIMIT, chunks[0], s).value != Ok {
      var p := ProgramPage(first % USHORT_LIMIT, chunks[0], s);
      ProgramPageProtocol(first % USHORT_LIMIT, chunks[0], s);
      assert ProgramFrom(chunks, first, s) == p;
      ProgramsLast(chunks, first, Summarise(p.trace), p.value, |s| > 0 && s[0].Ack?);
    } else {
      ProgramFromNext(chunks, first, s);
    }
  }

  /** The first page was delivered: the loop goes on from the next page number. */
  lemma {:induction false} ProgramFromNext(chunks: seq<seq<byte>>, first: nat, s: seq<Reply>)
    requires forall i :: 0 <= i < |chunks| ==> |chunks[i]| <= BYTES_PER_PAGE
    requires chunks != [] && ProgramPage(first % USHORT_LIMIT, chunks[0], s).value == Ok
    ensures Settled(ProgramFrom(chunks, first, s).trace)
    ensures ProgramsFrom(chunks, first, Summarise(ProgramFrom(chunks, first, s).trace), ProgramFrom(chunks, first, s).value)
    decreases |chunks|, 0
  {
    var p := ProgramPage(first % USHORT_LIMIT, chunks[0], s);
    ProgramPageProtocol(first % USHORT_LIMIT, chunks[0], s);
    ProgramFromSummary(chunks[1..], first + 1, p.rest);
    var more := ProgramFrom(chunks[1..], first + 1, p.rest);
    assert ProgramFrom(chunks, first, s) == Run(more.value, p.trace + more.trace, more.rest);
    SummariseConcat(p.trace, more.trace);
    SettledConcat(p.trace, more.trace);
    ProgramsStep(chunks, first, Summarise(p.trace), Summarise(more.trace), more.value);
  }

  /** The loop ends at its first page. */
  lemma ProgramsLast(chunks: seq<seq<byte>>, first: nat, sm: Summary, value: Code, accepted: bool)
    requires |chunks| >= 1 && value != Ok
    requires !accepted ==> sm == Summary([], [], [], [WRITE_ENABLE, WRITE_DISABLE])
    requires accepted ==> PageSent(first % USHORT_LIMIT, chunks[0], sm, value)
    ensures ProgramsFrom(chunks, first, sm, value)
  {
    assert Paired(0) == [];
    if accepted {
      assert sm.mutations == Paired(0) + [WRITE_ENABLE as int, PAGE_PROGRAM, WRITE_DISABLE];
    } else {
      assert sm.mutations == Paired(0) + [WRITE_ENABLE as int, WRITE_DISABLE];
    }
  }

  /** One delivered page, then the loop from the next page number. */
  lemma ProgramsStep(chunks: seq<seq<byte>>, first: nat, head: Summary, more: Summary, value: Code)
    requires |chunks| >= 1
    requires PageSent(first % USHORT_LIMIT, chunks[0], head, Ok)
    requires ProgramsFrom(chunks[1..], first + 1, more, value)
    ensures ProgramsFrom(chunks, first, Join(head, more), value)
  {
    var sm := Join(head, more);
    var ps := sm.programs;
    assert ps == [head.programs[0]] + more.programs;
    ProgramsStepBytes(first, head.programs[0], more.programs);
    ProgramsStepDelivered(chunks, head.programs[0], more.programs);
    if value == Ok {
      ProgramsStepAll(chunks, head, more);
    } else {
      ProgramsStepStopped(chunks, head, more);
    }
  }

  /** A delivered page in front of a loop that ran to the end. */
  lemma ProgramsStepAll(chunks: seq<seq<byte>>, head: Summary, more: Summary)
    requires |chunks| >= 1
    requires |head.programs| == 1 && Delivered(head.programs[0], chunks[0])
    requires head.mutations == [WRITE_ENABLE, PAGE_PROGRAM]
    requires ProgramsDone(chunks[1..], more)
    ensures ProgramsDone(chunks, Join(head, more))
  {
    var ps := Join(head, more).programs;
    assert ps == [head.programs[0]] + more.programs;
    PairedStep(|more.programs|, more.mutations);
    ProgramsStepDone(chunks, head.programs[0], more.programs);
  }

  /** A delivered page in front of a loop that stopped early. */
  lemma ProgramsStepStopped(chunks: seq<seq<byte>>, head: Summary, more: Summary)
    requires |chunks| >= 1
    requires |head.programs| == 1 && head.mutations == [WRITE_ENABLE, PAGE_PROGRAM]
    requires ProgramsStopped(chunks[1..], more)
    ensures ProgramsStopped(chunks, Join(head, more))
  {
    var n := |more.programs|;
    assert |Join(head, more).programs| == n + 1;
    PairedStep(n, more.mutations);
    var pair := [WRITE_ENABLE as int, PAGE_PROGRAM];
    if n < |chunks[1..]| && more.mutations == Paired(n) + [WRITE_ENABLE as int, WRITE_DISABLE] {
      assert pair + more.mutations == Paired(n + 1) + [WRITE_ENABLE as int, WRITE_DISABLE];
    } else {
      assert pair + more.mutations == Paired(n) + [WRITE_ENABLE as int, PAGE_PROGRAM, WRITE_DISABLE];
    }
  }

  lemma ProgramsStepBytes(first: nat, p: Command, ps: seq<Command>)
    requires p.bytes == [PAGE_PROGRAM, first % USHORT_LIMIT / 0x100, first % USHORT_LIMIT % 0x100, 0x00]
    requires forall i :: 0 <= i < |ps| ==>
      ps[i].bytes == [PAGE_PROGRAM, (first + 1 + i) % USHORT_LIMIT / 0x100, (first + 1 + i) % USHORT_LIMIT % 0x100, 0x00]
    ensures forall i :: 0 <= i < |[p] + ps| ==>
      ([p] + ps)[i].bytes == [PAGE_PROGRAM, (first + i) % USHORT_LIMIT / 0x100, (first + i) % USHORT_LIMIT % 0x100, 0x00]
  {
    forall i | 0 < i < |[p] + ps|
      ensures ([p] + ps)[i].bytes == [PAGE_PROGRAM, (first + i) % USHORT_LIMIT / 0x100, (first + i) % USHORT_LIMIT % 0x100, 0x00]
    {
      assert ([p] + ps)[i] == ps[i - 1];
      assert first + 1 + (i - 1) == first + i;
    }
  }

  lemma ProgramsStepDelivered(chunks: seq<seq<byte>>, p: Command, ps: seq<Command>)
    requires |chunks| >= 1 && Delivered(p, chunks[0]) && |ps| <= |chunks| - 1
    requires forall i :: 0 <= i < |ps| - 1 ==> Delivered(ps[i], chunks[1..][i])
    ensures forall i :: 0 <= i < |[p] + ps| - 1 ==> Delivered(([p] + ps)[i], chunks[i])
  {
    forall i | 0 < i < |[p] + ps| - 1
      ensures Delivered(([p] + ps)[i], chunks[i])
    {
      assert ([p] + ps)[i] == ps[i - 1];
      assert chunks[1..][i - 1] == chunks[i];
    }
  }

  lemma ProgramsStepDone(chunks: seq<seq<byte>>, p: Command, ps: seq<Command>)
    requires |chunks| >= 1 && Delivered(p, chunks[0])
    requires |ps| == |chunks| - 1
    requires forall i :: 0 <= i < |ps| ==> Delivered(ps[i], chunks[1..][i])
    ensures forall i :: 0 <= i < |[p] + ps| ==> Delivered(([p] + ps)[i], chunks[i])
  {
    forall i | 0 < i < |[p] + ps|
      ensures Delivered(([p] + ps)[i], chunks[i])
    {
      assert ([p] + ps)[i] == ps[i - 1];
      assert chunks[1..][i - 1] == chunks[i];
    }
  }

  /** One more round of write enable, page program in front of a mutation log. */
  lemma PairedStep(n: nat, ms: seq<int>)
    ensures Paired(n + 1) == [WRITE_ENABLE as int, PAGE_PROGRAM] + Paired(n)
    ensures n >= 1 ==> Paired(n) == [WRITE_ENABLE as int, PAGE_PROGRAM] + Paired(n - 1)
    ensures forall tail: seq<int> :: ms == Paired(n) + tail ==> [WRITE_ENABLE as int, PAGE_PROGRAM] + ms == Paired(n + 1) + tail
  {
  }

  /** The whole of `program_flash` on the chunks it cut: the program loop from page
      0, then, when every page went through, one write disable whose result is the
      call's. */
  predicate ProgramFlashRun(chunks: seq<seq<byte>>, sm: Summary, value: Code) {
    var ps := sm.programs;
    && sm.scans == [] && sm.erases == []
    && |ps| <= |chunks|
    && (forall i :: 0 <= i < |ps| ==> ps[i].bytes == [PAGE_PROGRAM, i % USHORT_LIMIT / 0x100, i % USHORT_LIMIT % 0x100, 0x00])
    && (forall i :: 0 <= i < |ps| - 1 ==> Delivered(ps[i], chunks[i]))
    && (value == Ok ==> AllSent(chunks, sm))
    && (value != Ok ==> ProgramsStopped(chunks, sm) || (AllSent(chunks, sm) && value == Fail(TransportError)))
  }

  /** Every chunk was delivered in its own page program, and one write disable
      followed the last. */
  predicate AllSent(chunks: seq<seq<byte>>, sm: Summary) {
    var ps := sm.programs;
    && |ps| == |chunks|
    && sm.mutations == Paired(|ps|) + [WRITE_DISABLE as int]
    && (forall i :: 0 <= i < |ps| ==> Delivered(ps[i], chunks[i]))
  }

  lemma ProgramFlashSummary(data: seq<byte>, s: seq<Reply>)
    requires |data| < UINT_LIMIT
    ensures Settled(ProgramFlash(data, s).trace)
    ensures ProgramFlashRun(Pages(data), Summarise(ProgramFlash(data, s).trace), ProgramFlash(data, s).value)
  {
    var chunks := Pages(data);
    ProgramFromSummary(chunks, 0, s);
    var all := ProgramFrom(chunks, 0, s);
    if all.value != Ok {
      assert ProgramFlash(data, s) == all;
      LoopOnly(chunks, Summarise(all.trace), all.value);
    } else {
      LatchSummary(WRITE_DISABLE, all.rest);
      LatchProtocol(WRITE_DISABLE, all.rest);
      var wd := WriteDisable(all.rest);
      assert ProgramFlash(data, s) == Run(wd.value, all.trace + wd.trace, wd.rest);
      SummariseConcat(all.trace, wd.trace);
      SettledConcat(all.trace, wd.trace);
      FinalDisable(chunks, Summarise(all.trace), Summarise(wd.trace), wd.value);
    }
  }

  lemma LoopOnly(chunks: seq<seq<byte>>, sm: Summary, value: Code)
    requires value != Ok && ProgramsFrom(chunks, 0, sm, value)
    ensures ProgramFlashRun(chunks, sm, value)
  {
  }

  lemma FinalDisable(chunks: seq<seq<byte>>, loop: Summary, wd: Summary, value: Code)
    requires ProgramsFrom(chunks, 0, loop, Ok)
    requires wd == Summary([], [], [], [WRITE_DISABLE])
    requires value == Ok || value == Fail(TransportError)
    ensures ProgramFlashRun(chunks, Join(loop, wd), value)
  {
    var sm := Join(loop, wd);
    assert sm.programs == loop.programs;
  }

  /** Concatenation of a sequence of chunks. */
  function Flatten(ps: seq<seq<byte>>): seq<byte> {
    if ps == [] then [] else Flatten(ps[..|ps| - 1]) + ps[|ps| - 1]
  }

  /** The payload a page program sent after its command. */
  function SentPayload(c: Command): seq<byte> {
    if c.next.Write? then c.next.bytes else []
  }

  /** The payloads of a sequence of page programs, in order. */
  function Payloads(ps: seq<Command>): (r: seq<seq<byte>>)
    ensures |r| == |ps|
  {
    seq(|ps|, i requires 0 <= i < |ps| => SentPayload(ps[i]))
  }

  /** The full pages of `data` concatenate to its first `256 * n` bytes. */
  lemma {:induction false} FullPagesFlatten(data: seq<byte>, n: nat)
    requires n <= |data| / BYTES_PER_PAGE
    ensures Flatten(Pages(data)[..n]) == data[..BYTES_PER_PAGE * n]
  {
    var ps := Pages(data);
    if n > 0 {
      FullPagesFlatten(data, n - 1);
      assert ps[..n][..n - 1] == ps[..n - 1];
      assert ps[..n][n - 1] == data[BYTES_PER_PAGE * (n - 1) .. BYTES_PER_PAGE * n];
      assert data[..BYTES_PER_PAGE * n] == data[..BYTES_PER_PAGE * (n - 1)] + data[BYTES_PER_PAGE * (n - 1) .. BYTES_PER_PAGE * n];
    }
  }

  /** Cutting the image into pages loses nothing: the pages concatenate back to
      the image, there are `ceil(|data| / 256)` of them, and all but the last are
      full. */
  lemma PagesRoundTrip(data: seq<byte>)
    ensures Flatten(Pages(data)) == data
    ensures |Pages(data)| == (|data| + BYTES_PER_PAGE - 1) / BYTES_PER_PAGE
    ensures forall i :: 0 <= i < |Pages(data)| - 1 ==> |Pages(data)[i]| == BYTES_PER_PAGE
  {
    PagesFlatten(data);
    PagesCount(data);
  }

  lemma PagesFlatten(data: seq<byte>)
    ensures Flatten(Pages(data)) == data
  {
    var ps := Pages(data);
    var full := |data| / BYTES_PER_PAGE;
    FullPagesFlatten(data, full);
    if |data| % BYTES_PER_PAGE != 0 {
      assert ps[..|ps| - 1] == ps[..full];
      assert data == data[..BYTES_PER_PAGE * full] + data[BYTES_PER_PAGE * full..];
    } else {
      assert ps == ps[..full];
      assert data == data[..BYTES_PER_PAGE * full];
    }
  }

  lemma PagesCount(data: seq<byte>)
    ensures |Pages(data)| == (|data| + BYTES_PER_PAGE - 1) / BYTES_PER_PAGE
    ensures forall i :: 0 <= i < |Pages(data)| - 1 ==> |Pages(data)[i]| == BYTES_PER_PAGE
  {
    var full := |data| / BYTES_PER_PAGE;
    var rem := |data| % BYTES_PER_PAGE;
    assert |data| == BYTES_PER_PAGE * full + rem;
    if rem != 0 {
      assert |data| + BYTES_PER_PAGE - 1 == BYTES_PER_PAGE * (full + 1) + (rem - 1);
    } else {
      assert |data| + BYTES_PER_PAGE - 1 == BYTES_PER_PAGE * full + (BYTES_PER_PAGE - 1);
    }
  }

  /** A successful `program_flash` of an image that fits the chip wrote it whole:
      the i-th page program is the command for page i, that is byte address
      256 * i, and the payloads sent, concatenated in order, are the image. */
  lemma ProgramFlashImage(data: seq<byte>, s: seq<Reply>)
    requires |data| <= TOTAL_BYTES
    ensures var r := ProgramFlash(data, s); var ps := Summarise(r.trace).programs;
      r.value == Ok ==>
        && (forall i :: 0 <= i < |ps| ==> i < USHORT_LIMIT && ps[i].bytes == PageProgramCommand(i))
        && Flatten(Payloads(ps)) == data
  {
    ProgramFlashSummary(data, s);
    var r := ProgramFlash(data, s);
    if r.value == Ok {
      PagesRoundTrip(data);
      PagesFit(data);
      SentImage(Pages(data), Summarise(r.trace));
    }
  }

  /** An image that fits the chip has at most 65536 pages. */
  lemma PagesFit(data: seq<byte>)
    requires |data| <= TOTAL_BYTES
    ensures |Pages(data)| <= USHORT_LIMIT
  {
    PagesRoundTrip(data);
    assert |data| + BYTES_PER_PAGE - 1 < (USHORT_LIMIT + 1) * BYTES_PER_PAGE;
  }

  lemma SentImage(chunks: seq<seq<byte>>, sm: Summary)
    requires |chunks| <= USHORT_LIMIT && ProgramFlashRun(chunks, sm, Ok)
    ensures forall i :: 0 <= i < |sm.programs| ==> i < USHORT_LIMIT && sm.programs[i].bytes == PageProgramCommand(i)
    ensures Payloads(sm.programs) == chunks
  {
    SentCommands(|chunks|, sm.programs);
    SentPayloads(chunks, sm.programs);
  }

  lemma SentCommands(n: nat, ps: seq<Command>)
    requires |ps| <= n <= USHORT_LIMIT
    requires forall i :: 0 <= i < |ps| ==> ps[i].bytes == [PAGE_PROGRAM, i % USHORT_LIMIT / 0x100, i % USHORT_LIMIT % 0x100, 0x00]
    ensures forall i :: 0 <= i < |ps| ==> i < USHORT_LIMIT && ps[i].bytes == PageProgramCommand(i)
  {
    forall i | 0 <= i < |ps|
      ensures i < USHORT_LIMIT && ps[i].bytes == PageProgramCommand(i)
    {
      SentCommand(i, ps[i]);
    }
  }

  lemma SentCommand(i: nat, c: Command)
    requires i < USHORT_LIMIT
    requires c.bytes == [PAGE_PROGRAM, i % USHORT_LIMIT / 0x100, i % USHORT_LIMIT % 0x100, 0x00]
    ensures c.bytes == PageProgramCommand(i)
  {
    assert i % USHORT_LIMIT == i;
    PageProgramCommandBytes(i);
  }

  lemma SentPayloads(chunks: seq<seq<byte>>, ps: seq<Command>)
    requires |ps| == |chunks|
    requires forall i :: 0 <= i < |ps| ==> Delivered(ps[i], chunks[i])
    ensures Payloads(ps) == chunks
  {
    forall i | 0 <= i < |ps|
      ensures Payloads(ps)[i] == chunks[i]
    {
      assert Delivered(ps[i], chunks[i]);
    }
  }

  // ---------------------------------------------------------------------
  // validate_flash

  /** `validate_flash` sends one read of `|data|` bytes from address 0 and nothing
      that changes the chip. A rejected read command is undefined behaviour (the
      buffer pointer was never set); a payload that did not come back fails with
      `matched` cleared; otherwise the call succeeds and `matched` says whether
      the bytes read back are the image. */
  lemma ValidateSemantics(data: seq<byte>, s: seq<Reply>)
    requires |data| < UINT_LIMIT
    ensures var r := ValidateFlash(data, s); var sm := Summarise(r.trace);
      && Settled(r.trace)
      && |sm.scans| == 1 && sm.erases == [] && sm.programs == [] && sm.mutations == []
      && var c := sm.scans[0];
      && c.bytes == ReadCommand(0)
      && (c.ok ==> c.next.Read? && c.next.count == |data|)
      && (r.value == Undefined <==> !c.ok)
      && (r.value == Returned(Validation(Ok, true)) <==> Payload(c) == Some(data))
      && (r.value == Returned(Validation(Ok, false)) <==> Payload(c).Some? && Payload(c) != Some(data))
      && (r.value == Returned(Validation(Fail(TransportError), false)) <==> c.ok && Payload(c).None?)
  {
    ReadDataProtocol(0, |data|, s);
    ReadDataSummary(0, |data|, s);
  }
}
