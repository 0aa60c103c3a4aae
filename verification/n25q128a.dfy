/**
 Command driver for the N25Q128A serial NOR flash (16 MiB, 256 sectors of
 64 KiB, 65536 pages of 256 bytes).

 Each driver call is a pure function from the bridge's reply script to the
 call's return code, the events it caused and the replies left over. The
 constants mirror the part's header; the wire commands are the exact bytes
 the driver writes.
 */
module N25Q128A {
  import opened Transport

  // Identity
  const MANUFACTURER_ID: byte := 0x20
  const DEVICE_ID: int := 0x18ba

  // Opcodes
  const ID: byte := 0x9f
  const READ: byte := 0x03
  const READ_STATUS: byte := 0x05
  const READ_FLAG_STATUS: byte := 0x70
  const WRITE_ENABLE: byte := 0x06
  const WRITE_DISABLE: byte := 0x04
  const BULK_ERASE: byte := 0xc7
  const PAGE_PROGRAM: byte := 0x02
  const SECTOR_ERASE: byte := 0xd8

  // Register masks
  const STATUS_WRITING: byte := 0x01
  const FLAG_ERASE_FAIL: byte := 0x06
  const FLAG_PROGRAM_FAIL: byte := 0x05

  // Geometry
  const PAGES: nat := 65536
  const BYTES_PER_PAGE: nat := 256
  const TOTAL_BYTES: nat := 16777216
  const SECTORS: nat := 256
  const BYTES_PER_SECTOR: nat := 65536

  /** Bytes answered to the identify command, and the unique-id part of them. */
  const ID_LENGTH: nat := 20
  const UNIQUE_ID_LENGTH: nat := 17

  /** Ranges of the C parameter types `unsigned int` and `unsigned short`. */
  const UINT_LIMIT: nat := 0x1_0000_0000
  const USHORT_LIMIT: nat := 0x1_0000

  /** The 3-byte address field covers addresses below this bound. */
  const ADDRESS_LIMIT: nat := 0x100_0000

  const BULK_ERASE_FAILED: string := "flash bulk erase failed"
  const SECTOR_ERASE_FAILED: string := "flash sector erase failed"
  const PROGRAM_FAILED: string := "flash program failed"

  type u16 = x: int | 0 <= x < 0x1_0000

  /** `struct n25q128a_id_data`. */
  datatype FlashId = FlashId(manufacturerId: byte, deviceId: u16, uniqueId: seq<byte>)

  predicate WellFormedId(x: FlashId) {
    |x.uniqueId| == UNIQUE_ID_LENGTH
  }

  /** Why a call returned `MPSSE_FAIL`: the bridge failed, or the chip's flag
      register reported a failed erase or program (with the driver's message). */
  datatype Cause = TransportError | ChipError(message: string)

  /** `MPSSE_OK` or `MPSSE_FAIL`. */
  datatype Code = Ok | Fail(cause: Cause)

  // ---------------------------------------------------------------------
  // Bit masks

  /** Bitwise AND of two naturals, bit by bit from the least significant. */
  function BitAnd(a: nat, b: nat): nat
    decreases a
  {
    if a == 0 || b == 0 then 0
    else 2 * BitAnd(a / 2, b / 2) + (if a % 2 == 1 && b % 2 == 1 then 1 else 0)
  }

  /** Bit `k` (0 = least significant) of a register value. */
  predicate Bit(v: byte, k: nat)
    requires k < 8
  {
    (v / Pow2(k)) % 2 == 1
  }

  function Pow2(k: nat): (p: nat)
    ensures p >= 1
  {
    if k == 0 then 1 else 2 * Pow2(k - 1)
  }

  /** `status & N25Q128A_STATUS_WRITING`: a write or erase is still in progress. */
  predicate Writing(status: byte) {
    BitAnd(status, STATUS_WRITING) != 0
  }

  /** `flag_status & mask`: some bit of the mask is set (a mask test, not an equality). */
  predicate Masked(flag: byte, mask: byte) {
    BitAnd(flag, mask) != 0
  }

  // ---------------------------------------------------------------------
  // Wire encodings

  /** The 3-byte big-endian address field `(a & 0xff0000) >> 16, (a & 0xff00) >> 8,
      a & 0xff` of an `unsigned int` address; for a non-negative `a` the masks and
      shifts are exactly these divisions and remainders. */
  function AddressBytes(a: nat): (b: seq<byte>)
    requires a < UINT_LIMIT
    ensures |b| == 3
  {
    [(a / 0x1_0000) % 0x100, (a / 0x100) % 0x100, a % 0x100]
  }

  /** Reads a 3-byte address field back, most significant byte first. */
  function DecodeAddress(b: seq<byte>): (a: nat)
    requires |b| == 3
    ensures a < ADDRESS_LIMIT
  {
    (b[0] as int) * 0x1_0000 + (b[1] as int) * 0x100 + (b[2] as int)
  }

  function ReadCommand(address: nat): (c: seq<byte>)
    requires address < UINT_LIMIT
    ensures |c| == 4 && c[0] == READ && c[1..] == AddressBytes(address)
  {
    [READ] + AddressBytes(address)
  }

  /** The command for `unsigned char sector`: its base address is `sector * 65536`. */
  function SectorEraseCommand(sector: nat): (c: seq<byte>)
    requires sector < SECTORS
    ensures |c| == 4 && c[0] == SECTOR_ERASE
  {
    [SECTOR_ERASE] + AddressBytes(sector * BYTES_PER_SECTOR)
  }

  /** The command for `unsigned short page`: its base address is `page * 256`. */
  function PageProgramCommand(page: nat): (c: seq<byte>)
    requires page < USHORT_LIMIT
    ensures |c| == 4 && c[0] == PAGE_PROGRAM
  {
    [PAGE_PROGRAM] + AddressBytes(page * BYTES_PER_PAGE)
  }

  /** The 20 identify bytes as the driver splits them: manufacturer, device id
      low byte then high byte, unique id. */
  function DecodeId(d: seq<byte>): (x: FlashId)
    requires |d| == ID_LENGTH
    ensures WellFormedId(x)
  {
    FlashId(d[0], (d[2] as int) * 0x100 + (d[1] as int), d[3..])
  }

  /** The bytes a chip with identity `x` answers to the identify command. */
  function EncodeId(x: FlashId): (d: seq<byte>)
    requires WellFormedId(x)
    ensures |d| == ID_LENGTH
  {
    [x.manufacturerId, x.deviceId % 0x100, x.deviceId / 0x100] + x.uniqueId
  }

  // ---------------------------------------------------------------------
  // Driver calls

  /** `n25q128a_id`. */
  function Identify(s: seq<Reply>): (r: Run<Option<FlashId>>)
    ensures Consumes(s, r.rest)
    ensures BusOnly(r.trace)
    ensures r.value.Some? ==> WellFormedId(r.value.value)
  {
    var w := WriteOut([ID], s);
    if !w.value then Run(None, [Start] + w.trace + [Stop], w.rest)
    else
      var d := ReadIn(ID_LENGTH, w.rest);
      var trace := [Start] + w.trace + d.trace + [Stop];
      match d.value
      case None => Run(None, trace, d.rest)
      case Some(bytes) => Run(Some(DecodeId(bytes)), trace, d.rest)
  }

  /** Where `n25q128a_read` leaves the caller's buffer pointer: untouched when the
      command write failed, NULL when the payload read failed, else the bytes. */
  datatype Buffer = Unassigned | Null | Bytes(data: seq<byte>)

  datatype Fetched = Fetched(code: Code, buffer: Buffer)

  /** `n25q128a_read`. The source tests `!data`, the caller's pointer-to-pointer,
      which is never NULL; so a failed payload read leaves the code OK and the
      buffer NULL. */
  function ReadData(address: nat, length: nat, s: seq<Reply>): (r: Run<Fetched>)
    requires address < UINT_LIMIT && length < UINT_LIMIT
    ensures Consumes(s, r.rest)
    ensures BusOnly(r.trace)
    ensures r.value.buffer.Bytes? ==> |r.value.buffer.data| == length
  {
    var w := WriteOut(ReadCommand(address), s);
    if !w.value then Run(Fetched(Fail(TransportError), Unassigned), [Start] + w.trace + [Stop], w.rest)
    else
      var d := ReadIn(length, w.rest);
      var buffer := match d.value case Some(b) => Bytes(b) case None => Null;
      Run(Fetched(Ok, buffer), [Start] + w.trace + d.trace + [Stop], d.rest)
  }

  /** The shared shape of `n25q128a_read_status` and `n25q128a_read_flag_status`:
      a one-byte command answered by one byte. */
  function ReadRegister(opcode: byte, s: seq<Reply>): (r: Run<Option<byte>>)
    ensures Consumes(s, r.rest)
    ensures BusOnly(r.trace)
    ensures r.value.Some? ==> |r.rest| < |s|
  {
    var w := WriteOut([opcode], s);
    if !w.value then Run(None, [Start] + w.trace + [Stop], w.rest)
    else
      var d := ReadIn(1, w.rest);
      var trace := [Start] + w.trace + d.trace + [Stop];
      match d.value
      case None => Run(None, trace, d.rest)
      case Some(b) => Run(Some(b[0]), trace, d.rest)
  }

  /** `n25q128a_read_status`. */
  function ReadStatus(s: seq<Reply>): (r: Run<Option<byte>>)
    ensures Consumes(s, r.rest)
    ensures BusOnly(r.trace)
    ensures r.value.Some? ==> |r.rest| < |s|
  {
    ReadRegister(READ_STATUS, s)
  }

  /** `n25q128a_read_flag_status`. */
  function ReadFlagStatus(s: seq<Reply>): (r: Run<Option<byte>>)
    ensures Consumes(s, r.rest)
    ensures BusOnly(r.trace)
  {
    ReadRegister(READ_FLAG_STATUS, s)
  }

  /** The shared shape of write enable and write disable: one command byte,
      no answer, and the write's result is the call's result. */
  function Latch(opcode: byte, s: seq<Reply>): (r: Run<Code>)
    ensures Consumes(s, r.rest)
    ensures BusOnly(r.trace)
  {
    var w := WriteOut([opcode], s);
    Run(if w.value then Ok else Fail(TransportError), [Start] + w.trace + [Stop], w.rest)
  }

  /** `n25q128a_write_enable`. */
  function WriteEnable(s: seq<Reply>): (r: Run<Code>)
    ensures Consumes(s, r.rest)
    ensures BusOnly(r.trace)
  {
    Latch(WRITE_ENABLE, s)
  }

  /** `n25q128a_write_disable`. */
  function WriteDisable(s: seq<Reply>): (r: Run<Code>)
    ensures Consumes(s, r.rest)
    ensures BusOnly(r.trace)
  {
    Latch(WRITE_DISABLE, s)
  }

  /** The `do { read_status } while (status & WRITING)` loop of the erase and
      program calls. It is unbounded in the source; here every further poll
      takes replies from the script, which is finite. */
  function PollStatus(s: seq<Reply>): (r: Run<Code>)
    ensures Consumes(s, r.rest)
    ensures BusOnly(r.trace)
    decreases |s|
  {
    var st := ReadStatus(s);
    match st.value
    case None => Run(Fail(TransportError), st.trace, st.rest)
    case Some(status) =>
      if Writing(status) then
        var more := PollStatus(st.rest);
        ConsumesTransitive(s, st.rest, more.rest);
        Run(more.value, st.trace + more.trace, more.rest)
      else Run(Ok, st.trace, st.rest)
  }

  /** How the wait for a mutating command ended. */
  datatype Completion =
    | PollFailed             // a status read failed
    | FlagUnread             // polling ended, the flag-status read failed
    | FlagSet(flag: byte)    // the flag register has a bit of the failure mask
    | FlagClear(flag: byte)  // the flag register has no bit of the failure mask

  /** Poll until idle, then read the flag register once and test it with `mask`. */
  function Await(mask: byte, s: seq<Reply>): (r: Run<Completion>)
    ensures Consumes(s, r.rest)
    ensures BusOnly(r.trace)
  {
    var p := PollStatus(s);
    if p.value != Ok then Run(PollFailed, p.trace, p.rest)
    else
      var f := ReadFlagStatus(p.rest);
      ConsumesTransitive(s, p.rest, f.rest);
      match f.value
      case None => Run(FlagUnread, p.trace + f.trace, f.rest)
      case Some(flag) =>
        Run(if Masked(flag, mask) then FlagSet(flag) else FlagClear(flag), p.trace + f.trace, f.rest)
  }

  /** The shared body of the bulk and sector erases. */
  function Erase(command: seq<byte>, message: string, s: seq<Reply>): (r: Run<Code>)
    ensures Consumes(s, r.rest)
    ensures BusOnly(r.trace)
  {
    var w := WriteOut(command, s);
    var head := [Start] + w.trace + [Stop];
    BusOnlyFrame(w.trace);
    if !w.value then Run(Fail(TransportError), head, w.rest)
    else
      var c := Await(FLAG_ERASE_FAIL, w.rest);
      ConsumesTransitive(s, w.rest, c.rest);
      EraseOutcome(head, message, c)
  }

  /** How an erase ends once its command transaction `head` is closed and the
      wait `c` is over. When the flag register came back without an erase-fail
      bit the code falls through into the `error:` label and issues a second
      Stop; a failed flag-status read jumps to `done:` with the OK code of the
      last status read and no second Stop. */
  function EraseOutcome(head: seq<Event>, message: string, c: Run<Completion>): (r: Run<Code>)
    ensures r.rest == c.rest
    ensures BusOnly(head) && BusOnly(c.trace) ==> BusOnly(r.trace)
  {
    match c.value
    case PollFailed => Run(Fail(TransportError), head + c.trace, c.rest)
    case FlagUnread => Run(Ok, head + c.trace, c.rest)
    case FlagSet(_) => Run(Fail(ChipError(message)), head + c.trace, c.rest)
    case FlagClear(_) => Run(Ok, head + c.trace + [Stop], c.rest)
  }

  /** `n25q128a_bulk_erase`. */
  function BulkErase(s: seq<Reply>): (r: Run<Code>)
    ensures Consumes(s, r.rest)
    ensures BusOnly(r.trace)
  {
    Erase([BULK_ERASE], BULK_ERASE_FAILED, s)
  }

  /** `n25q128a_sector_erase`. */
  function SectorErase(sector: nat, s: seq<Reply>): (r: Run<Code>)
    requires sector < SECTORS
    ensures Consumes(s, r.rest)
    ensures BusOnly(r.trace)
  {
    Erase(SectorEraseCommand(sector), SECTOR_ERASE_FAILED, s)
  }

  /** `n25q128a_page_program`: the command and the payload are two writes of one
      transaction. */
  function PageProgram(page: nat, data: seq<byte>, s: seq<Reply>): (r: Run<Code>)
    requires page < USHORT_LIMIT && |data| < USHORT_LIMIT
    ensures Consumes(s, r.rest)
    ensures BusOnly(r.trace)
  {
    var w := WriteOut(PageProgramCommand(page), s);
    BusOnlyFrame(w.trace);
    if !w.value then Run(Fail(TransportError), [Start] + w.trace + [Stop], w.rest)
    else
      var v := WriteOut(data, w.rest);
      var head := [Start] + w.trace + v.trace + [Stop];
      BusOnlyFrame2(w.trace, v.trace);
      ConsumesTransitive(s, w.rest, v.rest);
      if !v.value then Run(Fail(TransportError), head, v.rest)
      else
        var c := Await(FLAG_PROGRAM_FAIL, v.rest);
        ConsumesTransitive(s, v.rest, c.rest);
        ProgramOutcome(head, c)
  }

  /** How a page program ends once its transaction `head` is closed and the wait
      `c` is over. Unlike the erases, success jumps to `done:` with no extra Stop. */
  function ProgramOutcome(head: seq<Event>, c: Run<Completion>): (r: Run<Code>)
    ensures r.rest == c.rest
    ensures BusOnly(head) && BusOnly(c.trace) ==> BusOnly(r.trace)
  {
    match c.value
    case PollFailed => Run(Fail(TransportError), head + c.trace, c.rest)
    case FlagUnread => Run(Ok, head + c.trace, c.rest)
    case FlagSet(_) => Run(Fail(ChipError(PROGRAM_FAILED)), head + c.trace, c.rest)
    case FlagClear(_) => Run(Ok, head + c.trace, c.rest)
  }
}
