/**
 The flashing steps of the loader: `erase_flash`, `program_flash` and
 `validate_flash`, written over the driver calls of module N25Q128A.

 Each step threads the bridge script through the driver calls and
 concatenates their traces, so that the properties of a whole step can be
 stated on its trace. Where the source dereferences a NULL or uninitialised
 pointer, the step ends in `Undefined` instead of returning a code.
 */
module SaturnLoader {
  import opened Transport
  import opened N25Q128A

  /** The erase loop runs while `sector < SECTORS - 1`: sector 255 is never scanned. */
  const SCANNED_SECTORS: nat := SECTORS - 1

  /** The blank check runs while `i < BYTES_PER_SECTOR - 1`: the last byte of a
      sector is never compared. */
  const CHECKED_BYTES: nat := BYTES_PER_SECTOR - 1

  const ERASED: byte := 0xff

  /** The result of a step that either returns or reaches undefined behaviour. */
  datatype Step<+T> = Returned(value: T) | Undefined

  // ---------------------------------------------------------------------
  // erase_flash

  /** The bytes the erase loop compares are all 0xff. */
  predicate Blank(d: seq<byte>)
    requires |d| == BYTES_PER_SECTOR
  {
    forall i :: 0 <= i < CHECKED_BYTES ==> d[i] == ERASED
  }

  /** The inner loop of `erase_flash`: `matched` stays 1 until a byte other than
      0xff is found among the compared bytes. */
  method CompareSector(d: seq<byte>) returns (matched: bool)
    requires |d| == BYTES_PER_SECTOR
    ensures matched <==> Blank(d)
  {
    matched := true;
    var i := 0;
    while i < CHECKED_BYTES
      invariant 0 <= i <= CHECKED_BYTES
      invariant forall j :: 0 <= j < i ==> d[j] == ERASED
    {
      if d[i] != ERASED {
        matched := false;
        return;
      }
      i := i + 1;
    }
  }

  /** The body of the erase loop for a sector found not blank: write enable, sector
      erase, write disable. A failed write enable returns at once; a failed erase
      still attempts the write disable, ignores its result and returns the erase's
      code; otherwise the code is the write disable's. */
  function EraseSector(sector: nat, s: seq<Reply>): (r: Run<Code>)
    requires sector < SECTORS
    ensures Consumes(s, r.rest)
    ensures BusOnly(r.trace)
  {
    var we := WriteEnable(s);
    if we.value != Ok then we
    else
      var se := SectorErase(sector, we.rest);
      var wd := WriteDisable(se.rest);
      ConsumesTransitive(s, we.rest, se.rest);
      ConsumesTransitive(s, se.rest, wd.rest);
      BusOnlyConcat(we.trace, se.trace);
      BusOnlyConcat(we.trace + se.trace, wd.trace);
      Run(if se.value != Ok then se.value else wd.value, we.trace + se.trace + wd.trace, wd.rest)
  }

  /** The erase loop from `sector` on. Each pass reads the whole sector; a failed
      read command returns its code, a NULL buffer is dereferenced (the driver
      does not report a failed payload read), a blank sector ends the loop with
      OK, and a sector that is not blank is erased. */
  function EraseFrom(sector: nat, s: seq<Reply>): (r: Run<Step<Code>>)
    requires sector < SCANNED_SECTORS
    ensures Consumes(s, r.rest)
    ensures BusOnly(r.trace)
    decreases SCANNED_SECTORS - sector, 1
  {
    var rd := ReadData(sector * BYTES_PER_SECTOR, BYTES_PER_SECTOR, s);
    if rd.value.code != Ok then Run(Returned(rd.value.code), rd.trace, rd.rest)
    else if !rd.value.buffer.Bytes? then Run(Undefined, rd.trace, rd.rest)
    else if Blank(rd.value.buffer.data) then Run(Returned(Ok), rd.trace, rd.rest)
    else
      var e := EraseSector(sector, rd.rest);
      var more := EraseNext(sector, e);
      ConsumesTransitive(s, rd.rest, e.rest);
      ConsumesTransitive(s, e.rest, more.rest);
      BusOnlyConcat(rd.trace, more.trace);
      Run(more.value, rd.trace + more.trace, more.rest)
  }

  /** The rest of a pass once the erase of `sector` ran as `e`: its failure ends
      the loop, and so does the end of the scanned sectors; otherwise the loop goes
      on with the next sector. */
  function EraseNext(sector: nat, e: Run<Code>): (r: Run<Step<Code>>)
    requires sector < SCANNED_SECTORS && BusOnly(e.trace)
    ensures Consumes(e.rest, r.rest)
    ensures BusOnly(r.trace)
    decreases SCANNED_SECTORS - sector, 0
  {
    if e.value != Ok || sector + 1 == SCANNED_SECTORS then Run(Returned(e.value), e.trace, e.rest)
    else
      var more := EraseFrom(sector + 1, e.rest);
      BusOnlyConcat(e.trace, more.trace);
      Run(more.value, e.trace + more.trace, more.rest)
  }

  /** `erase_flash`. */
  function EraseFlash(s: seq<Reply>): (r: Run<Step<Code>>)
    ensures Consumes(s, r.rest)
    ensures BusOnly(r.trace)
  {
    EraseFrom(0, s)
  }

  // ---------------------------------------------------------------------
  // program_flash

  /** The image cut as `program_flash` sends it: `|data| / 256` full pages, then
      the remaining `|data| % 256` bytes when there are any. */
  function Pages(data: seq<byte>): (ps: seq<seq<byte>>)
    ensures forall i :: 0 <= i < |ps| ==> 0 < |ps[i]| <= BYTES_PER_PAGE
  {
    var full := |data| / BYTES_PER_PAGE;
    seq(full, i requires 0 <= i < full => data[BYTES_PER_PAGE * i .. BYTES_PER_PAGE * (i + 1)])
    + (if |data| % BYTES_PER_PAGE != 0 then [data[BYTES_PER_PAGE * full..]] else [])
  }

  /** One page of the program loop: write enable, then page program. Either failing
      attempts a write disable, ignores its result and returns the failing code;
      on success no write disable is sent. */
  function ProgramPage(page: nat, chunk: seq<byte>, s: seq<Reply>): (r: Run<Code>)
    requires page < USHORT_LIMIT && |chunk| <= BYTES_PER_PAGE
    ensures Consumes(s, r.rest)
    ensures BusOnly(r.trace)
  {
    var we := WriteEnable(s);
    if we.value != Ok then
      var wd := WriteDisable(we.rest);
      ConsumesTransitive(s, we.rest, wd.rest);
      BusOnlyConcat(we.trace, wd.trace);
      Run(we.value, we.trace + wd.trace, wd.rest)
    else
      var pp := PageProgram(page, chunk, we.rest);
      ConsumesTransitive(s, we.rest, pp.rest);
      BusOnlyConcat(we.trace, pp.trace);
      if pp.value != Ok then
        var wd := WriteDisable(pp.rest);
        ConsumesTransitive(s, pp.rest, wd.rest);
        BusOnlyConcat(we.trace + pp.trace, wd.trace);
        Run(pp.value, we.trace + pp.trace + wd.trace, wd.rest)
      else Run(Ok, we.trace + pp.trace, pp.rest)
  }

  /** The program loop from page number `first` on. The page number is an
      `unsigned int` passed to an `unsigned short` parameter, so the driver sees it
      modulo 65536. The first failing page ends the loop. */
  function ProgramFrom(chunks: seq<seq<byte>>, first: nat, s: seq<Reply>): (r: Run<Code>)
    requires forall i :: 0 <= i < |chunks| ==> |chunks[i]| <= BYTES_PER_PAGE
    ensures Consumes(s, r.rest)
    ensures BusOnly(r.trace)
    decreases |chunks|
  {
    if chunks == [] then Run(Ok, [], s)
    else
      var p := ProgramPage(first % USHORT_LIMIT, chunks[0], s);
      if p.value != Ok then p
      else
        var more := ProgramFrom(chunks[1..], first + 1, p.rest);
        ConsumesTransitive(s, p.rest, more.rest);
        BusOnlyConcat(p.trace, more.trace);
        Run(more.value, p.trace + more.trace, more.rest)
  }

  /** `program_flash`: every page, then one write disable whose code is returned. */
  function ProgramFlash(data: seq<byte>, s: seq<Reply>): (r: Run<Code>)
    requires |data| < UINT_LIMIT
    ensures Consumes(s, r.rest)
    ensures BusOnly(r.trace)
  {
    var all := ProgramFrom(Pages(data), 0, s);
    if all.value != Ok then all
    else
      var wd := WriteDisable(all.rest);
      ConsumesTransitive(s, all.rest, wd.rest);
      BusOnlyConcat(all.trace, wd.trace);
      Run(wd.value, all.trace + wd.trace, wd.rest)
  }

  // ---------------------------------------------------------------------
  // validate_flash

  /** What `validate_flash` returns, and what it leaves in `*matched`. */
  datatype Validation = Validation(code: Code, matched: bool)

  /** `validate_flash`: reads `|data|` bytes from address 0 and compares them. The
      read's code is ignored: when the command write failed, the uninitialised
      buffer pointer is tested; when the payload read failed, the pointer is NULL
      and the call fails with `matched` cleared. */
  function ValidateFlash(data: seq<byte>, s: seq<Reply>): (r: Run<Step<Validation>>)
    requires |data| < UINT_LIMIT
    ensures Consumes(s, r.rest)
    ensures BusOnly(r.trace)
  {
    var rd := ReadData(0, |data|, s);
    match rd.value.buffer
    case Unassigned => Run(Undefined, rd.trace, rd.rest)
    case Null => Run(Returned(Validation(Fail(TransportError), false)), rd.trace, rd.rest)
    case Bytes(d) => Run(Returned(Validation(Ok, d == data)), rd.trace, rd.rest)
  }
}
