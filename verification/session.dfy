/**
 The loader's sessions and its command line: the identity gate of
 `initialize_mpsse`, the PROGRAM_B pin, the cleanup paths of `erase_chip` and
 `flash`, and the option parsing and dispatch of `main`.

 Opening the device (the two `OpenIndex` probes), listing devices and loading
 the image file are foreign code; they enter the model as their results: whether
 exactly one device was opened, whether the FTDI context could be created, and
 the files that can be read.
 */
module Session {
  import opened Transport
  import opened N25Q128A
  import opened SaturnLoader

  /** How a run of the program ends: an exit status, or a crash at a
      dereferenced NULL or uninitialised pointer. */
  datatype Outcome = Exit(status: nat) | Crash

  const EXIT_SUCCESS: nat := 0
  const EXIT_FAILURE: nat := 1

  // ---------------------------------------------------------------------
  // Device and pin

  /** `initialize_mpsse` once the probes are over: `connected` says whether exactly one
      device is connected and was opened. The flash identity must read back with
      the expected manufacturer and device; otherwise the device is closed and no
      handle is returned. */
  function Initialize(connected: bool, s: seq<Reply>): (r: Run<bool>)
    ensures Consumes(s, r.rest)
  {
    if !connected then Run(false, [], s)
    else
      var id := Identify(s);
      if id.value.Some? && id.value.value.manufacturerId == MANUFACTURER_ID && id.value.value.deviceId == DEVICE_ID
      then Run(true, id.trace, id.rest)
      else Run(false, id.trace + [Close], id.rest)
  }

  /** `set_spartan_program_b`: 0 drives GPIOL3 high, anything else drives it low. */
  function SetProgramB(value: byte, s: seq<Reply>): (r: Run<Code>)
    ensures Consumes(s, r.rest)
    ensures r.trace == [if value == 0 then PinHigh(r.value == Ok) else PinLow(r.value == Ok)]
    ensures r.value == Ok <==> |s| > 0 && s[0].Ack?
    ensures r.value != Ok ==> r.value == Fail(TransportError)
  {
    var p := DrivePin(value == 0, s);
    Run(if p.value then Ok else Fail(TransportError), p.trace, p.rest)
  }

  // ---------------------------------------------------------------------
  // erase_chip

  /** The work of `erase_chip` while PROGRAM_B is held: write enable, bulk erase,
      write disable, stopping at the first failure. */
  function BulkEraseSteps(s: seq<Reply>): (r: Run<Code>)
    ensures Consumes(s, r.rest)
    ensures BusOnly(r.trace)
  {
    var we := WriteEnable(s);
    if we.value != Ok then we
    else
      var be := BulkErase(we.rest);
      ConsumesTransitive(s, we.rest, be.rest);
      BusOnlyConcat(we.trace, be.trace);
      if be.value != Ok then Run(be.value, we.trace + be.trace, be.rest)
      else
        var wd := WriteDisable(be.rest);
        ConsumesTransitive(s, be.rest, wd.rest);
        BusOnlyConcat(we.trace + be.trace, wd.trace);
        Run(wd.value, we.trace + be.trace + wd.trace, wd.rest)
  }

  /** `erase_chip`. Once the device is open: a failure to hold PROGRAM_B closes the
      device and exits 1; otherwise PROGRAM_B is released whatever the work did,
      the device is closed, and the exit status is 0 only if the work and the
      release both succeeded. */
  function EraseChip(connected: bool, s: seq<Reply>): (r: Run<Outcome>)
    ensures Consumes(s, r.rest)
  {
    var init := Initialize(connected, s);
    if !init.value then Run(Exit(EXIT_FAILURE), init.trace, init.rest)
    else
      var hold := SetProgramB(0, init.rest);
      ConsumesTransitive(s, init.rest, hold.rest);
      if hold.value != Ok then Run(Exit(EXIT_FAILURE), init.trace + hold.trace + [Close], hold.rest)
      else
        var work := BulkEraseSteps(hold.rest);
        var release := SetProgramB(1, work.rest);
        ConsumesTransitive(s, hold.rest, work.rest);
        ConsumesTransitive(s, work.rest, release.rest);
        var status := if work.value == Ok && release.value == Ok then EXIT_SUCCESS else EXIT_FAILURE;
        Run(Exit(status), init.trace + hold.trace + work.trace + release.trace + [Close], release.rest)
  }

  // ---------------------------------------------------------------------
  // flash

  /** The work of `flash` while PROGRAM_B is held: erase, program, and unless
      `skip` validate. `Returned(true)` means every step succeeded and the
      read-back matched. */
  function FlashSteps(data: seq<byte>, skip: bool, s: seq<Reply>): (r: Run<Step<bool>>)
    requires |data| < UINT_LIMIT
    ensures Consumes(s, r.rest)
    ensures BusOnly(r.trace)
  {
    var erase := EraseFlash(s);
    match erase.value
    case Undefined => Run(Undefined, erase.trace, erase.rest)
    case Returned(code) =>
      if code != Ok then Run(Returned(false), erase.trace, erase.rest)
      else
        var more := ProgramAndCheck(data, skip, erase.rest);
        ConsumesTransitive(s, erase.rest, more.rest);
        BusOnlyConcat(erase.trace, more.trace);
        Run(more.value, erase.trace + more.trace, more.rest)
  }

  /** The steps of `flash` after a successful erase: program, then validate unless
      `skip` or the program failed. */
  function ProgramAndCheck(data: seq<byte>, skip: bool, s: seq<Reply>): (r: Run<Step<bool>>)
    requires |data| < UINT_LIMIT
    ensures Consumes(s, r.rest)
    ensures BusOnly(r.trace)
  {
    var program := ProgramFlash(data, s);
    if program.value != Ok || skip then Run(Returned(program.value == Ok), program.trace, program.rest)
    else
      var check := ValidateFlash(data, program.rest);
      ConsumesTransitive(s, program.rest, check.rest);
      BusOnlyConcat(program.trace, check.trace);
      Run(Verdict(check.value), program.trace + check.trace, check.rest)
  }

  /** A validation passes when it returned OK with `matched` set. */
  function Verdict(v: Step<Validation>): Step<bool> {
    match v
    case Undefined => Undefined
    case Returned(x) => Returned(x.code == Ok && x.matched)
  }

  /** `flash`. `image` is the file's contents, or None when it cannot be opened,
      allocated or read in full. An empty image or one larger than the chip exits 1
      before the device is touched. Once PROGRAM_B is held, every path that
      returns releases it and closes the device; only undefined behaviour skips
      both. */
  function Flash(image: Option<seq<byte>>, skip: bool, connected: bool, s: seq<Reply>): (r: Run<Outcome>)
    ensures Consumes(s, r.rest)
  {
    match image
    case None => Run(Exit(EXIT_FAILURE), [], s)
    case Some(data) =>
      if |data| == 0 || |data| > TOTAL_BYTES then Run(Exit(EXIT_FAILURE), [], s)
      else
        var init := Initialize(connected, s);
        if !init.value then Run(Exit(EXIT_FAILURE), init.trace, init.rest)
        else
          var hold := SetProgramB(0, init.rest);
          ConsumesTransitive(s, init.rest, hold.rest);
          if hold.value != Ok then Run(Exit(EXIT_FAILURE), init.trace + hold.trace + [Close], hold.rest)
          else
            var work := FlashSteps(data, skip, hold.rest);
            ConsumesTransitive(s, hold.rest, work.rest);
            match work.value
            case Undefined => Run(Crash, init.trace + hold.trace + work.trace, work.rest)
            case Returned(good) =>
              var release := SetProgramB(1, work.rest);
              ConsumesTransitive(s, work.rest, release.rest);
              var status := if good && release.value == Ok then EXIT_SUCCESS else EXIT_FAILURE;
              Run(Exit(status), init.trace + hold.trace + work.trace + release.trace + [Close], release.rest)
  }

  // ---------------------------------------------------------------------
  // main

  const OPTIONS_SKIP_VALIDATION: bv8 := 0x10
  const OPTIONS_LIST_DEVICES: bv8 := 0x08
  const OPTIONS_ERASE_CHIP: bv8 := 0x04
  const OPTIONS_HELP: bv8 := 0x02
  const OPTIONS_VERSION: bv8 := 0x01

  /** What `main` goes on to do. */
  datatype Action =
    | ShowUsage
    | ListDevices
    | EraseAll
    | ShowVersion
    | FlashImage(file: string, skip: bool)

  /** A command-line argument is a C string: it holds no NUL. */
  predicate CString(a: string) {
    forall i :: 0 <= i < |a| ==> a[i] != '\0'
  }

  /** `a[i]` of a C string, reading its terminating NUL past the end. */
  function CharAt(a: string, i: nat): char {
    if i < |a| then a[i] else '\0'
  }

  /** The flag of a two-character option, or 0 for a letter no option uses. */
  function OptionFlag(letter: char): bv8 {
    match letter
    case 's' => OPTIONS_SKIP_VALIDATION
    case 'l' => OPTIONS_LIST_DEVICES
    case 'e' => OPTIONS_ERASE_CHIP
    case 'h' => OPTIONS_HELP
    case 'v' => OPTIONS_VERSION
    case _ => 0
  }

  /** `main`: `args` are `argv[1..argc)`. Fewer than one argument is a usage error. */
  function Parse(args: seq<string>): (a: Action)
    requires forall i :: 0 <= i < |args| ==> CString(args[i])
  {
    if |args| == 0 then ShowUsage else ParseFrom(args, None, 0)
  }

  /** The argument loop of `main` with the file name and options seen so far. An
      argument not starting with '-' is the file name, and a second one is a usage
      error; a dash argument is a usage error once an option was seen or when it is
      longer than two characters, and otherwise sets its option (options is still
      0 here, so `|=` sets it to the flag). */
  function ParseFrom(args: seq<string>, file: Option<string>, options: bv8): (a: Action)
    requires forall i :: 0 <= i < |args| ==> CString(args[i])
    requires |args| > 0 || file.Some? || options != 0
    requires Seen(options)
    decreases |args|
  {
    if args == [] then Dispatch(file, options)
    else
      var arg := args[0];
      if CharAt(arg, 0) != '-' then
        if file.None? then ParseFrom(args[1..], Some(arg), options) else ShowUsage
      else if options != 0 || |arg| > 2 then ShowUsage
      else
        var flag := OptionFlag(CharAt(arg, 1));
        if flag == 0 then ShowUsage else ParseFrom(args[1..], file, flag)
  }

  /** A value the argument loop can leave in `options`: none, or the flag of
      the one option it accepted. */
  predicate Seen(options: bv8) {
    options == 0 || options == OPTIONS_SKIP_VALIDATION || options == OPTIONS_LIST_DEVICES
    || options == OPTIONS_ERASE_CHIP || options == OPTIONS_HELP || options == OPTIONS_VERSION
  }

  /** The checks after the loop and the `switch (options)` of `main`. The default
      case flashes the named file: no file and no option never reach here, `-s`
      without a file is refused by the first check, and every other option has a
      case of its own, so the default case always has a file name. */
  function Dispatch(file: Option<string>, options: bv8): (a: Action)
    requires file.Some? || options != 0
    requires Seen(options)
    ensures a.FlashImage? ==> file == Some(a.file)
  {
    if file.None? && options & OPTIONS_SKIP_VALIDATION != 0 then ShowUsage
    else if file.Some? && options & !OPTIONS_SKIP_VALIDATION != 0 then ShowUsage
    else if options == OPTIONS_LIST_DEVICES then ListDevices
    else if options == OPTIONS_ERASE_CHIP then EraseAll
    else if options == OPTIONS_HELP then ShowUsage
    else if options == OPTIONS_VERSION then ShowVersion
    else FlashImage(file.value, options & OPTIONS_SKIP_VALIDATION != 0)
  }

  /** What the program can observe outside the bridge: whether an FTDI context can
      be created (for `-l`), the files that can be read in full, and whether
      exactly one device is connected and opens. */
  datatype Environment = Environment(ftdiAvailable: bool, files: map<string, seq<byte>>, connected: bool)

  /** `main` from argument parsing to the exit status. `usage` always exits 1, the
      version banner exits 0, listing devices exits 1 only when no FTDI context can
      be created. */
  function Main(args: seq<string>, env: Environment, s: seq<Reply>): (r: Run<Outcome>)
    requires forall i :: 0 <= i < |args| ==> CString(args[i])
    ensures Consumes(s, r.rest)
  {
    match Parse(args)
    case ShowUsage => Run(Exit(EXIT_FAILURE), [], s)
    case ListDevices => Run(Exit(if env.ftdiAvailable then EXIT_SUCCESS else EXIT_FAILURE), [], s)
    case EraseAll => EraseChip(env.connected, s)
    case ShowVersion => Run(Exit(EXIT_SUCCESS), [], s)
    case FlashImage(file, skip) =>
      Flash(if file in env.files then Some(env.files[file]) else None, skip, env.connected, s)
  }
}
