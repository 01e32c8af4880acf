/** What the DFU class boot loader does with one USB control request, as a
    function on its state (Bootloaders/DFU/BootloaderDFU.c). */
module DfuSpec {
  import opened Bytes
  import opened FlashMemory
  import opened UsbEndpoint

  const DFU_REQ_DNLOAD: byte := 1
  const DFU_REQ_UPLOAD: byte := 2
  const DFU_REQ_GETSTATUS: byte := 3
  const DFU_REQ_CLRSTATUS: byte := 4
  const DFU_REQ_GETSTATE: byte := 5
  const DFU_REQ_ABORT: byte := 6

  const COMMAND_PROG_START: byte := 1
  const COMMAND_DISP_DATA: byte := 3
  const COMMAND_WRITE: byte := 4
  const COMMAND_READ: byte := 5
  const COMMAND_CHANGE_BASE_ADDR: byte := 6

  const DFU_FILLER_BYTES_SIZE: byte := 26
  const DFU_FILE_SUFFIX_SIZE: byte := 16

  const BOOTLOADER_INFO: seq<byte> := [0x20, 0xDC, 0xFB]

  datatype State =
    | AppIdle | AppDetach | DfuIdle | DfuDnloadSync | DfuDnBusy | DfuDnloadIdle
    | DfuManifestSync | DfuManifest | DfuManifestWaitReset | DfuUploadIdle | DfuError

  function StateCode(s: State): byte {
    match s
    case AppIdle => 0
    case AppDetach => 1
    case DfuIdle => 2
    case DfuDnloadSync => 3
    case DfuDnBusy => 4
    case DfuDnloadIdle => 5
    case DfuManifestSync => 6
    case DfuManifest => 7
    case DfuManifestWaitReset => 8
    case DfuUploadIdle => 9
    case DfuError => 10
  }

  datatype Status = StatusOK | ErrWrite | ErrCheckErased

  function StatusCode(s: Status): byte {
    match s
    case StatusOK => 0
    case ErrWrite => 3
    case ErrCheckErased => 5
  }

  type Params = s: seq<byte> | |s| == 5 witness [0, 0, 0, 0, 0]
  type Eeprom = s: seq<byte> | |s| > 0 witness [0]

  datatype Command = Command(code: byte, data: Params, size: word)

  /** What is fixed for a part and a build: the boot section, the control
      endpoint size, the signature, and the bytes that lie beside the two
      three-byte tables in memory (an index outside them is not checked). */
  datatype Part = Part(bootStart: nat, epSize: nat, signature: seq<byte>, stray: int -> byte)

  datatype Dfu = Dfu(
    state: State, status: Status, isSecure: bool, runBootloader: bool, waitForExit: bool,
    cmd: Command, response: byte, appStart: word, flash64KBPage: byte,
    startAddr: word, endAddr: word, watchdog: bool, flash: Flash, eeprom: Eeprom)

  /** A control request. `packets` is its OUT data stage; `ready` says how often
      the IN bank becomes free before the device is detached. */
  datatype Request = Request(forInterface: bool, bRequest: byte, wLength: word,
                             packets: seq<seq<byte>>, ready: nat)

  datatype Response = Response(stalled: bool, packets: seq<seq<byte>>)

  datatype Effect = Effect(d: Dfu, response: Response)

  const Silent := Response(false, [])

  function Initial(secureMode: bool, flash: Flash, eeprom: Eeprom): Dfu {
    Dfu(DfuIdle, StatusOK, secureMode, true, false, Command(0, [0, 0, 0, 0, 0], 0), 0, 0, 0,
        0, 0, false, flash, eeprom)
  }

  /** The condition of the main loop. */
  predicate Running(d: Dfu) {
    d.runBootloader || d.waitForExit
  }

  /** Flash64KBPage:StartAddr. */
  function FlashAddress(d: Dfu): nat {
    d.startAddr + 0x1_0000 * d.flash64KBPage
  }

  /** (EndAddr - StartAddr) + 1 in sixteen bits. */
  function ByteCount(start: word, end: word): word {
    Add16(Sub16(end, start), 1)
  }

  /** The bytes of the whole words in that range. */
  function WordByteCount(start: word, end: word): (n: nat)
    ensures Mod(n, 2) == 0
  {
    ModBase(ByteCount(start, end), 2);
    ByteCount(start, end) - Mod(ByteCount(start, end), 2)
  }

  // ---- Commands carried by a DNLOAD request ----

  /** The command byte and as many of its five parameters as the packet holds. */
  function LoadCommand(c: Command, s: OutStream): Command {
    var k := ParamsInBank(s);
    Command(ReadUnit(s, 1)[0], (if k == 0 then [] else s.bank[1..1 + k]) + c.data[k..],
            Sub16(c.size, 1 + k))
  }

  function ParamsInBank(s: OutStream): (k: nat)
    ensures k <= 5 && (k > 0 ==> 1 + k <= |s.bank|)
  {
    if |s.bank| <= 1 then 0 else if |s.bank| <= 6 then |s.bank| - 1 else 5
  }

  function LoadStartEndAddresses(d: Dfu): Dfu {
    d.(startAddr := Word(d.cmd.data[1], d.cmd.data[2]), endAddr := Word(d.cmd.data[3], d.cmd.data[4]))
  }

  function ProcessMemProgCommand(d: Dfu): Dfu {
    if d.cmd.data[0] == 0 then
      var e := LoadStartEndAddresses(d);
      e.(flash := Erase(e.flash, FlashAddress(e)), state := DfuDnloadIdle)
    else if d.cmd.data[0] == 1 then
      LoadStartEndAddresses(d).(state := DfuDnloadIdle)
    else d
  }

  /** The least address from a on, below limit, that is not erased; limit if there is none. */
  function FirstDirty(f: Flash, a: nat, limit: nat): (r: nat)
    ensures a <= limit ==> a <= r <= limit
    ensures r < limit ==> ReadByte(f, r) != 0xFF
    ensures forall i :: a <= i < r ==> ReadByte(f, i) == 0xFF
    decreases limit - a
  {
    if a >= limit then a else if ReadByte(f, a) != 0xFF then a else FirstDirty(f, a + 1, limit)
  }

  function BlankCheck(part: Part, d: Dfu): Dfu {
    var a := FirstDirty(d.flash, 0, part.bootStart);
    if a < part.bootStart then
      d.(flash64KBPage := (a / 0x1_0000) % 0x100, startAddr := a % 0x1_0000,
         state := DfuError, status := ErrCheckErased)
    else d
  }

  function ProcessMemReadCommand(part: Part, d: Dfu): Dfu {
    if d.cmd.data[0] == 0 || d.cmd.data[0] == 2 then
      LoadStartEndAddresses(d).(state := DfuUploadIdle)
    else if d.cmd.data[0] == 1 then BlankCheck(part, d)
    else d
  }

  predicate IsStartApplication(c: Command) {
    c.code == COMMAND_WRITE && c.data[0] == 3
  }

  predicate IsErase(c: Command) {
    c.code == COMMAND_WRITE && c.data[0] == 0 && c.data[1] == 0xFF
  }

  function ProcessWriteCommand(part: Part, d: Dfu): Dfu {
    if d.cmd.data[0] == 3 then
      var e := d.(waitForExit := true);
      if d.cmd.size != 0 then
        if d.cmd.data[1] == 1 then e.(appStart := Word(d.cmd.data[3], d.cmd.data[4])) else e
      else if d.cmd.data[1] == 0 then e.(watchdog := true)
      else e.(runBootloader := false)
    else if d.cmd.data[0] == 0 && d.cmd.data[1] == 0xFF then
      d.(flash := RwwEnable(EraseFrom(d.flash, 0, part.bootStart)), isSecure := false)
    else d
  }

  /** Table lookup; outside the table it is whatever lies there. */
  function Lookup(part: Part, table: seq<byte>, i: int): byte {
    if 0 <= i < |table| then table[i] else part.stray(i)
  }

  function ProcessReadCommand(part: Part, d: Dfu): Dfu {
    if d.cmd.data[0] == 0 then d.(response := Lookup(part, BOOTLOADER_INFO, d.cmd.data[1]))
    else if d.cmd.data[0] == 1 then
      var i: int := d.cmd.data[1];
      d.(response := Lookup(part, part.signature, i - 0x30))
    else d
  }

  predicate Refused(d: Dfu) {
    d.isSecure && !IsErase(d.cmd) && d.cmd.code != COMMAND_READ
  }

  function ProcessBootloaderCommand(part: Part, d: Dfu): Dfu {
    if Refused(d) then d.(state := DfuError, status := ErrWrite)
    else if d.cmd.code == COMMAND_PROG_START then ProcessMemProgCommand(d)
    else if d.cmd.code == COMMAND_DISP_DATA then ProcessMemReadCommand(part, d)
    else if d.cmd.code == COMMAND_WRITE then ProcessWriteCommand(part, d)
    else if d.cmd.code == COMMAND_READ then ProcessReadCommand(part, d)
    else if d.cmd.code == COMMAND_CHANGE_BASE_ADDR && d.cmd.data[0] == 3 && d.cmd.data[1] == 0 then
      d.(flash64KBPage := d.cmd.data[2])
    else d
  }

  // ---- The data stage of a download ----

  /** One loop turn per byte to discard; a turn that finds the bank empty only
      fetches the next packet, so fewer than n bytes may go. */
  function Discard(s: OutStream, n: nat): OutStream
    decreases n
  {
    if n == 0 then s
    else if s.bank != [] then Discard(s.(bank := s.bank[1..]), n - 1)
    else if s.rest == [] then s
    else Discard(NextBank(s), n - 1)
  }

  /** The programming loop, on the bytes it gets (`data`) out of the m it wants.
      `a` is the next word address, `ps` the start of the current page, `k` the
      bytes already in the page (twice an eight-bit count of words). */
  function ProgramWords(f: Flash, a: nat, ps: nat, k: nat, m: nat, data: seq<byte>): (r: Flash)
    requires Mod(|data|, 2) == 0 && |data| <= m
    ensures |r.mem| == |f.mem| && |r.buf| == |f.buf|
    decreases |data|
  {
    if data == [] then f
    else
      var g := Fill(f, a, data[0], data[1]);
      var k' := if k + 2 == 0x200 then 0 else k + 2;
      if m == 2 then WritePage(g, ps)
      else if k' == |f.buf| then
        ProgramWords(Erase(WritePage(g, ps), a + 2), a + 2, a + 2, 0, m - 2, data[2..])
      else ProgramWords(g, a + 2, ps, k', m - 2, data[2..])
  }

  function EepromWrite(e: Eeprom, a: word, data: seq<byte>): (r: Eeprom)
    ensures |r| == |e|
    decreases |data|
  {
    if data == [] then e
    else EepromWrite(e[Mod(a, |e|) := data[0]], Add16(a, 1), data[1..])
  }

  datatype Received = Received(flash: Flash, complete: bool)

  /** Programs n bytes from the stream at address a. */
  function ReceiveFlash(f: Flash, a: nat, n: nat, s: OutStream): Received
    requires Mod(n, 2) == 0
  {
    var t := Take(s, n, 2);
    Received(ProgramWords(f, a, a, 0, n, t.data), t.complete)
  }

  /** Receives the firmware; a detached device stops where it is. */
  function Download(part: Part, d: Dfu, s: OutStream): Dfu
    requires part.epSize > 0
  {
    var s1 := Discard(s, DFU_FILLER_BYTES_SIZE);
    var s2 := Discard(s1, Mod(d.startAddr, part.epSize));
    if d.cmd.data[0] == 0 then
      var q := ReceiveFlash(d.flash, FlashAddress(d), WordByteCount(d.startAddr, d.endAddr), s2);
      if q.complete then d.(flash := RwwEnable(q.flash), startAddr := d.endAddr) else d.(flash := q.flash)
    else
      ModOne(ByteCount(d.startAddr, d.endAddr));
      var t := Take(s2, ByteCount(d.startAddr, d.endAddr), 1);
      d.(eeprom := EepromWrite(d.eeprom, d.startAddr, t.data),
         startAddr := Add16(d.startAddr, |t.data|))
  }

  /** A device that waits to exit processes its last command once more. */
  function ProcessPending(part: Part, d: Dfu): Dfu {
    if d.waitForExit then ProcessBootloaderCommand(part, d).(waitForExit := false) else d
  }

  /** The data stage: a command, and for a download the firmware behind it. */
  function ReceiveData(part: Part, d: Dfu, s: OutStream): Dfu
    requires part.epSize > 0
  {
    var e := ProcessBootloaderCommand(part, d.(cmd := LoadCommand(d.cmd, s)));
    if e.state != DfuDnloadIdle then e
    else if e.cmd.size == 0 then e.(state := DfuIdle)
    else Download(part, e, AfterUnit(s, 1 + ParamsInBank(s)))
  }

  function Dnload(part: Part, d: Dfu, packets: seq<seq<byte>>): Effect
    requires part.epSize > 0
  {
    var stalled := d.waitForExit && Refused(d);
    var e := ProcessPending(part, d);
    if e.cmd.size == 0 then
      Effect(if e.state == DfuDnloadIdle then e.(state := DfuIdle) else e, Response(stalled, []))
    else if packets == [] then Effect(e, Response(stalled, []))
    else
      var s := OutStream(packets[0], packets[1..]);
      Effect(ReceiveData(part, e, s),
             Response(stalled || Refused(e.(cmd := LoadCommand(e.cmd, s))), []))
  }

  // ---- Uploads ----

  datatype Sending = Sending(packets: seq<seq<byte>>, bank: seq<byte>, taken: nat, complete: bool)

  /** Writes `data` in units of k to the IN bank; a bank that is full before a
      unit is sent and must become free again. */
  function Send(data: seq<byte>, k: nat, ep: nat, bank: seq<byte>, ready: nat): (r: Sending)
    requires k > 0 && Mod(|data|, k) == 0
    ensures r.taken <= |data| && (r.complete ==> r.taken == |data|)
    decreases |data|
  {
    if data == [] then Sending([], bank, 0, true)
    else
      if |bank| == ep then
        if ready == 0 then Sending([bank], [], 0, false)
        else
          var r := Send(data[k..], k, ep, data[..k], ready - 1);
          Sending([bank] + r.packets, r.bank, k + r.taken, r.complete)
      else
        var r := Send(data[k..], k, ep, bank + data[..k], ready);
        Sending(r.packets, r.bank, k + r.taken, r.complete)
  }

  function FlashSlice(f: Flash, a: nat, n: nat): (r: seq<byte>)
    ensures |r| == n
  {
    seq<byte>(n, i requires 0 <= i < n => ReadByte(f, a + i))
  }

  function EepromSlice(e: Eeprom, a: word, n: word): (r: seq<byte>)
    ensures |r| == n
  {
    seq(n, i requires 0 <= i < n => e[Mod(Add16(a, i), |e|)])
  }

  function Upload(part: Part, d: Dfu, ready: nat): Effect {
    if ready == 0 then Effect(d, Silent)
    else if d.state != DfuUploadIdle then
      if d.state == DfuError && d.cmd.data[0] == 1 then
        Effect(d, Response(false, [[d.startAddr % 0x100, d.startAddr / 0x100]]))
      else Effect(d, Response(false, [[d.response]]))
    else if d.cmd.data[0] == 0 then
      var n := WordByteCount(d.startAddr, d.endAddr);
      var r := Send(FlashSlice(d.flash, FlashAddress(d), n), 2, part.epSize, [], ready - 1);
      if r.complete then
        Effect(d.(startAddr := d.endAddr, state := DfuIdle), Response(false, r.packets + [r.bank]))
      else Effect(d, Response(false, r.packets))
    else if d.cmd.data[0] == 2 then
      ModOne(ByteCount(d.startAddr, d.endAddr));
      var r := Send(EepromSlice(d.eeprom, d.startAddr, ByteCount(d.startAddr, d.endAddr)), 1, part.epSize, [], ready - 1);
      var e := d.(startAddr := Add16(d.startAddr, r.taken));
      if r.complete then Effect(e.(state := DfuIdle), Response(false, r.packets + [r.bank]))
      else Effect(e, Response(false, r.packets))
    else Effect(d.(state := DfuIdle), Response(false, [[]]))
  }

  // ---- Requests and runs ----

  function Step(part: Part, d0: Dfu, r: Request): Effect
    requires part.epSize > 0
  {
    if !r.forInterface then Effect(d0, Silent)
    else
      var d := d0.(cmd := d0.cmd.(size := r.wLength));
      if r.bRequest == DFU_REQ_DNLOAD then Dnload(part, d, r.packets)
      else if r.bRequest == DFU_REQ_UPLOAD then Upload(part, d, r.ready)
      else if r.bRequest == DFU_REQ_GETSTATUS then
        Effect(d, Response(false, [[StatusCode(d.status), 0, 0, 0, StateCode(d.state), 0]]))
      else if r.bRequest == DFU_REQ_CLRSTATUS then Effect(d.(status := StatusOK), Silent)
      else if r.bRequest == DFU_REQ_GETSTATE then Effect(d, Response(false, [[StateCode(d.state)]]))
      else if r.bRequest == DFU_REQ_ABORT then Effect(d.(state := DfuIdle), Silent)
      else Effect(d, Silent)
  }

  /** The state after a sequence of requests; none is served once the main loop has ended. */
  function After(part: Part, d: Dfu, reqs: seq<Request>): Dfu
    requires part.epSize > 0
  {
    if reqs == [] then d
    else
      var p := After(part, d, reqs[..|reqs| - 1]);
      if Running(p) then Step(part, p, reqs[|reqs| - 1]).d else p
  }

  /** Everything the host sees during a sequence of requests. */
  function Observed(part: Part, d: Dfu, reqs: seq<Request>): seq<Response>
    requires part.epSize > 0
  {
    if reqs == [] then []
    else
      var p := After(part, d, reqs[..|reqs| - 1]);
      Observed(part, d, reqs[..|reqs| - 1])
      + if Running(p) then [Step(part, p, reqs[|reqs| - 1]).response] else []
  }
}
