/** What the host learns from the DFU boot loader, over two or three requests.
    Requests and commands are given by their numbers: UPLOAD is 2, GETSTATUS 3,
    CLRSTATUS 4 and ABORT 6; DISP_DATA is 3, WRITE 4, READ 5 and CHANGE_BASE_ADDR
    6. */
module DfuQueries {
  import opened Bytes
  import opened FlashMemory
  import opened UsbEndpoint
  import opened DfuSpec
  import opened DfuMemory
  import DfuRuns

  /** A DNLOAD request whose one packet is a command with its parameters. */
  predicate CarriesCommand(r: Request, code: byte, params: seq<byte>) {
    && IsRequest(r, 1) && r.wLength > 0 && 0 < |params| <= 5
    && |r.packets| == 1 && r.packets[0] == [code] + params
  }

  predicate IsRequest(r: Request, bRequest: byte) {
    r.forInterface && r.bRequest == bRequest
  }

  /** The command register after such a request. */
  lemma CommandLoads(c: Command, r: Request, code: byte, params: seq<byte>)
    requires CarriesCommand(r, code, params)
    ensures var d := LoadCommand(c, OutStream(r.packets[0], r.packets[1..]));
            && d.code == code && d.data == params + c.data[|params|..]
            && d.size == Sub16(c.size, 1 + |params|)
  {
    assert r.packets[0][1..1 + |params|] == params;
  }

  /** READ and then UPLOAD returns the byte that was asked for, of the boot loader
      information (0) or, from 0x30 on, of the signature (1), in secure mode as well;
      but in dfuERROR a READ of the signature is taken for a blank check, and UPLOAD
      returns the start address. */
  lemma ReadThenUpload(part: Part, d: Dfu, r: Request, up: Request, table: byte, i: byte)
    requires part.epSize > 0 && !d.waitForExit && d.state in {DfuIdle, DfuError} && table <= 1
    requires i < if table == 0 then 3 else |part.signature|
    requires i + 0x30 * table < 0x100 && CarriesCommand(r, 5, [table, i + 0x30 * table])
    requires IsRequest(up, 2) && up.ready > 0
    ensures Step(part, Step(part, d, r).d, up).response
         == Response(false, [if d.state == DfuError && table == 1 then [d.startAddr % 0x100, d.startAddr / 0x100]
                             else if table == 0 then [[0x20, 0xDC, 0xFB][i]]
                             else [part.signature[i]]])
  {
    hide Step, LoadCommand;
    ReadStep(part, d, r, table, i);
    ResponseStep(part, Step(part, d, r).d, up);
  }

  lemma ReadStep(part: Part, d: Dfu, r: Request, table: byte, i: byte)
    requires part.epSize > 0 && !d.waitForExit && d.state in {DfuIdle, DfuError} && table <= 1
    requires i < if table == 0 then 3 else |part.signature|
    requires i + 0x30 * table < 0x100 && CarriesCommand(r, 5, [table, i + 0x30 * table])
    ensures var e := Step(part, d, r).d;
            && e.state == d.state && e.startAddr == d.startAddr && e.cmd.data[0] == table
            && e.response == if table == 0 then [0x20, 0xDC, 0xFB][i] else part.signature[i]
  {
    hide Send, Take, Download, LoadCommand, EraseFrom, ProcessMemProgCommand, ProcessMemReadCommand, ProcessWriteCommand;
    CommandLoads(d.cmd.(size := r.wLength), r, 5, [table, i + 0x30 * table]);
  }

  lemma ResponseStep(part: Part, d: Dfu, up: Request)
    requires part.epSize > 0 && IsRequest(up, 2) && up.ready > 0 && d.state != DfuUploadIdle
    ensures Step(part, d, up).response
         == Response(false, [if d.state == DfuError && d.cmd.data[0] == 1 then [d.startAddr % 0x100, d.startAddr / 0x100]
                             else [d.response]])
  {
    hide Send, Dnload;
  }

  /** In secure mode any command but READ and chip erase is refused: the request is
      stalled, and the next GETSTATUS reports errWRITE and dfuERROR. CLRSTATUS
      clears the status only; a device in dfuERROR leaves it by ABORT. */
  lemma RefusalIsReported(part: Part, d: Dfu, r: Request, get: Request, clear: Request, abort: Request,
                          code: byte, params: seq<byte>)
    requires part.epSize > 0 && d.isSecure && !d.waitForExit
    requires CarriesCommand(r, code, params) && IsRequest(get, 3)
    requires IsRequest(clear, 4) && IsRequest(abort, 6)
    requires code != 5
    requires var data := params + d.cmd.data[|params|..]; !(code == 4 && data[0] == 0 && data[1] == 0xFF)
    ensures Step(part, d, r).response.stalled
    ensures var e := Step(part, d, r).d;
            var cleared := Step(part, e, clear).d;
            && Step(part, e, get).response == Response(false, [[3, 0, 0, 0, 10, 0]])
            && Step(part, cleared, get).response == Response(false, [[0, 0, 0, 0, 10, 0]])
            && Step(part, Step(part, cleared, abort).d, get).response == Response(false, [[0, 0, 0, 0, 2, 0]])
  {
    hide Step, Send, Take, Download, LoadCommand, EraseFrom;
    RefusedStep(part, d, r, code, params);
    var e := Step(part, d, r).d;
    Recovers(part, e, get, clear, abort);
  }

  lemma RefusedStep(part: Part, d: Dfu, r: Request, code: byte, params: seq<byte>)
    requires part.epSize > 0 && d.isSecure && !d.waitForExit && CarriesCommand(r, code, params)
    requires code != 5
    requires var data := params + d.cmd.data[|params|..]; !(code == 4 && data[0] == 0 && data[1] == 0xFF)
    ensures var u := Step(part, d, r); u.response.stalled && u.d.state == DfuError && u.d.status == ErrWrite
  {
    hide Send, Take, Download, LoadCommand, EraseFrom;
    CommandLoads(d.cmd.(size := r.wLength), r, code, params);
  }

  lemma Recovers(part: Part, d: Dfu, get: Request, clear: Request, abort: Request)
    requires part.epSize > 0 && IsRequest(clear, 4) && IsRequest(abort, 6)
    requires IsRequest(get, 3)
    ensures var cleared := Step(part, d, clear).d;
            && Step(part, d, get).response == Response(false, [[StatusCode(d.status), 0, 0, 0, StateCode(d.state), 0]])
            && Step(part, cleared, get).response == Response(false, [[0, 0, 0, 0, StateCode(d.state), 0]])
            && Step(part, Step(part, cleared, abort).d, get).response == Response(false, [[0, 0, 0, 0, 2, 0]])
  {
    hide Dnload, Upload;
  }

  /** Blank check of a flash that is not blank, and then UPLOAD: the host receives
      the low sixteen bits of the first address that is not erased. */
  lemma BlankCheckThenUpload(part: Part, d: Dfu, r: Request, up: Request)
    requires part.epSize > 0 && !d.waitForExit && !d.isSecure && part.bootStart <= 0x100_0000
    requires CarriesCommand(r, 3, [1]) && IsRequest(up, 2) && up.ready > 0
    requires !ApplicationBlank(part, d.flash)
    ensures var a := FirstDirty(d.flash, 0, part.bootStart);
            && a < part.bootStart && ReadByte(d.flash, a) != 0xFF
            && Step(part, Step(part, d, r).d, up).response
                 == Response(false, [[(a % 0x1_0000) % 0x100, (a % 0x1_0000) / 0x100]])
  {
    hide Send, Take, Download, LoadCommand, EraseFrom;
    var c := d.cmd.(size := r.wLength);
    CommandLoads(c, r, 3, [1]);
    BlankCheckExact(part, d);
  }

  /** Start application, and then a DNLOAD without data: the main loop ends exactly
      if the host asked for a jump; otherwise the watchdog has been started. The
      jump address is loaded exactly if the host asked for a jump and announced
      other than the bytes of the command. Parameters that the packet does not
      carry are those of the command before. */
  lemma StartThenExit(part: Part, d: Dfu, start: Request, go: Request, params: seq<byte>)
    requires part.epSize > 0 && !d.isSecure && !d.waitForExit && d.runBootloader
    requires CarriesCommand(start, 4, params) && params[0] == 3
    requires IsRequest(go, 1) && go.wLength == 0
    ensures Step(part, d, start).d.waitForExit && Running(Step(part, d, start).d)
    ensures var e := Step(part, Step(part, d, start).d, go).d;
            var data := params + d.cmd.data[|params|..];
            && (Running(e) <==> data[1] == 0) && (data[1] == 0 ==> e.watchdog)
            && e.appStart == if data[1] == 1 && start.wLength != 1 + |params| then Word(data[3], data[4]) else d.appStart
  {
    hide Step;
    StartStep(part, d, start, params);
    ExitStep(part, Step(part, d, start).d, go);
  }

  lemma StartStep(part: Part, d: Dfu, start: Request, params: seq<byte>)
    requires part.epSize > 0 && !d.isSecure && !d.waitForExit && d.runBootloader
    requires CarriesCommand(start, 4, params) && params[0] == 3
    ensures var e := Step(part, d, start).d;
            var data := params + d.cmd.data[|params|..];
            && e.waitForExit && !e.isSecure && e.cmd.code == 4 && e.cmd.data == data
            && (data[1] == 0 ==> e.runBootloader)
            && e.appStart == if data[1] == 1 && start.wLength != 1 + |params| then Word(data[3], data[4]) else d.appStart
  {
    hide Send, Take, Download, LoadCommand, EraseFrom;
    var c := d.cmd.(size := start.wLength);
    CommandLoads(c, start, 4, params);
    var s := OutStream(start.packets[0], start.packets[1..]);
    DfuRuns.DownloadKeeps(part, ProcessBootloaderCommand(part, d.(cmd := LoadCommand(c, s))),
                          AfterUnit(s, 1 + ParamsInBank(s)));
  }

  lemma ExitStep(part: Part, d: Dfu, go: Request)
    requires part.epSize > 0 && d.waitForExit && !d.isSecure
    requires d.cmd.code == 4 && d.cmd.data[0] == 3 && (d.cmd.data[1] == 0 ==> d.runBootloader)
    requires IsRequest(go, 1) && go.wLength == 0
    ensures var e := Step(part, d, go).d;
            && e.appStart == d.appStart && (Running(e) <==> d.cmd.data[1] == 0) && (d.cmd.data[1] == 0 ==> e.watchdog)
  {
    hide Send, Take, Download, LoadCommand, EraseFrom;
  }

  lemma SelectPage(part: Part, d: Dfu, select: Request, page: byte)
    requires part.epSize > 0 && !d.waitForExit && !d.isSecure && d.state != DfuDnloadIdle
    requires CarriesCommand(select, 6, [3, 0, page])
    ensures var e := Step(part, d, select).d; e == d.(cmd := e.cmd, flash64KBPage := page)
  {
    hide Send, Take, Download, LoadCommand, EraseFrom, ProcessMemProgCommand, ProcessMemReadCommand, ProcessWriteCommand;
    CommandLoads(d.cmd.(size := select.wLength), select, 6, [3, 0, page]);
  }

  /** The 64 KB page selected by CHANGE_BASE_ADDR is where the next download goes. */
  lemma SelectedPageIsProgrammed(part: Part, d: Dfu, select: Request, down: Request, rg: Range, page: byte, d1: Dfu)
    requires part.epSize > 0 && !d.waitForExit && !d.isSecure && d.state != DfuDnloadIdle
    requires CarriesCommand(select, 6, [3, 0, page])
    requires d1 == Step(part, d, select).d && DownloadsRange(part, d1, down, rg) && Holds(d.flash.buf, [])
    ensures Step(part, d1, down).d.flash
         == DownloadedFlash(d.flash, rg.Start() + 0x1_0000 * page, Payload(part, down, rg)[..rg.Length()])
  {
    hide Step, WordByteCount, Mod, DownloadedFlash, StaysInPage, PaddedPending, Holds;
    SelectPage(part, d, select, page);
    DownloadExact(part, d1, down, rg);
  }

  lemma EraseStep(part: Part, d: Dfu, r: Request)
    requires part.epSize > 0 && !d.waitForExit && d.state != DfuDnloadIdle
    requires CarriesCommand(r, 4, [0, 0xFF])
    ensures var c := LoadCommand(d.cmd.(size := r.wLength), OutStream(r.packets[0], r.packets[1..]));
            IsErase(c) && Step(part, d, r).d == ProcessBootloaderCommand(part, d.(cmd := c))
  {
    hide Send, Take, Download, LoadCommand, EraseFrom;
    CommandLoads(d.cmd.(size := r.wLength), r, 4, [0, 0xFF]);
  }

  /** A download given up anywhere, an ABORT, and a chip erase: the application
      section is then blank if and only if every byte since the last committed page
      is 0xFF. */
  lemma EraseAfterCutOff(part: Part, d: Dfu, down: Request, abort: Request, erase: Request, rg: Range)
    requires 0 < part.bootStart <= |d.flash.mem| && |d.flash.buf| <= part.bootStart
    requires GivesUp(part, d, down, rg) && IsRequest(abort, 6)
    requires CarriesCommand(erase, 4, [0, 0xFF])
    ensures var e := Step(part, Step(part, Step(part, d, down).d, abort).d, erase).d;
            var left := SinceCommit(Payload(part, down, rg), |d.flash.buf|);
            ApplicationBlank(part, e.flash) <==> forall i :: 0 <= i < |left| ==> left[i] == 0xFF
  {
    hide Step, Payload, ProcessBootloaderCommand, LoadCommand, ApplicationBlank, SinceCommit;
    SinceFits(Payload(part, down, rg), |d.flash.buf|);
    CutOffDownloadStays(part, d, down, rg);
    GivenUp(part, d, down, rg);
    var d1 := Step(part, d, down).d;
    AbortStep(part, d1, abort);
    var d2 := Step(part, d1, abort).d;
    EraseStep(part, d2, erase);
    EraseThenBlankCheck(part, d2.(cmd := LoadCommand(d2.cmd.(size := erase.wLength),
                                                     OutStream(erase.packets[0], erase.packets[1..]))));
  }

  lemma SinceFits(data: seq<byte>, p: nat)
    requires p > 0
    ensures |SinceCommit(data, p)| < p
  {}

  lemma AbortStep(part: Part, d: Dfu, abort: Request)
    requires part.epSize > 0 && IsRequest(abort, 6)
    ensures var e := Step(part, d, abort).d;
            e.flash == d.flash && e.state == DfuIdle && e.waitForExit == d.waitForExit
  {}

  lemma DownloadSizes(part: Part, d: Dfu, s: OutStream)
    requires part.epSize > 0
    ensures var f := Download(part, d, s).flash; |f.buf| == |d.flash.buf| && |f.mem| == |d.flash.mem|
  {
    hide Discard, Take, ProgramWords, EepromWrite, Mod, WordByteCount, ByteCount;
  }

  /** What a cut-off download leaves alone. */
  lemma GivenUp(part: Part, d: Dfu, down: Request, rg: Range)
    requires GivesUp(part, d, down, rg)
    ensures var e := Step(part, d, down).d;
            && !e.waitForExit && |e.flash.buf| == |d.flash.buf| && |e.flash.mem| == |d.flash.mem|
  {
    hide Step, Download, Flat, Mod, Holds;
    DownloadReaches(part, d, down, rg);
    var e, s := DownloadStarted(d, down, rg), OutStream(down.packets[0][6..], down.packets[1..]);
    DfuRuns.DownloadKeeps(part, e, s);
    DownloadSizes(part, e, s);
  }
}
