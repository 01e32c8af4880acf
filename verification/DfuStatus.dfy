/** The state and status that the DFU boot loader reports to its host, as the
    numbers that travel over the bus: section 6.1.2 of the USB DFU class
    specification 1.1 gives them their meaning. */
module DfuStatus {
  import opened Bytes
  import opened FlashMemory
  import opened UsbEndpoint
  import opened DfuSpec
  import opened DfuMemory
  import DfuRuns
  import Q = DfuQueries

  /** GETSTATUS is request 3 and GETSTATE request 5. */
  predicate Asks(r: Request, bRequest: byte) {
    r.forInterface && r.bRequest == bRequest
  }

  /** What GETSTATE answers in the four states that occur; it is the fifth byte of the
      answer to GETSTATUS, whose first is 0, 3 or 5 and whose others are 0. Neither
      request changes the state or the status. */
  lemma StateAndStatus(part: Part, d: Dfu, status: Request, state: Request)
    requires part.epSize > 0 && Asks(status, 3) && Asks(state, 5)
    requires d.state in {DfuIdle, DfuDnloadIdle, DfuUploadIdle, DfuError}
    ensures var x := if d.state == DfuIdle then 2
                     else if d.state == DfuDnloadIdle then 5
                     else if d.state == DfuUploadIdle then 9 else 10;
            var y := if d.status == StatusOK then 0 else if d.status == ErrWrite then 3 else 5;
            && Step(part, d, state).response == Response(false, [[x]])
            && Step(part, d, status).response == Response(false, [[y, 0, 0, 0, x, 0]])
    ensures Step(part, d, state).d == d.(cmd := d.cmd.(size := state.wLength))
    ensures Step(part, d, status).d == d.(cmd := d.cmd.(size := status.wLength))
  {
    hide Dnload, Upload;
  }

  /** After every run, from either setting of the secure mode, GETSTATE answers 2, 5,
      9 or 10, and GETSTATUS the same in its fifth byte. */
  lemma StateAfterEveryRun(part: Part, secureMode: bool, flash: Flash, eeprom: Eeprom, reqs: seq<Request>,
                           status: Request, state: Request)
    requires part.epSize > 0 && Asks(status, 3) && Asks(state, 5)
    ensures var d := After(part, Initial(secureMode, flash, eeprom), reqs);
            exists x: byte, y: byte ::
              && x in {2, 5, 9, 10} && y in {0, 3, 5}
              && Step(part, d, state).response == Response(false, [[x]])
              && Step(part, d, status).response == Response(false, [[y, 0, 0, 0, x, 0]])
  {
    hide Step, After;
    var d0 := Initial(secureMode, flash, eeprom);
    DfuRuns.RunsKeepInv(part, d0, reqs);
    StateAndStatus(part, After(part, d0, reqs), status, state);
  }

  /** A device out of reset is idle without an error. */
  lemma FreshDevice(part: Part, secureMode: bool, flash: Flash, eeprom: Eeprom, status: Request)
    requires part.epSize > 0 && Asks(status, 3)
    ensures Step(part, Initial(secureMode, flash, eeprom), status).response == Response(false, [[0, 0, 0, 0, 2, 0]])
  {
    hide Dnload, Upload;
  }

  /** The status after a request, as the host sees it. */
  function Reported(part: Part, d: Dfu, r: Request, status: Request): Response
    requires part.epSize > 0
  {
    Step(part, Step(part, d, r).d, status).response
  }

  /** DISP_DATA for a range of flash: the device waits for an UPLOAD. */
  lemma StatusAfterDisplay(part: Part, d: Dfu, disp: Request, rg: Range, status: Request, state: Request)
    requires part.epSize > 0 && Asks(status, 3) && Asks(state, 5) && d.status == StatusOK
    requires !d.waitForExit && !d.isSecure && CarriesRange(disp, 3, rg)
    ensures Reported(part, d, disp, status) == Response(false, [[0, 0, 0, 0, 9, 0]])
    ensures Reported(part, d, disp, state) == Response(false, [[9]])
  {
    hide Step;
    DisplayReaches(part, d, disp, rg);
    StateAndStatus(part, Step(part, d, disp).d, status, state);
  }

  /** PROG_START with data behind it: the download stays open, complete or not. */
  lemma StatusDuringDownload(part: Part, d: Dfu, down: Request, rg: Range, status: Request, state: Request)
    requires part.epSize > 0 && Asks(status, 3) && Asks(state, 5) && d.status == StatusOK
    requires !d.waitForExit && !d.isSecure && CarriesRange(down, 1, rg) && down.wLength != 6
    ensures Reported(part, d, down, status) == Response(false, [[0, 0, 0, 0, 5, 0]])
    ensures Reported(part, d, down, state) == Response(false, [[5]])
  {
    hide Step, Download;
    DownloadReaches(part, d, down, rg);
    DfuRuns.DownloadKeeps(part, DownloadStarted(d, down, rg), OutStream(down.packets[0][6..], down.packets[1..]));
    StateAndStatus(part, Step(part, d, down).d, status, state);
  }

  /** PROG_START with nothing behind it only erases its page, and the device is idle. */
  lemma StatusAfterBareCommand(part: Part, d: Dfu, down: Request, rg: Range, status: Request, state: Request)
    requires part.epSize > 0 && Asks(status, 3) && Asks(state, 5) && d.status == StatusOK
    requires !d.waitForExit && !d.isSecure && CarriesRange(down, 1, rg) && down.wLength == 6
    ensures Reported(part, d, down, status) == Response(false, [[0, 0, 0, 0, 2, 0]])
    ensures Step(part, d, down).d.flash == Erase(d.flash, rg.Start() + 0x1_0000 * d.flash64KBPage)
  {
    hide Step;
    BareCommand(part, d, down, rg);
    StateAndStatus(part, Step(part, d, down).d, status, state);
  }

  lemma BareCommand(part: Part, d: Dfu, down: Request, rg: Range)
    requires part.epSize > 0 && !d.waitForExit && !d.isSecure && CarriesRange(down, 1, rg) && down.wLength == 6
    ensures var e := Step(part, d, down).d;
            && e.state == DfuIdle && e.status == d.status
            && e.flash == Erase(d.flash, rg.Start() + 0x1_0000 * d.flash64KBPage)
  {
    hide Download, Erase, LoadCommand;
    RangeCommandLoads(d.cmd.(size := down.wLength), COMMAND_PROG_START, down, rg);
  }

  /** A DNLOAD without data ends an open download. */
  lemma EmptyDnloadCloses(part: Part, d: Dfu, last: Request, status: Request, state: Request)
    requires part.epSize > 0 && Asks(status, 3) && Asks(state, 5) && Asks(last, 1) && last.wLength == 0
    requires d.state == DfuDnloadIdle && d.status == StatusOK && !d.waitForExit
    ensures Reported(part, d, last, status) == Response(false, [[0, 0, 0, 0, 2, 0]])
    ensures Step(part, d, last).d.flash == d.flash && Step(part, d, last).d.eeprom == d.eeprom
  {
    hide ReceiveData;
    StateAndStatus(part, Step(part, d, last).d, status, state);
  }

  /** A blank check that fails. */
  lemma StatusAfterFailedBlankCheck(part: Part, d: Dfu, check: Request, status: Request, state: Request)
    requires part.epSize > 0 && Asks(status, 3) && Asks(state, 5) && part.bootStart <= 0x100_0000
    requires !d.waitForExit && !d.isSecure && Q.CarriesCommand(check, 3, [1]) && !ApplicationBlank(part, d.flash)
    ensures Reported(part, d, check, status) == Response(false, [[5, 0, 0, 0, 10, 0]])
  {
    hide Step;
    FailedBlankCheck(part, d, check);
    StateAndStatus(part, Step(part, d, check).d, status, state);
  }

  lemma FailedBlankCheck(part: Part, d: Dfu, check: Request)
    requires part.epSize > 0 && part.bootStart <= 0x100_0000
    requires !d.waitForExit && !d.isSecure && Q.CarriesCommand(check, 3, [1]) && !ApplicationBlank(part, d.flash)
    ensures var e := Step(part, d, check).d; e.state == DfuError && e.status == ErrCheckErased
  {
    hide Send, Take, Download, LoadCommand, EraseFrom, BlankCheck, ApplicationBlank;
    Q.CommandLoads(d.cmd.(size := check.wLength), check, 3, [1]);
    var c := LoadCommand(d.cmd.(size := check.wLength), OutStream(check.packets[0], check.packets[1..]));
    BlankCheckExact(part, d.(cmd := c));
  }

  /** Requests to another recipient are ignored, and of the requests to this interface
      those that are none of the six only leave their length behind. */
  lemma OtherRequests(part: Part, d: Dfu, r: Request)
    requires part.epSize > 0
    ensures !r.forInterface ==> Step(part, d, r) == Effect(d, Response(false, []))
    ensures r.forInterface && r.bRequest !in {1, 2, 3, 4, 5, 6} ==>
              Step(part, d, r) == Effect(d.(cmd := d.cmd.(size := r.wLength)), Response(false, []))
  {
    hide Dnload, Upload;
  }

  /** An UPLOAD of a block that a later command has made neither flash nor EEPROM: an
      empty packet, and the device is idle. */
  lemma UploadOfNothing(part: Part, d: Dfu, up: Request, status: Request, state: Request)
    requires part.epSize > 0 && Asks(status, 3) && Asks(state, 5) && Asks(up, 2) && up.ready > 0
    requires d.state == DfuUploadIdle && d.status == StatusOK && d.cmd.data[0] != 0 && d.cmd.data[0] != 2
    ensures Step(part, d, up).response == Response(false, [[]])
    ensures Reported(part, d, up, status) == Response(false, [[0, 0, 0, 0, 2, 0]])
  {
    hide Send;
    StateAndStatus(part, Step(part, d, up).d, status, state);
  }

  /** The secure mode a device starts in: set, it refuses DISP_DATA, and not set, it
      serves it. */
  lemma SecureFromReset(part: Part, flash: Flash, eeprom: Eeprom, disp: Request, rg: Range, status: Request, state: Request)
    requires part.epSize > 0 && Asks(status, 3) && Asks(state, 5) && CarriesRange(disp, 3, rg)
    ensures Reported(part, Initial(true, flash, eeprom), disp, status) == Response(false, [[3, 0, 0, 0, 10, 0]])
    ensures Step(part, Initial(true, flash, eeprom), disp).response.stalled
    ensures Reported(part, Initial(false, flash, eeprom), disp, status) == Response(false, [[0, 0, 0, 0, 9, 0]])
    ensures !Step(part, Initial(false, flash, eeprom), disp).response.stalled
  {
    hide Step;
    DisplayRefused(part, Initial(true, flash, eeprom), disp, rg);
    StateAndStatus(part, Step(part, Initial(true, flash, eeprom), disp).d, status, state);
    DisplayReaches(part, Initial(false, flash, eeprom), disp, rg);
    StatusAfterDisplay(part, Initial(false, flash, eeprom), disp, rg, status, state);
  }

  lemma DisplayRefused(part: Part, d: Dfu, disp: Request, rg: Range)
    requires part.epSize > 0 && d.isSecure && !d.waitForExit && CarriesRange(disp, 3, rg)
    ensures var u := Step(part, d, disp); u.response.stalled && u.d.state == DfuError && u.d.status == ErrWrite
  {
    hide Send, Take, Download, LoadCommand, EraseFrom;
    RangeCommandLoads(d.cmd.(size := disp.wLength), 3, disp, rg);
  }
}
