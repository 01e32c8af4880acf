/** Properties of the DFU boot loader over every sequence of requests: the
    reachable states, the two-step exit, and what secure mode keeps secret. */
module DfuRuns {
  import opened Bytes
  import opened FlashMemory
  import opened UsbEndpoint
  import opened DfuSpec
  import DfuMemory

  // ---- Reachable states ----

  /** What every request keeps, for a device that started with the given memories. */
  predicate Inv(d: Dfu, flash: Flash, eeprom: Eeprom) {
    && d.state in {DfuIdle, DfuDnloadIdle, DfuUploadIdle, DfuError}
    && (d.isSecure ==>
          && d.state in {DfuIdle, DfuError}
          && d.runBootloader && !d.waitForExit
          && d.flash == flash && d.eeprom == eeprom)
    && (d.waitForExit ==> IsStartApplication(d.cmd))
  }

  lemma CommandKeepsInv(part: Part, d: Dfu, flash: Flash, eeprom: Eeprom)
    requires Inv(d, flash, eeprom)
    ensures Inv(ProcessBootloaderCommand(part, d), flash, eeprom)
    ensures !d.isSecure ==> !ProcessBootloaderCommand(part, d).isSecure
    ensures ProcessBootloaderCommand(part, d).cmd == d.cmd
  {
    hide ProcessWriteCommand, ProcessMemProgCommand, ProcessMemReadCommand, ProcessReadCommand;
    WriteKeeps(part, d);
    MemoryKeeps(part, d);
    ReadKeeps(part, d);
  }

  lemma WriteKeeps(part: Part, d: Dfu)
    ensures var e := ProcessWriteCommand(part, d);
            && e == d.(flash := e.flash, isSecure := e.isSecure, waitForExit := e.waitForExit, appStart := e.appStart,
                       watchdog := e.watchdog, runBootloader := e.runBootloader)
            && (e.isSecure ==> d.isSecure)
            && (d.cmd.code == COMMAND_WRITE && e.waitForExit && !d.waitForExit ==> IsStartApplication(d.cmd))
            && (IsErase(d.cmd) ==> !e.isSecure)
  {
    hide EraseFrom, RwwEnable, Word;
  }

  lemma MemoryKeeps(part: Part, d: Dfu)
    ensures var e := ProcessMemProgCommand(d);
            && e.state in {d.state, DfuDnloadIdle}
            && e == d.(flash := e.flash, state := e.state, startAddr := e.startAddr, endAddr := e.endAddr)
    ensures var e := ProcessMemReadCommand(part, d);
            && e.state in {d.state, DfuUploadIdle, DfuError}
            && e == d.(state := e.state, status := e.status, startAddr := e.startAddr, endAddr := e.endAddr,
                       flash64KBPage := e.flash64KBPage)
  {
    hide Erase, FirstDirty, Word;
  }

  lemma ReadKeeps(part: Part, d: Dfu)
    ensures var e := ProcessReadCommand(part, d); e == d.(response := e.response)
  {
    hide Lookup;
  }

  lemma DownloadKeeps(part: Part, d: Dfu, s: OutStream)
    requires part.epSize > 0
    ensures var e := Download(part, d, s);
            e == d.(flash := e.flash, eeprom := e.eeprom, startAddr := e.startAddr)
  {
    hide Discard, Take, ReceiveFlash, EepromWrite, RwwEnable;
  }

  lemma DataKeepsInv(part: Part, d: Dfu, s: OutStream, flash: Flash, eeprom: Eeprom)
    requires part.epSize > 0 && Inv(d, flash, eeprom) && !d.waitForExit
    ensures Inv(ReceiveData(part, d, s), flash, eeprom)
    ensures !d.isSecure ==> !ReceiveData(part, d, s).isSecure
  {
    var e := d.(cmd := LoadCommand(d.cmd, s));
    CommandKeepsInv(part, e, flash, eeprom);
    DownloadKeeps(part, ProcessBootloaderCommand(part, e), AfterUnit(s, 1 + ParamsInBank(s)));
  }

  lemma PendingKeepsInv(part: Part, d: Dfu, flash: Flash, eeprom: Eeprom)
    requires Inv(d, flash, eeprom)
    ensures Inv(ProcessPending(part, d), flash, eeprom) && !ProcessPending(part, d).waitForExit
    ensures !d.isSecure ==> !ProcessPending(part, d).isSecure
  {
    CommandKeepsInv(part, d, flash, eeprom);
  }

  lemma DnloadKeepsInv(part: Part, d: Dfu, packets: seq<seq<byte>>, flash: Flash, eeprom: Eeprom)
    requires part.epSize > 0 && Inv(d, flash, eeprom)
    ensures Inv(Dnload(part, d, packets).d, flash, eeprom)
    ensures !d.isSecure ==> !Dnload(part, d, packets).d.isSecure
  {
    PendingKeepsInv(part, d, flash, eeprom);
    if packets != [] {
      DataKeepsInv(part, ProcessPending(part, d), OutStream(packets[0], packets[1..]), flash, eeprom);
    }
  }

  lemma StepKeepsInv(part: Part, d: Dfu, r: Request, flash: Flash, eeprom: Eeprom)
    requires part.epSize > 0 && Inv(d, flash, eeprom)
    ensures Inv(Step(part, d, r).d, flash, eeprom)
    ensures !d.isSecure ==> !Step(part, d, r).d.isSecure
  {
    hide Dnload, Send;
    var e := d.(cmd := d.cmd.(size := r.wLength));
    assert Inv(e, flash, eeprom);
    DnloadKeepsInv(part, e, r.packets, flash, eeprom);
  }

  /** A device as it comes out of reset. */
  predicate Fresh(d: Dfu) {
    exists secureMode: bool :: d == Initial(secureMode, d.flash, d.eeprom)
  }

  /** In every run: only four of the DFU states occur; while the device is secure
      it is idle or in error, keeps running, and its memories are untouched. */
  lemma {:induction false} RunsKeepInv(part: Part, d0: Dfu, reqs: seq<Request>)
    requires part.epSize > 0 && Fresh(d0)
    ensures Inv(After(part, d0, reqs), d0.flash, d0.eeprom)
  {
    if reqs != [] {
      var prev := reqs[..|reqs| - 1];
      RunsKeepInv(part, d0, prev);
      StepKeepsInv(part, After(part, d0, prev), reqs[|reqs| - 1], d0.flash, d0.eeprom);
    }
  }

  /** Secure mode, once lifted, stays lifted. */
  lemma {:induction false} SecureNeverReturns(part: Part, d0: Dfu, reqs: seq<Request>, k: nat)
    requires part.epSize > 0 && Fresh(d0) && k <= |reqs|
    requires !After(part, d0, reqs[..k]).isSecure
    ensures !After(part, d0, reqs).isSecure
  {
    if k == |reqs| {
      assert reqs[..k] == reqs;
    } else {
      var prev := reqs[..|reqs| - 1];
      assert prev[..k] == reqs[..k];
      SecureNeverReturns(part, d0, prev, k);
      RunsKeepInv(part, d0, prev);
      StepKeepsInv(part, After(part, d0, prev), reqs[|reqs| - 1], d0.flash, d0.eeprom);
    }
  }

  // ---- The page buffer ----

  /** The request is a flash download whose data stage stops before its range is complete. */
  predicate CutOff(part: Part, d: Dfu, r: Request)
    requires part.epSize > 0
  {
    DfuMemory.IsDnload(r) && r.wLength > 0 && r.packets != [] &&
    (var s := OutStream(r.packets[0], r.packets[1..]);
     var c := ProcessPending(part, d.(cmd := d.cmd.(size := r.wLength)));
     var e := ProcessBootloaderCommand(part, c.(cmd := LoadCommand(c.cmd, s)));
     var s1 := Discard(AfterUnit(s, 1 + ParamsInBank(s)), DFU_FILLER_BYTES_SIZE);
     && e.state == DfuDnloadIdle && e.cmd.size != 0 && e.cmd.data[0] == 0
     && !ReceiveFlash(e.flash, FlashAddress(e), WordByteCount(e.startAddr, e.endAddr),
                      Discard(s1, Mod(e.startAddr, part.epSize))).complete)
  }

  lemma CommandKeepsBufferEmpty(part: Part, d: Dfu)
    requires Holds(d.flash.buf, [])
    ensures Holds(ProcessBootloaderCommand(part, d).flash.buf, [])
    ensures ProcessBootloaderCommand(part, d).cmd == d.cmd
  {
    hide EraseFrom, FirstDirty, Holds, Blank, Word, Lookup, PageBase;
    EmptiedBuffer(EraseFrom(d.flash, 0, part.bootStart));
  }

  /** Unless a download is cut off, every request leaves the page buffer empty, so
      the theorems about downloads and erasing apply to the next one. */
  lemma StepKeepsBufferEmpty(part: Part, d: Dfu, r: Request)
    requires part.epSize > 0 && Holds(d.flash.buf, []) && !CutOff(part, d, r)
    ensures Holds(Step(part, d, r).d.flash.buf, [])
  {
    hide ProcessBootloaderCommand, LoadCommand, ReceiveFlash, Discard, Send, Take, WordByteCount, EepromWrite, Holds;
    var c := d.(cmd := d.cmd.(size := r.wLength));
    CommandKeepsBufferEmpty(part, c);
    var p := ProcessPending(part, c);
    if r.packets != [] {
      var s := OutStream(r.packets[0], r.packets[1..]);
      CommandKeepsBufferEmpty(part, p.(cmd := LoadCommand(p.cmd, s)));
      var e := ProcessBootloaderCommand(part, p.(cmd := LoadCommand(p.cmd, s)));
      EmptiedBuffer(ReceiveFlash(e.flash, FlashAddress(e), WordByteCount(e.startAddr, e.endAddr),
                                 Discard(Discard(AfterUnit(s, 1 + ParamsInBank(s)), DFU_FILLER_BYTES_SIZE),
                                         Mod(e.startAddr, part.epSize))).flash);
    }
  }

  lemma EmptiedBuffer(f: Flash)
    ensures Holds(RwwEnable(f).buf, [])
  {}

  lemma {:induction false} UninterruptedRunsKeepBufferEmpty(part: Part, d0: Dfu, reqs: seq<Request>)
    requires part.epSize > 0 && Holds(d0.flash.buf, [])
    requires forall i :: 0 <= i < |reqs| ==> !CutOff(part, After(part, d0, reqs[..i]), reqs[i])
    ensures Holds(After(part, d0, reqs).flash.buf, [])
  {
    hide Step, CutOff, Holds;
    if reqs != [] {
      var prev := reqs[..|reqs| - 1];
      forall i | 0 <= i < |prev| ensures !CutOff(part, After(part, d0, prev[..i]), prev[i]) {
        assert prev[..i] == reqs[..i];
      }
      UninterruptedRunsKeepBufferEmpty(part, d0, prev);
      StepKeepsBufferEmpty(part, After(part, d0, prev), reqs[|reqs| - 1]);
    }
  }

  // ---- Two-step exit ----

  /** Only a DNLOAD request received while the device waits to exit ends the main loop. */
  lemma ExitStep(part: Part, d: Dfu, r: Request)
    requires part.epSize > 0 && Running(d) && !Running(Step(part, d, r).d)
    ensures DfuMemory.IsDnload(r) && d.waitForExit
  {
    hide Download, EraseFrom, FirstDirty, Send, LoadCommand;
    var e := d.(cmd := d.cmd.(size := r.wLength));
    if DfuMemory.IsDnload(r) && !d.waitForExit && r.packets != [] {
      var s := OutStream(r.packets[0], r.packets[1..]);
      DownloadKeeps(part, ProcessBootloaderCommand(part, e.(cmd := LoadCommand(e.cmd, s))),
                    AfterUnit(s, 1 + ParamsInBank(s)));
    }
  }

  /** Requests other than DNLOAD do not make the device wait. */
  lemma OtherRequestsDoNotWait(part: Part, d: Dfu, r: Request)
    requires part.epSize > 0 && !DfuMemory.IsDnload(r)
    ensures Step(part, d, r).d.waitForExit == d.waitForExit
  {}

  /** A device that waits to exit was told to by a start-application DNLOAD. */
  lemma {:induction false} WaitOrigin(part: Part, d0: Dfu, reqs: seq<Request>) returns (i: nat)
    requires part.epSize > 0 && Fresh(d0) && After(part, d0, reqs).waitForExit
    ensures i < |reqs| && DfuMemory.IsDnload(reqs[i])
    ensures After(part, d0, reqs[..i + 1]).waitForExit
    ensures IsStartApplication(After(part, d0, reqs[..i + 1]).cmd)
  {
    var prev, r := reqs[..|reqs| - 1], reqs[|reqs| - 1];
    var p := After(part, d0, prev);
    if Running(p) && DfuMemory.IsDnload(r) {
      i := |reqs| - 1;
      assert reqs[..i + 1] == reqs;
      RunsKeepInv(part, d0, reqs);
    } else {
      if Running(p) {
        OtherRequestsDoNotWait(part, p, r);
      }
      i := WaitOrigin(part, d0, prev);
      assert prev[..i + 1] == reqs[..i + 1];
    }
  }

  /** The main loop ends only after a start-application DNLOAD followed by a
      further DNLOAD, whatever else happens before, between and after. */
  lemma {:induction false} TwoStepExit(part: Part, d0: Dfu, reqs: seq<Request>) returns (i: nat, j: nat)
    requires part.epSize > 0 && Fresh(d0) && !Running(After(part, d0, reqs))
    ensures i < j < |reqs| && DfuMemory.IsDnload(reqs[i]) && DfuMemory.IsDnload(reqs[j])
    ensures After(part, d0, reqs[..i + 1]).waitForExit
    ensures IsStartApplication(After(part, d0, reqs[..i + 1]).cmd)
    ensures Running(After(part, d0, reqs[..j])) && !Running(After(part, d0, reqs[..j + 1]))
  {
    hide Step;
    var prev := reqs[..|reqs| - 1];
    if Running(After(part, d0, prev)) {
      j := |reqs| - 1;
      assert reqs[..j + 1] == reqs;
      ExitStep(part, After(part, d0, prev), reqs[j]);
      i := WaitOrigin(part, d0, prev);
      assert prev[..i + 1] == reqs[..i + 1];
    } else {
      i, j := TwoStepExit(part, d0, prev);
      assert prev[..i + 1] == reqs[..i + 1] && prev[..j] == reqs[..j] && prev[..j + 1] == reqs[..j + 1];
    }
  }

  // ---- Secure mode ----

  /** Flashes that may differ in the application section only. */
  predicate SameBootSection(part: Part, f: Flash, g: Flash) {
    && f.buf == g.buf && |f.mem| == |g.mem| && part.bootStart <= |f.mem|
    && (forall i :: part.bootStart <= i < |f.mem| ==> f.mem[i] == g.mem[i])
  }

  /** Devices that agree on everything but a secured application, and on that too
      as soon as secure mode is lifted. */
  predicate Indistinguishable(part: Part, d: Dfu, e: Dfu) {
    && d.isSecure == e.isSecure
    && (if d.isSecure then e == d.(flash := e.flash) && SameBootSection(part, d.flash, e.flash) else d == e)
    && Inv(d, d.flash, d.eeprom)
  }

  /** Erasing makes the two flashes equal. */
  lemma EraseEquates(part: Part, f: Flash, g: Flash)
    requires SameBootSection(part, f, g)
    ensures EraseFrom(f, 0, part.bootStart) == EraseFrom(g, 0, part.bootStart)
  {
    var r, q := EraseFrom(f, 0, part.bootStart), EraseFrom(g, 0, part.bootStart);
    DfuMemory.EraseFromExact(f, 0, part.bootStart);
    DfuMemory.EraseFromExact(g, 0, part.bootStart);
    forall i | 0 <= i < |f.mem| ensures r.mem[i] == q.mem[i] {
      assert r.mem[i] == DfuMemory.ErasedByte(f, 0, part.bootStart, i);
      assert q.mem[i] == DfuMemory.ErasedByte(g, 0, part.bootStart, i);
    }
    assert r.mem == q.mem;
  }

  lemma CommandKeepsSecret(part: Part, d: Dfu, e: Dfu)
    requires Indistinguishable(part, d, e)
    ensures Refused(d) == Refused(e)
    ensures Indistinguishable(part, ProcessBootloaderCommand(part, d), ProcessBootloaderCommand(part, e))
  {
    CommandKeepsInv(part, d, d.flash, d.eeprom);
    if d.isSecure && IsErase(d.cmd) {
      EraseEquates(part, d.flash, e.flash);
    }
  }

  lemma DataKeepsSecret(part: Part, d: Dfu, e: Dfu, s: OutStream)
    requires part.epSize > 0 && Indistinguishable(part, d, e) && !d.waitForExit
    ensures Refused(d.(cmd := LoadCommand(d.cmd, s))) == Refused(e.(cmd := LoadCommand(e.cmd, s)))
    ensures Indistinguishable(part, ReceiveData(part, d, s), ReceiveData(part, e, s))
  {
    var c := LoadCommand(d.cmd, s);
    CommandKeepsSecret(part, d.(cmd := c), e.(cmd := c));
    DataKeepsInv(part, d, s, d.flash, d.eeprom);
    hide Download;
    hide ProcessBootloaderCommand;
  }

  lemma DnloadKeepsSecret(part: Part, d: Dfu, e: Dfu, packets: seq<seq<byte>>)
    requires part.epSize > 0 && Indistinguishable(part, d, e)
    ensures Dnload(part, d, packets).response == Dnload(part, e, packets).response
    ensures Indistinguishable(part, Dnload(part, d, packets).d, Dnload(part, e, packets).d)
  {
    DnloadKeepsInv(part, d, packets, d.flash, d.eeprom);
    if d.isSecure && packets != [] {
      DataKeepsSecret(part, d, e, OutStream(packets[0], packets[1..]));
    }
    hide ReceiveData;
    hide ProcessBootloaderCommand;
  }

  /** One request cannot tell the two devices apart. */
  lemma StepKeepsSecret(part: Part, d: Dfu, e: Dfu, r: Request)
    requires part.epSize > 0 && Indistinguishable(part, d, e)
    ensures Step(part, d, r).response == Step(part, e, r).response
    ensures Indistinguishable(part, Step(part, d, r).d, Step(part, e, r).d)
  {
    hide Dnload;
    var c := d.cmd.(size := r.wLength);
    DnloadKeepsSecret(part, d.(cmd := c), e.(cmd := c), r.packets);
    StepKeepsInv(part, d, r, d.flash, d.eeprom);
  }

  lemma {:induction false} RunsKeepSecret(part: Part, d: Dfu, e: Dfu, reqs: seq<Request>)
    requires part.epSize > 0 && Indistinguishable(part, d, e)
    ensures Observed(part, d, reqs) == Observed(part, e, reqs)
    ensures Indistinguishable(part, After(part, d, reqs), After(part, e, reqs))
  {
    hide Step;
    if reqs != [] {
      var prev := reqs[..|reqs| - 1];
      RunsKeepSecret(part, d, e, prev);
      StepKeepsSecret(part, After(part, d, prev), After(part, e, prev), reqs[|reqs| - 1]);
    }
  }

  /** Secure mode does not leak: two devices that start secured and differ only in
      their application give the same responses to every sequence of requests, and
      as long as it has not been erased no field but the application differs. */
  lemma SecureModeNonInterference(part: Part, f: Flash, g: Flash, eeprom: Eeprom, reqs: seq<Request>)
    requires part.epSize > 0 && SameBootSection(part, f, g)
    ensures Observed(part, Initial(true, f, eeprom), reqs) == Observed(part, Initial(true, g, eeprom), reqs)
    ensures Indistinguishable(part, After(part, Initial(true, f, eeprom), reqs), After(part, Initial(true, g, eeprom), reqs))
  {
    RunsKeepSecret(part, Initial(true, f, eeprom), Initial(true, g, eeprom), reqs);
  }
}
