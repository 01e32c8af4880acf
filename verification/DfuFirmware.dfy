/** The DFU boot loader in the form of its source: static variables changed by
    the control request handler and by the loops below it. Every method is proved
    to have exactly the effect that DfuSpec gives to it. */
module DfuFirmware {
  import opened Bytes
  import opened FlashMemory
  import opened UsbEndpoint
  import opened DfuSpec

  class Bootloader {
    const part: Part

    var state: State
    var status: Status
    var isSecure: bool
    var runBootloader: bool
    var waitForExit: bool
    var cmd: Command
    var response: byte
    var appStart: word
    var flash64KBPage: byte
    var startAddr: word
    var endAddr: word
    var watchdog: bool
    var flash: Flash
    var eeprom: Eeprom

    // The control endpoint: the OUT bank and what the host still sends, the IN
    // bank, the packets sent, and how often the IN bank will become free again.
    var out: OutStream
    var inBank: seq<byte>
    var sent: seq<seq<byte>>
    var ready: nat
    var stalled: bool

    ghost function Model(): Dfu
      reads this
    {
      Dfu(state, status, isSecure, runBootloader, waitForExit, cmd, response, appStart,
          flash64KBPage, startAddr, endAddr, watchdog, flash, eeprom)
    }

    constructor (part: Part, secureMode: bool, flash: Flash, eeprom: Eeprom)
      ensures this.part == part && Model() == Initial(secureMode, flash, eeprom)
    {
      this.part := part;
      state, status := DfuIdle, StatusOK;
      isSecure, runBootloader, waitForExit := secureMode, true, false;
      cmd := Command(0, [0, 0, 0, 0, 0], 0);
      response, appStart, flash64KBPage, startAddr, endAddr, watchdog := 0, 0, 0, 0, 0, false;
      this.flash, this.eeprom := flash, eeprom;
      out, inBank, sent, ready, stalled := OutStream([], []), [], [], 0, false;
    }

    method LoadAddresses()
      modifies this`startAddr, this`endAddr
      ensures Model() == LoadStartEndAddresses(old(Model()))
    {
      startAddr := Word(cmd.data[1], cmd.data[2]);
      endAddr := Word(cmd.data[3], cmd.data[4]);
    }

    method MemProg()
      modifies this`startAddr, this`endAddr, this`flash, this`state
      ensures Model() == ProcessMemProgCommand(old(Model()))
    {
      if cmd.data[0] == 0 || cmd.data[0] == 1 {
        LoadAddresses();
        if cmd.data[0] == 0 {
          flash := Erase(flash, startAddr + 0x1_0000 * flash64KBPage);
        }
        state := DfuDnloadIdle;
      }
    }

    method MemRead()
      modifies this`startAddr, this`endAddr, this`flash64KBPage, this`state, this`status
      ensures Model() == ProcessMemReadCommand(part, old(Model()))
    {
      if cmd.data[0] == 0 || cmd.data[0] == 2 {
        LoadAddresses();
        state := DfuUploadIdle;
      } else if cmd.data[0] == 1 {
        var a := 0;
        while a < part.bootStart
          invariant a <= part.bootStart
          invariant Model() == old(Model())
          invariant FirstDirty(flash, a, part.bootStart) == FirstDirty(flash, 0, part.bootStart)
        {
          if ReadByte(flash, a) != 0xFF {
            flash64KBPage := (a / 0x1_0000) % 0x100;
            startAddr := a % 0x1_0000;
            state, status := DfuError, ErrCheckErased;
            return;
          }
          a := a + 1;
        }
      }
    }

    method EraseApplication()
      modifies this`flash
      ensures flash == RwwEnable(EraseFrom(old(flash), 0, part.bootStart))
    {
      hide Erase, WritePage;
      var a := 0;
      while a < part.bootStart
        invariant EraseFrom(flash, a, part.bootStart) == EraseFrom(old(flash), 0, part.bootStart)
        decreases part.bootStart - a
      {
        flash := Erase(flash, a);
        flash := WritePage(flash, a);
        a := a + |flash.buf|;
      }
      flash := RwwEnable(flash);
    }

    method WriteCommand()
      modifies this`waitForExit, this`appStart, this`watchdog, this`runBootloader, this`flash, this`isSecure
      ensures Model() == ProcessWriteCommand(part, old(Model()))
    {
      hide RwwEnable, EraseFrom;
      if cmd.data[0] == 3 {
        waitForExit := true;
        if cmd.size != 0 {
          if cmd.data[1] == 1 {
            appStart := Word(cmd.data[3], cmd.data[4]);
          }
        } else if cmd.data[1] == 0 {
          watchdog := true;
        } else {
          runBootloader := false;
        }
      } else if cmd.data[0] == 0 && cmd.data[1] == 0xFF {
        EraseApplication();
        isSecure := false;
      }
    }

    method ReadCommand()
      modifies this`response
      ensures Model() == ProcessReadCommand(part, old(Model()))
    {
      var i: int := cmd.data[1];
      if cmd.data[0] == 0 {
        response := Lookup(part, BOOTLOADER_INFO, i);
      } else if cmd.data[0] == 1 {
        response := Lookup(part, part.signature, i - 0x30);
      }
    }

    method ProcessCommand()
      modifies this`state, this`status, this`isSecure, this`runBootloader, this`waitForExit, this`response,
               this`appStart, this`flash64KBPage, this`startAddr, this`endAddr, this`watchdog, this`flash,
               this`stalled
      ensures Model() == ProcessBootloaderCommand(part, old(Model()))
      ensures stalled == (old(stalled) || Refused(old(Model())))
    {
      hide ProcessMemProgCommand, ProcessMemReadCommand, ProcessWriteCommand, ProcessReadCommand;
      if isSecure {
        if !((cmd.code == COMMAND_WRITE && cmd.data[0] == 0 && cmd.data[1] == 0xFF) || cmd.code == COMMAND_READ) {
          state, status := DfuError, ErrWrite;
          stalled := true;
          return;
        }
      }
      if cmd.code == COMMAND_PROG_START {
        MemProg();
      } else if cmd.code == COMMAND_DISP_DATA {
        MemRead();
      } else if cmd.code == COMMAND_WRITE {
        WriteCommand();
      } else if cmd.code == COMMAND_READ {
        ReadCommand();
      } else if cmd.code == COMMAND_CHANGE_BASE_ADDR {
        if cmd.data[0] == 3 && cmd.data[1] == 0 {
          flash64KBPage := cmd.data[2];
        }
      }
    }

    // ---- The data stage of DNLOAD ----

    method Read8() returns (b: byte)
      modifies this`out
      ensures [b] == ReadUnit(old(out), 1) && out == AfterUnit(old(out), 1)
    {
      if out.bank == [] {
        b := 0;
      } else {
        b := out.bank[0];
        out := out.(bank := out.bank[1..]);
      }
    }

    method ReadCommandBytes()
      modifies this`out, this`cmd
      ensures cmd == LoadCommand(old(cmd), old(out))
      ensures out == AfterUnit(old(out), 1 + ParamsInBank(old(out)))
    {
      hide LoadCommand, ParamsInBank;
      var code := Read8();
      cmd := Command(code, cmd.data, Sub16(cmd.size, 1));
      ghost var first := out;
      ghost var bank := out.bank;
      var i := 0;
      while i < 5 && out.bank != []
        invariant 0 <= i <= 5 && i <= |bank| && out == OutStream(bank[i..], old(out).rest)
        invariant |cmd.data| == 5 && (forall j :: 0 <= j < 5 ==> cmd.data[j] == if j < i then bank[j] else old(cmd).data[j])
        invariant cmd == Command(code, cmd.data, Sub16(old(cmd).size, 1 + i))
        decreases 5 - i
      {
        var b := Read8();
        cmd := Command(cmd.code, cmd.data[i := b], Sub16(cmd.size, 1));
        i := i + 1;
      }
      CommandLoaded(old(cmd), old(out), first, i, cmd.data);
    }

    method DiscardFillerBytes(n: byte)
      modifies this`out
      ensures out == Discard(old(out), n)
    {
      var k := n;
      while k != 0
        invariant Discard(out, k) == Discard(old(out), n)
      {
        k := k - 1;
        if out.bank == [] {
          if out.rest == [] {
            return;
          }
          out := NextBank(out);
        } else {
          out := out.(bank := out.bank[1..]);
        }
      }
    }

    method WriteFlash() returns (complete: bool)
      modifies this`out, this`flash
      ensures Received(flash, complete)
           == ReceiveFlash(old(flash), old(FlashAddress(Model())), WordByteCount(startAddr, endAddr), old(out))
    {
      hide Fill, WritePage, Erase, AfterUnit, ReadUnit, Remaining;
      var wordsRemaining: nat := ByteCount(startAddr, endAddr) / 2;
      var a: nat := startAddr + 0x1_0000 * flash64KBPage;
      var ps := a;
      var wordsInPage: nat := 0;
      ghost var goal := Remaining(flash, a, ps, 0, wordsRemaining, out);
      RemainingAtStart(flash, a, startAddr, endAddr, out);
      while wordsRemaining != 0
        invariant wordsInPage < 0x100
        invariant goal == Remaining(flash, a, ps, wordsInPage, wordsRemaining, out)
      {
        if out.bank == [] && out.rest == [] {
          RemainingDetached(flash, a, ps, wordsInPage, wordsRemaining, out);
          return false;
        }
        ghost var f, s, w, n := flash, out, wordsInPage, wordsRemaining;
        wordsRemaining := wordsRemaining - 1;
        if out.bank == [] {
          out := NextBank(out);
        }
        var lo := Read8();
        var hi := Read8();
        RemainingStep(f, a, ps, w, n, s, lo, hi, out);
        flash := Fill(flash, a, lo, hi);
        wordsInPage := if wordsInPage == 0xFF then 0 else wordsInPage + 1;
        a := a + 2;
        if wordsInPage == |flash.buf| / 2 || wordsRemaining == 0 {
          flash := WritePage(flash, ps);
          if wordsRemaining != 0 {
            ps := a;
            wordsInPage := 0;
            flash := Erase(flash, a);
          }
        }
      }
      RemainingDone(flash, a, ps, wordsInPage, out);
      return true;
    }

    method WriteEeprom() returns (complete: bool)
      modifies this`out, this`eeprom, this`startAddr
      ensures Mod(ByteCount(old(startAddr), endAddr), 1) == 0
      ensures var t := Take(old(out), ByteCount(old(startAddr), endAddr), 1);
              && eeprom == EepromWrite(old(eeprom), old(startAddr), t.data)
              && startAddr == Add16(old(startAddr), |t.data|)
              && complete == t.complete
    {
      hide ReadUnit, AfterUnit, Mod, ByteCount, Take, EepromWrite, Add16;
      var bytesRemaining := ByteCount(startAddr, endAddr);
      ModOne(bytesRemaining);
      ghost var t0 := Take(out, bytesRemaining, 1);
      while bytesRemaining != 0
        invariant Mod(bytesRemaining, 1) == 0
        invariant |Take(out, bytesRemaining, 1).data| + bytesRemaining < 0x2_0000
        invariant var t := Take(out, bytesRemaining, 1);
                  && t0.complete == t.complete
                  && EepromWrite(eeprom, startAddr, t.data) == EepromWrite(old(eeprom), old(startAddr), t0.data)
                  && Add16(startAddr, |t.data|) == Add16(old(startAddr), |t0.data|)
      {
        ghost var s := out;
        if out.bank == [] {
          if out.rest == [] {
            NothingTaken(out, bytesRemaining);
            NothingWritten(eeprom, startAddr);
            return false;
          }
          out := NextBank(out);
        }
        var b := Read8();
        ModOne(bytesRemaining - 1);
        TakeByte(s, bytesRemaining, b, out);
        ByteWritten(eeprom, startAddr, b, Take(out, bytesRemaining - 1, 1).data);
        bytesRemaining := bytesRemaining - 1;
        eeprom := eeprom[Mod(startAddr, |eeprom|) := b];
        startAddr := Add16(startAddr, 1);
      }
      NothingTaken(out, 0);
      NothingWritten(eeprom, startAddr);
      return true;
    }

    // ---- UPLOAD ----

    /** Writes a unit to the IN bank, sending the bank first when it is full. */
    method Put(unit: seq<byte>) returns (ok: bool)
      modifies this`inBank, this`sent, this`ready
      ensures if |old(inBank)| != part.epSize then
                ok && inBank == old(inBank) + unit && sent == old(sent) && ready == old(ready)
              else if old(ready) == 0 then
                !ok && inBank == [] && sent == old(sent) + [old(inBank)] && ready == 0
              else
                ok && inBank == unit && sent == old(sent) + [old(inBank)] && ready == old(ready) - 1
    {
      if |inBank| == part.epSize {
        sent, inBank := sent + [inBank], [];
        if ready == 0 {
          return false;
        }
        ready := ready - 1;
      }
      inBank := inBank + unit;
      return true;
    }

    method SendFlash() returns (complete: bool)
      requires sent == [] && inBank == []
      modifies this`inBank, this`sent, this`ready
      ensures var r := Send(FlashSlice(flash, FlashAddress(Model()), WordByteCount(startAddr, endAddr)),
                            2, part.epSize, [], old(ready));
              sent == r.packets && inBank == r.bank && complete == r.complete
    {
      hide Send, ReadByte, Mod, Continues, FlashSlice;
      var base: nat := startAddr + 0x1_0000 * flash64KBPage;
      var a := base;
      var wordsRemaining: nat := ByteCount(startAddr, endAddr) / 2;
      ghost var n := WordByteCount(startAddr, endAddr);
      ghost var data := FlashSlice(flash, base, n);
      ghost var goal := Send(data, 2, part.epSize, [], ready);
      ModTwo(ByteCount(startAddr, endAddr));
      ContinuesAtStart(data, 2, part.epSize, ready);
      while wordsRemaining != 0
        invariant base <= a && a - base + 2 * wordsRemaining == n && Mod(n - (a - base), 2) == 0
        invariant Continues(goal, sent, data, a - base, 2, part.epSize, inBank, ready)
      {
        wordsRemaining := wordsRemaining - 1;
        var unit := [ReadByte(flash, a), ReadByte(flash, a + 1)];
        FlashSliceWord(flash, base, n, a);
        ContinuesStep(goal, sent, data, a - base, unit, part.epSize, inBank, ready);
        var ok := Put(unit);
        if !ok {
          return false;
        }
        a := a + 2;
      }
      ContinuesAtEnd(goal, sent, data, 2, part.epSize, inBank, ready);
      return true;
    }

    method SendEeprom() returns (complete: bool)
      requires sent == [] && inBank == []
      modifies this`inBank, this`sent, this`ready, this`startAddr
      ensures Mod(ByteCount(old(startAddr), endAddr), 1) == 0
      ensures var r := Send(EepromSlice(eeprom, old(startAddr), ByteCount(old(startAddr), endAddr)),
                            1, part.epSize, [], old(ready));
              && sent == r.packets && inBank == r.bank && complete == r.complete
              && startAddr == Add16(old(startAddr), r.taken)
    {
      hide Send, Mod, Continues, EepromSlice;
      var bytesRemaining := ByteCount(startAddr, endAddr);
      ghost var n := bytesRemaining;
      ghost var data := EepromSlice(eeprom, startAddr, n);
      ModOne(n);
      ghost var goal := Send(data, 1, part.epSize, [], ready);
      ghost var i: nat := 0;
      ContinuesAtStart(data, 1, part.epSize, ready);
      while bytesRemaining != 0
        invariant i + bytesRemaining == n && startAddr == Add16(old(startAddr), i) && Mod(n - i, 1) == 0
        invariant Continues(goal, sent, data, i, 1, part.epSize, inBank, ready)
      {
        bytesRemaining := bytesRemaining - 1;
        var unit := [eeprom[Mod(startAddr, |eeprom|)]];
        EepromSliceByte(eeprom, old(startAddr), n, i);
        ContinuesStep(goal, sent, data, i, unit, part.epSize, inBank, ready);
        var ok := Put(unit);
        if !ok {
          return false;
        }
        startAddr := Add16(startAddr, 1);
        i := i + 1;
      }
      ContinuesAtEnd(goal, sent, data, 1, part.epSize, inBank, ready);
      return true;
    }

    // ---- The control request handler ----

    /** Receives the firmware that follows a programming command. */
    method ReceiveFirmware()
      requires 0 < part.epSize <= 0x100
      modifies this`out, this`flash, this`eeprom, this`startAddr
      ensures Model() == Download(part, old(Model()), old(out))
    {
      hide Discard, Take, ReceiveFlash, EepromWrite, RwwEnable, WordByteCount, ByteCount, Add16;
      DiscardFillerBytes(DFU_FILLER_BYTES_SIZE);
      DiscardFillerBytes(Mod(startAddr, part.epSize));
      var complete;
      if cmd.data[0] == 0 {
        complete := WriteFlash();
        if !complete {
          return;
        }
        startAddr := endAddr;
        flash := RwwEnable(flash);
      } else {
        complete := WriteEeprom();
        if !complete {
          return;
        }
      }
      DiscardFillerBytes(DFU_FILE_SUFFIX_SIZE);
    }

    /** The command and the firmware that a DNLOAD request carries. */
    method ReceiveDataStage()
      requires 0 < part.epSize <= 0x100
      modifies this
      ensures Model() == ReceiveData(part, old(Model()), old(out))
      ensures stalled == (old(stalled) || Refused(old(Model().(cmd := LoadCommand(cmd, out)))))
      ensures sent == old(sent)
    {
      hide ProcessBootloaderCommand, Download, LoadCommand, Refused;
      ReadCommandBytes();
      ghost var loaded := Model();
      assert loaded == old(Model().(cmd := LoadCommand(cmd, out)));
      ProcessCommand();
      ghost var processed := Model();
      assert processed == ProcessBootloaderCommand(part, loaded);
      if state == DfuDnloadIdle {
        if cmd.size == 0 {
          state := DfuIdle;
        } else {
          ReceiveFirmware();
        }
      }
    }

    method HandleDnload(packets: seq<seq<byte>>)
      requires 0 < part.epSize <= 0x100 && !stalled
      modifies this
      ensures Model() == Dnload(part, old(Model()), packets).d
      ensures stalled == Dnload(part, old(Model()), packets).response.stalled
      ensures sent == old(sent)
    {
      hide ProcessBootloaderCommand, ReceiveData, LoadCommand, Refused;
      if waitForExit {
        ProcessCommand();
        waitForExit := false;
      }
      if cmd.size != 0 {
        if packets == [] {
          return;
        }
        out := OutStream(packets[0], packets[1..]);
        ReceiveDataStage();
      } else if state == DfuDnloadIdle {
        state := DfuIdle;
      }
    }

    /** The block that a DISP_DATA command announced. */
    method SendBlock() returns (complete: bool)
      requires sent == [] && inBank == [] && state == DfuUploadIdle
      modifies this`sent, this`inBank, this`ready, this`startAddr, this`state
      ensures Model() == Upload(part, old(Model()), old(ready) + 1).d
      ensures Response(false, if complete then sent + [inBank] else sent)
           == Upload(part, old(Model()), old(ready) + 1).response
    {
      hide Send, FlashSlice, EepromSlice, WordByteCount, ByteCount, Add16;
      complete := true;
      if cmd.data[0] == 0 {
        complete := SendFlash();
        if !complete {
          return;
        }
        startAddr := endAddr;
      } else if cmd.data[0] == 2 {
        complete := SendEeprom();
        if !complete {
          return;
        }
      }
      state := DfuIdle;
    }

    method HandleUpload()
      requires sent == [] && inBank == [] && !stalled
      modifies this`sent, this`inBank, this`ready, this`startAddr, this`state
      ensures Effect(Model(), Response(false, sent)) == Upload(part, old(Model()), old(ready))
    {
      hide Send;
      if ready == 0 {
        return;
      }
      ready := ready - 1;
      if state != DfuUploadIdle {
        if state == DfuError && cmd.data[0] == 1 {
          inBank := [startAddr % 0x100, startAddr / 0x100];
        } else {
          inBank := [response];
        }
      } else {
        hide Upload;
        var complete := SendBlock();
        if !complete {
          return;
        }
      }
      sent, inBank := sent + [inBank], [];
    }

    /** Requests about the state and status variables only. */
    method HandleStatus(r: Request)
      requires 0 < part.epSize && r.forInterface && r.bRequest != DFU_REQ_DNLOAD && r.bRequest != DFU_REQ_UPLOAD
      requires sent == [] && cmd.size == r.wLength
      modifies this`sent, this`status, this`state
      ensures Effect(Model(), Response(false, sent)) == Step(part, old(Model()), r)
    {
      if r.bRequest == DFU_REQ_GETSTATUS {
        sent := [[StatusCode(status), 0, 0, 0, StateCode(state), 0]];
      } else if r.bRequest == DFU_REQ_CLRSTATUS {
        status := StatusOK;
      } else if r.bRequest == DFU_REQ_GETSTATE {
        sent := [[StateCode(state)]];
      } else if r.bRequest == DFU_REQ_ABORT {
        state := DfuIdle;
      }
    }

    /** EVENT_USB_Device_ControlRequest. */
    method ControlRequest(r: Request)
      requires 0 < part.epSize <= 0x100
      modifies this
      ensures Effect(Model(), Response(stalled, sent)) == Step(part, old(Model()), r)
    {
      hide Step, Dnload, Upload;
      StepByRequest(part, Model(), r);
      inBank, sent, ready, stalled := [], [], r.ready, false;
      if !r.forInterface {
        return;
      }
      cmd := cmd.(size := r.wLength);
      assert Model() == Sized(old(Model()), r);
      if r.bRequest == DFU_REQ_DNLOAD {
        DnloadSendsNothing(part, Model(), r.packets);
        HandleDnload(r.packets);
      } else if r.bRequest == DFU_REQ_UPLOAD {
        HandleUpload();
      } else {
        HandleStatus(r);
      }
    }

    /** The main loop, over the requests the USB task delivers to it. */
    method Run(reqs: seq<Request>) returns (observed: seq<Response>)
      requires 0 < part.epSize <= 0x100
      modifies this
      ensures Model() == After(part, old(Model()), reqs)
      ensures observed == Observed(part, old(Model()), reqs)
    {
      hide Step;
      observed := [];
      var i := 0;
      assert reqs[..0] == [];
      while i < |reqs| && (runBootloader || waitForExit)
        invariant 0 <= i <= |reqs|
        invariant Model() == After(part, old(Model()), reqs[..i])
        invariant observed == Observed(part, old(Model()), reqs[..i])
      {
        assert reqs[..i + 1][..i] == reqs[..i];
        ControlRequest(reqs[i]);
        observed := observed + [Response(stalled, sent)];
        i := i + 1;
      }
      StoppedRun(part, old(Model()), reqs, i);
      assert reqs[..|reqs|] == reqs;
    }
  }

  /** Once the main loop has ended, further requests change nothing. */
  lemma {:induction false} StoppedRun(part: Part, d: Dfu, reqs: seq<Request>, i: nat)
    requires part.epSize > 0 && i <= |reqs|
    requires i == |reqs| || !Running(After(part, d, reqs[..i]))
    ensures After(part, d, reqs) == After(part, d, reqs[..i])
    ensures Observed(part, d, reqs) == Observed(part, d, reqs[..i])
  {
    hide Step;
    if i == |reqs| {
      assert reqs[..i] == reqs;
    } else {
      var prev := reqs[..|reqs| - 1];
      assert prev[..i] == reqs[..i];
      StoppedRun(part, d, prev, i);
    }
  }

  /** The command byte and i parameters, all there are or all five. */
  lemma CommandLoaded(c: Command, s: OutStream, t: OutStream, i: nat, data: Params)
    requires t == AfterUnit(s, 1) && i <= 5 && i <= |t.bank| && (i == 5 || t.bank[i..] == [])
    requires forall j :: 0 <= j < 5 ==> data[j] == if j < i then t.bank[j] else c.data[j]
    ensures Command(ReadUnit(s, 1)[0], data, Sub16(c.size, 1 + i)) == LoadCommand(c, s)
    ensures OutStream(t.bank[i..], s.rest) == AfterUnit(s, 1 + ParamsInBank(s))
  {
    hide Sub16;
    assert i == ParamsInBank(s);
    assert data == LoadCommand(c, s).data;
  }

  /** The state in which a request is served. */
  function Sized(d: Dfu, r: Request): Dfu {
    d.(cmd := d.cmd.(size := r.wLength))
  }

  lemma StepByRequest(part: Part, d: Dfu, r: Request)
    requires part.epSize > 0
    ensures !r.forInterface ==> Step(part, d, r) == Effect(d, Silent)
    ensures r.forInterface && r.bRequest == DFU_REQ_DNLOAD ==> Step(part, d, r) == Dnload(part, Sized(d, r), r.packets)
    ensures r.forInterface && r.bRequest == DFU_REQ_UPLOAD ==> Step(part, d, r) == Upload(part, Sized(d, r), r.ready)
    ensures r.forInterface && r.bRequest != DFU_REQ_DNLOAD && r.bRequest != DFU_REQ_UPLOAD ==>
              Step(part, d, r) == Step(part, Sized(d, r), r)
  {
    hide Dnload, Upload, StatusCode, StateCode;
  }

  lemma DnloadSendsNothing(part: Part, d: Dfu, packets: seq<seq<byte>>)
    requires part.epSize > 0
    ensures Dnload(part, d, packets).response.packets == []
  {}

  // ---- What is left to do in an upload loop ----

  /** A transfer that has sent `sent` and taken the first i bytes, and so reaches its goal. */
  ghost predicate Continues(goal: Sending, sent: seq<seq<byte>>, data: seq<byte>, i: nat, k: nat, ep: nat,
                            bank: seq<byte>, ready: nat)
    requires k > 0 && i <= |data| && Mod(|data| - i, k) == 0
  {
    var r := Send(data[i..], k, ep, bank, ready);
    goal == Sending(sent + r.packets, r.bank, i + r.taken, r.complete)
  }

  lemma ContinuesAtStart(data: seq<byte>, k: nat, ep: nat, ready: nat)
    requires k > 0 && Mod(|data|, k) == 0
    ensures Continues(Send(data, k, ep, [], ready), [], data, 0, k, ep, [], ready)
  {
    assert data[0..] == data;
    var r := Send(data, k, ep, [], ready);
    assert [] + r.packets == r.packets;
  }

  lemma ContinuesAtEnd(goal: Sending, sent: seq<seq<byte>>, data: seq<byte>, k: nat, ep: nat, bank: seq<byte>, ready: nat)
    requires k > 0 && Mod(0, k) == 0 && Continues(goal, sent, data, |data|, k, ep, bank, ready)
    ensures goal == Sending(sent, bank, |data|, true)
  {
    assert sent + [] == sent;
  }

  /** One unit of an upload. */
  lemma ContinuesStep(goal: Sending, sent: seq<seq<byte>>, data: seq<byte>, i: nat, unit: seq<byte>, ep: nat,
                      bank: seq<byte>, ready: nat)
    requires 0 < |unit| && i + |unit| <= |data| && data[i..i + |unit|] == unit && Mod(|data| - i, |unit|) == 0
    requires Continues(goal, sent, data, i, |unit|, ep, bank, ready)
    ensures Mod(|data| - (i + |unit|), |unit|) == 0
    ensures if |bank| != ep then Continues(goal, sent, data, i + |unit|, |unit|, ep, bank + unit, ready)
            else if ready == 0 then goal == Sending(sent + [bank], [], i, false)
            else Continues(goal, sent + [bank], data, i + |unit|, |unit|, ep, unit, ready - 1)
  {
    assert data[i..][..|unit|] == unit;
    assert data[i..][|unit|..] == data[i + |unit|..];
    if |bank| == ep && ready > 0 {
      var r := Send(data[i + |unit|..], |unit|, ep, unit, ready - 1);
      assert sent + ([bank] + r.packets) == (sent + [bank]) + r.packets;
    }
  }

  lemma FlashSliceWord(f: Flash, base: nat, n: nat, a: nat)
    requires base <= a && a - base + 2 <= n
    ensures FlashSlice(f, base, n)[a - base..a - base + 2] == [ReadByte(f, a), ReadByte(f, a + 1)]
  {}

  lemma EepromSliceByte(e: Eeprom, a: word, n: word, i: nat)
    requires i < n
    ensures EepromSlice(e, a, n)[i..i + 1] == [e[Mod(Add16(a, i), |e|)]]
  {}

  /** One byte taken from the stream. */
  lemma TakeByte(s: OutStream, m: nat, b: byte, s': OutStream)
    requires m >= 1 && Mod(m, 1) == 0 && (s.bank != [] || s.rest != [])
    requires var bank := if s.bank == [] then NextBank(s) else s;
             [b] == ReadUnit(bank, 1) && s' == AfterUnit(bank, 1)
    ensures Mod(m - 1, 1) == 0
    ensures Take(s, m, 1).data == [b] + Take(s', m - 1, 1).data
    ensures Take(s, m, 1).data[1..] == Take(s', m - 1, 1).data
    ensures Take(s, m, 1).complete == Take(s', m - 1, 1).complete
  {}

  lemma NothingTaken(s: OutStream, m: nat)
    requires Mod(m, 1) == 0 && (m == 0 || (s.bank == [] && s.rest == []))
    ensures Take(s, m, 1).data == [] && Take(s, m, 1).complete == (m == 0)
  {}

  lemma NothingWritten(e: Eeprom, a: word)
    ensures EepromWrite(e, a, []) == e && Add16(a, 0) == a
  {}

  lemma ByteWritten(e: Eeprom, a: word, b: byte, rest: seq<byte>)
    requires |rest| < 0xFFFF
    ensures EepromWrite(e, a, [b] + rest) == EepromWrite(e[Mod(a, |e|) := b], Add16(a, 1), rest)
    ensures Add16(a, |[b] + rest|) == Add16(Add16(a, 1), |rest|)
  {
    hide Mod;
    assert ([b] + rest)[1..] == rest;
  }

  // ---- What is left to do in the programming loop ----

  ghost function Remaining(f: Flash, a: nat, ps: nat, w: nat, n: nat, s: OutStream): Received {
    ModTwo(2 * n);
    var t := Take(s, 2 * n, 2);
    Received(ProgramWords(f, a, ps, 2 * w, 2 * n, t.data), t.complete)
  }

  lemma RemainingAtStart(f: Flash, a: nat, start: word, end: word, s: OutStream)
    ensures Remaining(f, a, a, 0, ByteCount(start, end) / 2, s) == ReceiveFlash(f, a, WordByteCount(start, end), s)
  {
    ModTwo(ByteCount(start, end));
  }

  lemma RemainingDetached(f: Flash, a: nat, ps: nat, w: nat, n: nat, s: OutStream)
    requires n > 0 && s.bank == [] && s.rest == []
    ensures Remaining(f, a, ps, w, n, s) == Received(f, false)
  {}

  lemma RemainingDone(f: Flash, a: nat, ps: nat, w: nat, s: OutStream)
    ensures Remaining(f, a, ps, w, 0, s) == Received(f, true)
  {}

  lemma RemainingStep(f: Flash, a: nat, ps: nat, w: nat, n: nat, s: OutStream, lo: byte, hi: byte, s': OutStream)
    requires n > 0 && (s.bank != [] || s.rest != [])
    requires var b := if s.bank == [] then NextBank(s) else s;
             && [lo] == ReadUnit(b, 1) && [hi] == ReadUnit(AfterUnit(b, 1), 1)
             && s' == AfterUnit(AfterUnit(b, 1), 1)
    ensures Remaining(f, a, ps, w, n, s)
         == var g := Fill(f, a, lo, hi);
            var w' := if w == 0xFF then 0 else w + 1;
            if n == 1 then Remaining(WritePage(g, ps), a + 2, ps, w', 0, s')
            else if w' == |f.buf| / 2 then Remaining(Erase(WritePage(g, ps), a + 2), a + 2, a + 2, 0, n - 1, s')
            else Remaining(g, a + 2, ps, w', n - 1, s')
  {
    hide Fill, WritePage, Erase, ProgramWords;
    ModTwo(2 * n);
    ModTwo(2 * (n - 1));
    ModTwo(|f.buf|);
    TakeOne(s, 2 * n, lo, hi);
    ProgramOne(f, a, ps, 2 * w, 2 * n, lo, hi, Take(s', 2 * (n - 1), 2).data);
    RemainingDone(WritePage(Fill(f, a, lo, hi), ps), a + 2, ps, if w == 0xFF then 0 else w + 1, s');
  }

  /** One word taken from the stream. */
  lemma TakeOne(s: OutStream, m: nat, lo: byte, hi: byte)
    requires m >= 2 && Mod(m, 2) == 0 && (s.bank != [] || s.rest != [])
    requires var b := if s.bank == [] then NextBank(s) else s;
             [lo] == ReadUnit(b, 1) && [hi] == ReadUnit(AfterUnit(b, 1), 1)
    ensures var b := if s.bank == [] then NextBank(s) else s;
            var t := Take(AfterUnit(AfterUnit(b, 1), 1), m - 2, 2);
            Take(s, m, 2) == Taken([lo, hi] + t.data, t.left, t.complete)
  {
    var b := if s.bank == [] then NextBank(s) else s;
    assert ReadUnit(b, 1)[0] == lo && ReadUnit(AfterUnit(b, 1), 1)[0] == hi;
    assert ReadUnit(b, 2) == [lo, hi];
    assert AfterUnit(b, 2) == AfterUnit(AfterUnit(b, 1), 1);
  }

  /** One turn of the programming loop. */
  lemma ProgramOne(f: Flash, a: nat, ps: nat, k: nat, m: nat, lo: byte, hi: byte, rest: seq<byte>)
    requires Mod(|rest|, 2) == 0 && |rest| + 2 <= m
    ensures Mod(|[lo, hi] + rest|, 2) == 0
    ensures ProgramWords(f, a, ps, k, m, [lo, hi] + rest)
         == var g := Fill(f, a, lo, hi);
            var k' := if k + 2 == 0x200 then 0 else k + 2;
            if m == 2 then WritePage(g, ps)
            else if k' == |f.buf| then ProgramWords(Erase(WritePage(g, ps), a + 2), a + 2, a + 2, 0, m - 2, rest)
            else ProgramWords(g, a + 2, ps, k', m - 2, rest)
  {
    assert ([lo, hi] + rest)[2..] == rest;
  }
}
