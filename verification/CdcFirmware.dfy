/** The CDC class boot loader in the form of its source: variables, endpoint banks
    and loops, each method proved to have the effect that CdcLoader gives to it. */
module CdcFirmware {
  import opened Bytes
  import opened FlashMemory
  import opened UsbEndpoint
  import opened UsbTransfer
  import opened CdcLoader
  import A = Avr109

  class Bootloader {
    const part: Part
    var currAddress: nat
    var flash: Flash
    var eeprom: Eeprom
    var lock: byte
    var runBootloader: bool
    /** The OUT endpoint, and the packets the host is going to send. */
    var out: OutStream
    /** Whether the packet in the OUT bank is yet to be acknowledged. */
    var held: bool
    /** The IN endpoint, and the packets sent. */
    var pipe: InPipe<byte>

    ghost function Model(): Device
      reads this
    {
      Device(currAddress, flash, eeprom, lock, runBootloader)
    }

    ghost function Ends(): Io
      reads this
    {
      Io(out, held, pipe)
    }

    constructor (part: Part, flash: Flash, eeprom: Eeprom, lock: byte, packets: seq<seq<byte>>, waits: seq<bool>)
      ensures this.part == part && Model() == Device(0, flash, eeprom, lock, true)
      ensures Ends() == Io(OutStream([], packets), false, NewPipe(waits))
    {
      this.part, this.flash, this.eeprom, this.lock := part, flash, eeprom, lock;
      currAddress, runBootloader, out, held, pipe := 0, true, OutStream([], packets), false, NewPipe(waits);
    }

    /** The next byte of the host, and 0 when it sends nothing more. */
    method FetchNextCommandByte() returns (b: byte)
      modifies this`out
      ensures b == A.Head(old(Pending(out))) && out == AfterFetch(old(out))
      ensures Pending(out) == A.Tail(old(Pending(out)))
    {
      FetchPending(out);
      while out.bank == [] && out.rest != []
        invariant Pending(out) == old(Pending(out)) && AfterFetch(out) == AfterFetch(old(out))
        decreases |out.rest|
      {
        out := NextBank(out);
      }
      if out.bank == [] {
        return 0;
      }
      b := out.bank[0];
      out := out.(bank := out.bank[1..]);
    }

    /** A byte for the host; it is not written if the device is detached while the
        bank is with the host. */
    method WriteNextResponseByte(response: byte)
      modifies this`pipe
      ensures pipe == Put(old(pipe), response)
      ensures Regular(old(pipe)) ==>
                Regular(pipe) && (pipe.lost == old(pipe).lost <==> Sent(pipe) == Sent(old(pipe)) + [response])
    {
      hide Flat;
      if Regular(pipe) {
        PutExact(pipe, response);
      }
      if !Writable(pipe) {
        pipe := ClearIN(pipe);
        pipe := Wait(pipe);
        if pipe.busy {
          pipe := pipe.(lost := pipe.lost + 1);
          return;
        }
      }
      pipe := pipe.(bank := pipe.bank + [response]);
    }

    method WriteResponse(data: seq<byte>)
      modifies this`pipe
      ensures pipe == PutAll(old(pipe), data)
    {
      var i := 0;
      assert data[..0] == [];
      while i < |data|
        invariant 0 <= i <= |data| && pipe == PutAll(old(pipe), data[..i])
      {
        PutAllNext(old(pipe), data, i);
        WriteNextResponseByte(data[i]);
        i := i + 1;
      }
      assert data[..i] == data;
    }

    /** The read loop: each turn tests the memory type. */
    method ReadMemory(memoryType: byte, size: word)
      modifies this`pipe, this`currAddress
      ensures var r := ReadTurns(memoryType, old(Model()), false, size);
              Model() == r.d && pipe == PutAll(old(pipe), r.reply)
    {
      hide OrBits, Mod, PutAll, Put, ReadByte, A.Wrap32;
      ghost var goal, sent := ReadTurns(memoryType, Model(), false, size), [];
      var blockSize, highByte := size, false;
      PutAllNone(pipe);
      while blockSize != 0
        invariant 0 <= blockSize <= size
        invariant goal == Prefixed(sent, ReadTurns(memoryType, Model(), highByte, blockSize))
        invariant pipe == PutAll(old(pipe), sent)
      {
        ghost var b := 0;
        blockSize := blockSize - 1;
        if memoryType == FLASH {
          b := ReadByte(flash, OrBits(currAddress, if highByte then 1 else 0, 32));
          WriteNextResponseByte(ReadByte(flash, OrBits(currAddress, if highByte then 1 else 0, 32)));
          if highByte {
            currAddress := A.Wrap32(currAddress + 2);
          }
          highByte := !highByte;
        } else {
          b := eeprom[Mod(currAddress / 2, |eeprom|)];
          WriteNextResponseByte(eeprom[Mod(currAddress / 2, |eeprom|)]);
          currAddress := A.Wrap32(currAddress + 2);
        }
        PutAllSnoc(old(pipe), sent, b);
        PrefixedSnoc(sent, b, ReadTurns(memoryType, Model(), highByte, blockSize));
        sent := sent + [b];
      }
      assert sent + [] == sent;
    }

    /** The write loop: each turn tests the memory type. */
    method WriteMemory(memoryType: byte, size: word)
      modifies this`out, this`currAddress, this`flash, this`eeprom
      ensures Model() == WriteTurns(memoryType, old(Model()), false, 0, old(Pending(out)), size)
      ensures out == AfterFetches(old(out), size)
    {
      hide Mod, Fill, A.Wrap32, Pending, AfterFetch;
      ghost var goal, end := WriteTurns(memoryType, Model(), false, 0, Pending(out), size), AfterFetches(out, size);
      var blockSize, highByte, lowByte := size, false, 0;
      while blockSize != 0
        invariant 0 <= blockSize <= size && 0 <= lowByte < 0x100
        invariant goal == WriteTurns(memoryType, Model(), highByte, lowByte, Pending(out), blockSize)
        invariant end == AfterFetches(out, blockSize)
      {
        blockSize := blockSize - 1;
        if memoryType == FLASH {
          if highByte {
            var b := FetchNextCommandByte();
            flash := Fill(flash, currAddress, lowByte, b);
            currAddress := A.Wrap32(currAddress + 2);
          } else {
            lowByte := FetchNextCommandByte();
          }
          highByte := !highByte;
        } else {
          var b := FetchNextCommandByte();
          eeprom := eeprom[Mod(currAddress / 2, |eeprom|) := b];
          currAddress := A.Wrap32(currAddress + 2);
        }
      }
    }

    /** ReadWriteMemoryBlock. */
    method ReadWriteMemoryBlock(write: bool)
      modifies this`out, this`pipe, this`flash, this`eeprom, this`currAddress
      ensures var o := Block(write, old(Model()), old(Pending(out)));
              Model() == o.d && pipe == PutAll(old(pipe), o.reply) && out == AfterFetches(old(out), o.fetched)
    {
      hide Pending, AfterFetch, ReadTurns, WriteTurns, PutAll, Put, Word, Erase, WritePage, RwwEnable, A.DropBytes;
      ghost var input := Pending(out);
      var sizeHi := FetchNextCommandByte();
      var sizeLo := FetchNextCommandByte();
      var memoryType := FetchNextCommandByte();
      var blockSize := Word(sizeHi, sizeLo);
      A.DropThree(input);
      ghost var size: nat := blockSize;
      ThreeFetches(old(out), size);
      ThreeFetches(old(out), 0);
      PutAllOne(pipe, '?' as int);
      PutAllOne(pipe, CR);
      if memoryType != EEPROM && memoryType != FLASH {
        WriteNextResponseByte('?' as int);
        return;
      }
      if !write {
        flash := RwwEnable(flash);
        ReadMemory(memoryType, blockSize);
      } else {
        var pageStartAddress := currAddress;
        if memoryType == FLASH {
          flash := Erase(flash, pageStartAddress);
        }
        WriteMemory(memoryType, blockSize);
        if memoryType == FLASH {
          flash := WritePage(flash, pageStartAddress);
        }
        WriteNextResponseByte(CR);
      }
    }

    /** The 'e' command. */
    method EraseApplication()
      modifies this`flash
      ensures flash == EraseFrom(old(flash), 0, part.bootStart)
    {
      hide Erase, WritePage;
      var a := 0;
      while a < part.bootStart
        invariant EraseFrom(flash, a, part.bootStart) == EraseFrom(old(flash), 0, part.bootStart)
        decreases part.bootStart - a
      {
        flash := Erase(flash, a);
        flash := WritePage(flash, a);
        a := a + |flash.buf|;
      }
    }

    /** The command byte, its arguments, its effect and its reply. */
    method DoCommand()
      modifies this`out, this`pipe, this`flash, this`eeprom, this`currAddress, this`lock, this`runBootloader
      ensures var o := Command(part, old(Model()), old(Pending(out)));
              Model() == o.d && pipe == PutAll(old(pipe), o.reply) && out == AfterFetches(old(out), o.fetched)
    {
      hide Block, PutAll, Put, Pending, AfterFetch, Answer, A.DecodeAddress, Fill, WritePage, EraseFrom, And, OrBits, Mod,
           A.Wrap32;
      ghost var start := out;
      FetchCounts(out);
      PutAllOne(pipe, CR);
      var command := FetchNextCommandByte();
      if command == 'E' as int {
        runBootloader := false;
        WriteNextResponseByte(CR);
      } else if command == 'T' as int {
        var device := FetchNextCommandByte();
        WriteNextResponseByte(CR);
      } else if command == 'A' as int {
        var hi := FetchNextCommandByte();
        var lo := FetchNextCommandByte();
        currAddress := A.DecodeAddress(hi, lo);
        WriteNextResponseByte(CR);
      } else if command == 'e' as int {
        EraseApplication();
        WriteNextResponseByte(CR);
      } else if command == 'l' as int {
        var bits := FetchNextCommandByte();
        lock := And(lock, 0xFF - bits);
        WriteNextResponseByte(CR);
      } else if command == 'B' as int || command == 'g' as int {
        ReadWriteMemoryBlock(command == 'B' as int);
        FetchesAfterOne(start, Block(command == 'B' as int, old(Model()), A.Tail(old(Pending(out)))).fetched);
      } else if command == 'C' as int {
        var b := FetchNextCommandByte();
        flash := Fill(flash, currAddress, b, 0);
        WriteNextResponseByte(CR);
      } else if command == 'c' as int {
        var b := FetchNextCommandByte();
        flash := Fill(flash, OrBits(currAddress, 1, 32), b, 0);
        currAddress := A.Wrap32(currAddress + 2);
        WriteNextResponseByte(CR);
      } else if command == 'm' as int {
        flash := WritePage(flash, currAddress);
        WriteNextResponseByte(CR);
      } else if command == 'D' as int {
        var b := FetchNextCommandByte();
        eeprom := eeprom[Mod(currAddress / 2, |eeprom|) := b];
        currAddress := A.Wrap32(currAddress + 2);
        WriteNextResponseByte(CR);
      } else if command == 'd' as int {
        PutAllOne(pipe, eeprom[Mod(currAddress / 2, |eeprom|)]);
        WriteNextResponseByte(eeprom[Mod(currAddress / 2, |eeprom|)]);
        currAddress := A.Wrap32(currAddress + 2);
      } else {
        WriteResponse(Answer(part, Device(currAddress, flash, eeprom, lock, runBootloader), command));
      }
    }

    /** CDC_Task: one command, its reply as one transfer, and the rest of the packet
        dropped, unless the device is detached before that. */
    method CdcTask()
      modifies this
      ensures Turned(Model(), Ends()) == FullTask(part, old(Model()), old(Ends()))
    {
      hide Command, PutAll, AfterFetches, Pending;
      if !held && out == OutStream([], []) {
        return;
      }
      DoCommand();
      var isEndpointFull := !Writable(pipe);
      held := true;
      pipe := ClearIN(pipe);
      if isEndpointFull {
        pipe := Wait(pipe);
        if pipe.busy {
          return;
        }
        pipe := ClearIN(pipe);
      }
      pipe := Wait(pipe);
      if pipe.busy {
        return;
      }
      out, held := OutStream([], out.rest), false;
    }

    /** The main loop, n turns of it at most. */
    method MainLoop(n: nat)
      modifies this
      ensures Turned(Model(), Ends()) == FullTasks(part, old(Model()), old(Ends()), n)
      ensures var t := Tasks(part, old(Model()), old(out), n);
              Served(old(pipe)) && old(pipe).bank == [] && !old(held) ==>
                && Model() == t.d && out == t.out && Flat(pipe.packets) == Flat(old(pipe).packets) + t.reply
    {
      hide FullTask, Tasks, Flat, Served;
      if Served(pipe) && pipe.bank == [] && !held {
        ServedTasks(part, Model(), Ends(), n);
      }
      ghost var goal := FullTasks(part, Model(), Ends(), n);
      var turn := 0;
      while turn < n && runBootloader
        invariant 0 <= turn <= n && goal == FullTasks(part, Model(), Ends(), n - turn)
      {
        CdcTask();
        turn := turn + 1;
      }
    }
  }

  // ---- Replies ----

  ghost function Prefixed(before: seq<byte>, r: Read): Read {
    r.(reply := before + r.reply)
  }

  lemma PrefixedSnoc(before: seq<byte>, b: byte, r: Read)
    ensures Prefixed(before, Read(r.d, [b] + r.reply)) == Prefixed(before + [b], r)
  {
    assert before + ([b] + r.reply) == (before + [b]) + r.reply;
  }

  // ---- Fetches ----

  lemma FetchesAfterOne(s: OutStream, k: nat)
    ensures AfterFetches(AfterFetch(s), k) == AfterFetches(s, 1 + k)
  {}

  lemma ThreeFetches(s: OutStream, k: nat)
    ensures AfterFetches(AfterFetch(AfterFetch(AfterFetch(s))), k) == AfterFetches(s, 3 + k)
  {
    hide AfterFetch;
    FetchesAfterOne(AfterFetch(AfterFetch(s)), k);
    FetchesAfterOne(AfterFetch(s), 1 + k);
    FetchesAfterOne(s, 2 + k);
  }

  lemma FetchCounts(s: OutStream)
    ensures AfterFetches(s, 1) == AfterFetch(s)
    ensures AfterFetches(s, 2) == AfterFetch(AfterFetch(s))
    ensures AfterFetches(s, 3) == AfterFetch(AfterFetch(AfterFetch(s)))
  {
    hide AfterFetch;
    FetchesAfterOne(s, 0);
    FetchesAfterOne(s, 1);
    FetchesAfterOne(AfterFetch(s), 0);
    ThreeFetches(s, 0);
  }
}
