/** The AVR109 programmer of the Adelino boot loader in the form of its source
    (Firmware/adelino/Adelino.c): variables, endpoint banks and loops, each
    method proved to have the effect that Avr109 and UsbTransfer give to it. */
module AdelinoFirmware {
  import opened Bytes
  import opened FlashMemory
  import opened UsbEndpoint
  import opened UsbTransfer
  import A = Avr109

  class Programmer {
    const signature: A.Signature
    var currAddress: nat
    var flash: Flash
    var timeout: byte
    var bootMode: byte
    /** The OUT endpoint, and the packets the host is going to send. */
    var out: OutStream
    /** Which of the next bytes are there in time, and whether one was not. */
    var present: seq<bool>
    var missed: bool
    /** The IN endpoint, and the packets sent. */
    var pipe: InPipe<byte>

    ghost function Model(): A.Machine
      reads this
    {
      A.Machine(currAddress, flash, timeout, bootMode)
    }

    /** What the host sends, and what usb_read_byte is going to return of it. */
    ghost function Input(): A.Wire
      reads this
    {
      A.Wire(Pending(out), present, missed)
    }

    ghost function Heard(): seq<byte>
      reads this
    {
      A.Heard(Input())
    }

    constructor (signature: A.Signature, flash: Flash, packets: seq<seq<byte>>, waits: seq<bool>)
      ensures this.signature == signature && Model() == A.Machine(0, flash, 0, 0)
      ensures Input() == A.Wire(Flat(packets), [], false) && pipe == NewPipe(waits)
    {
      this.signature := signature;
      currAddress, timeout, bootMode := 0, 0, 0;
      this.flash := flash;
      out, present, missed, pipe := OutStream([], packets), [], false, NewPipe(waits);
      new;
      assert Pending(out) == Flat(packets);
    }

    /** Whether the host has a byte; packets without data are passed over. */
    method UsbByteAvailable() returns (available: bool)
      modifies this`out
      ensures Pending(out) == old(Pending(out)) && available == (Pending(out) != []) == (out.bank != [])
    {
      while out.bank == [] && out.rest != []
        invariant Pending(out) == old(Pending(out))
        decreases |out.rest|
      {
        out := NextBank(out);
      }
      available := out.bank != [];
      assert available ==> Pending(out)[0] == out.bank[0];
    }

    /** The next byte of the host; 0 when it sends nothing more, or not before
        Timeout has run out. */
    method UsbReadByte() returns (b: byte)
      modifies this`out, this`present, this`missed
      ensures b == A.Head(old(Heard())) && Heard() == A.Tail(old(Heard()))
      ensures Input() == A.ReadOne(old(Input()))
    {
      hide A.Heard;
      A.HeardOne(Input());
      if present != [] {
        var there := present[0];
        present := present[1..];
        if !there {
          missed := true;
          return 0;
        }
      }
      b := NextByte();
    }

    method NextByte() returns (b: byte)
      modifies this`out
      ensures b == A.Head(old(Pending(out))) && Pending(out) == A.Tail(old(Pending(out)))
    {
      var available := UsbByteAvailable();
      if !available {
        return 0;
      }
      b := out.bank[0];
      ghost var pending := Pending(out);
      out := out.(bank := out.bank[1..]);
      assert pending == [b] + Pending(out);
    }

    /** A byte for the host; it is lost if the wait for a free bank is given up. */
    method UsbWriteByte(b: byte)
      modifies this`pipe
      ensures pipe == Put(old(pipe), b)
      ensures Regular(old(pipe)) ==>
                Regular(pipe) && (pipe.lost == old(pipe).lost <==> Sent(pipe) == Sent(old(pipe)) + [b])
    {
      hide Flat, SendBank;
      if Regular(pipe) {
        PutExact(pipe, b);
      }
      if !Writable(pipe) {
        FlushEndpoint();
      }
      pipe := Write(pipe, b);
    }

    method FlushEndpoint()
      modifies this`pipe
      ensures pipe == SendBank(old(pipe))
    {
      pipe := ClearIN(pipe);
      pipe := Wait(pipe);
    }

    method UsbFlush()
      modifies this`pipe
      ensures pipe == Flush(old(pipe))
      ensures Regular(old(pipe)) ==> Regular(pipe) && pipe.bank == [] && Flat(pipe.packets) == Sent(old(pipe))
    {
      hide Flat, SendBank;
      if Regular(pipe) {
        FlushCarries(pipe);
      }
      if !Loaded(pipe) {
        return;
      }
      if !Writable(pipe) {
        FlushEndpoint();
      }
      FlushEndpoint();
    }

    method WriteBytes(data: seq<byte>)
      modifies this`pipe
      ensures pipe == PutAll(old(pipe), data)
    {
      var i := 0;
      assert data[..0] == [];
      while i < |data|
        invariant 0 <= i <= |data| && pipe == PutAll(old(pipe), data[..i])
      {
        PutAllNext(old(pipe), data, i);
        UsbWriteByte(data[i]);
        i := i + 1;
      }
      assert data[..i] == data;
    }

    /** Sends `size` bytes of flash, from the current address on. */
    method ReadBlock(size: word)
      requires currAddress < 0x1_0000_0000
      modifies this`pipe, this`currAddress
      ensures pipe == PutAll(old(pipe), A.FlashBytes(flash, old(currAddress), size))
      ensures currAddress == A.Wrap32(old(currAddress) + A.Even(size))
    {
      hide OrBits, Mod, PutAll, Put, A.FlashBytes, A.Wrap32, A.Even, ReadByte;
      ghost var start, bytes := currAddress, A.FlashBytes(flash, currAddress, size);
      var blockSize, highByte := size, false;
      assert bytes[..0] == [];
      PutAllNone(pipe);
      A.WalkStart(start);
      while blockSize != 0
        invariant 0 <= blockSize <= size
        invariant highByte == A.IsHigh(size - blockSize)
        invariant currAddress == A.WordAt(start, size - blockSize)
        invariant pipe == PutAll(old(pipe), bytes[..size - blockSize])
      {
        ghost var i := size - blockSize;
        A.WalkStep(start, i);
        A.FlashBytesAt(flash, start, size, i);
        PutAllNext(old(pipe), bytes, i);
        blockSize := blockSize - 1;
        UsbWriteByte(ReadByte(flash, OrBits(currAddress, if highByte then 1 else 0, 32)));
        if highByte {
          currAddress := A.Wrap32(currAddress + 2);
        }
        highByte := !highByte;
      }
      assert bytes[..size] == bytes;
    }

    /** Receives `size` bytes and programs their words into the current page. */
    method WriteBlock(size: word)
      requires currAddress < 0x1_0000_0000
      modifies this`out, this`present, this`missed, this`flash, this`currAddress
      ensures var data := A.TakeBytes(old(Heard()), size);
              flash == A.ProgramBlock(old(flash), old(currAddress), data)
      ensures currAddress == A.Wrap32(old(currAddress) + A.Even(size))
      ensures Heard() == A.DropBytes(old(Heard()), size) && Input() == A.ReadMany(old(Input()), size)
    {
      hide A.Wrap32, A.Even, Fill, Erase, WritePage, A.TakeBytes, A.DropBytes, A.Heard, A.ReadOne;
      ghost var start, input := currAddress, Heard();
      var pageStart := currAddress;
      flash := Erase(flash, pageStart);
      ghost var goal := A.FillBlock(flash, pageStart, A.TakeBytes(input, size));
      var blockSize, highByte, lowByte := size, false, 0;
      A.WalkStart(start);
      A.DropNone(input);
      while blockSize != 0
        invariant 0 <= blockSize <= size && 0 <= lowByte < 0x100
        invariant highByte == A.IsHigh(size - blockSize)
        invariant currAddress == A.WordAt(start, size - blockSize)
        invariant Heard() == A.DropBytes(input, size - blockSize)
        invariant A.ReadMany(Input(), blockSize) == A.ReadMany(old(Input()), size)
        invariant goal == A.FillBlock(flash, currAddress,
                                      if highByte then [lowByte] + A.TakeBytes(Heard(), blockSize)
                                      else A.TakeBytes(Heard(), blockSize))
      {
        ghost var i, pending := size - blockSize, Heard();
        A.WalkStep(start, i);
        A.TakeNext(pending, blockSize);
        A.DropNext(input, i);
        blockSize := blockSize - 1;
        var b := UsbReadByte();
        if highByte {
          A.FillWord(flash, currAddress, lowByte, b, A.TakeBytes(Heard(), blockSize));
          flash := Fill(flash, currAddress, lowByte, b);
          currAddress := A.Wrap32(currAddress + 2);
        } else {
          lowByte := b;
        }
        highByte := !highByte;
      }
      A.FillEnd(flash, currAddress, highByte, lowByte, Heard());
      flash := WritePage(flash, pageStart);
    }

    /** ReadWriteMemoryBlock of the minimal build. */
    method ReadWriteMemoryBlock(write: bool)
      requires currAddress < 0x1_0000_0000
      modifies this`out, this`present, this`missed, this`pipe, this`flash, this`currAddress
      ensures var o := A.Block(write, old(Model()), old(Heard()));
              && Model() == o.m && pipe == PutAll(old(pipe), o.reply)
              && Input() == A.ReadMany(old(Input()), A.BlockReads(write, old(Heard())))
      ensures currAddress < 0x1_0000_0000
    {
      hide A.FlashBytes, A.ProgramBlock, A.Wrap32, A.Even, PutAll, Put, RwwEnable, A.TakeBytes, A.DropBytes, A.Heard,
           Word, A.Head, A.Tail, A.At, A.ReadOne, A.ReadMany;
      ghost var input := Heard();
      ghost var w := Input();
      var sizeHi := UsbReadByte();
      var sizeLo := UsbReadByte();
      var memoryType := UsbReadByte();
      var blockSize := Word(sizeHi, sizeLo);
      A.DropThree(input);
      A.HeaderAt(input);
      ThreeReads(w, 0);
      ghost var size: nat := blockSize;
      ThreeReads(w, size);
      PutAllOne(pipe, '?' as int);
      PutAllOne(pipe, A.CR);
      if memoryType != A.MEMORY_FLASH {
        UsbWriteByte('?' as int);
        return;
      }
      if !write {
        flash := RwwEnable(flash);
        ReadBlock(blockSize);
      } else {
        WriteBlock(blockSize);
        UsbWriteByte(A.CR);
      }
      A.WrapRange(old(currAddress) + A.Even(blockSize));
    }

    // ---- The command loop ----

    /** One turn of the command loop of AVR109_programmer. */
    method DoCommand()
      requires currAddress < 0x1_0000_0000 && Heard() != []
      modifies this
      ensures var o := A.Command(old(Model()), signature, old(Heard()));
              && Model() == o.m && pipe == Flush(PutAll(old(pipe), o.reply))
              && Input() == A.ReadMany(old(Input()), A.CommandReads(old(Heard())))
      ensures currAddress < 0x1_0000_0000
    {
      hide A.Block, PutAll, Put, Flush, RwwEnable, A.FixedReply, A.DecodeAddress, A.Heard, A.BlockReads, A.ReadOne, Pending;
      ghost var input, w := Heard(), Input();
      PutAllOne(pipe, A.CR);
      FewReads(w);
      var command := UsbReadByte();
      assert command == input[0] && Heard() == input[1..];
      if command == 'E' as int {
        timeout := 10;
        flash := RwwEnable(flash);
        UsbWriteByte(A.CR);
      } else if command == 'T' as int {
        var device := UsbReadByte();
        UsbWriteByte(A.CR);
      } else if command == 'A' as int {
        var hi := UsbReadByte();
        var lo := UsbReadByte();
        A.DecodeRange(hi, lo);
        currAddress := A.DecodeAddress(hi, lo);
        UsbWriteByte(A.CR);
      } else if command == 'B' as int || command == 'g' as int {
        timeout := A.AVR_PROGRAMMER_TIMEOUT;
        bootMode := A.BM_NORMAL_BOOT;
        OneRead(w, A.BlockReads(command == 'B' as int, input[1..]));
        ReadWriteMemoryBlock(command == 'B' as int);
      } else {
        WriteBytes(A.FixedReply(command, |flash.buf|, signature));
      }
      UsbFlush();
    }

    /** The command loop, as long as Timeout has not run out, over its turns: when the
        timer fires and which bytes are late is for them to say. The packets the host
        gets carry the replies, in order, exactly when no wait for a free bank was
        given up. */
    method Avr109Programmer(turns: seq<A.Turn>)
      requires currAddress < 0x1_0000_0000 && Regular(pipe) && pipe.bank == []
      modifies this
      ensures var o := A.TimedSession(old(Model()).(timeout := A.AVR_PROGRAMMER_TIMEOUT), signature, old(Pending(out)),
                                      turns);
              && Model() == o.m && Pending(out) == o.rest
              && Delivers(old(pipe), pipe, o.reply)
    {
      hide A.Command, PutAll, Flush, Flat, Delivers, A.Heard, A.ReadMany, A.CommandReads, Pending;
      timeout := A.AVR_PROGRAMMER_TIMEOUT;
      ghost var goal := A.TimedSession(Model(), signature, Pending(out), turns);
      ghost var replied := [];
      var turn := 0;
      DeliversNothing(pipe);
      assert turns[0..] == turns;
      while turn < |turns|
        invariant 0 <= turn <= |turns| && currAddress < 0x1_0000_0000
        invariant goal == Extended(replied, A.TimedSession(Model(), signature, Pending(out), turns[turn..]))
        invariant Delivers(old(pipe), pipe, replied)
      {
        ghost var before := Model();
        var ticks := turns[turn].ticks;
        timeout := if ticks < timeout then timeout - ticks else 0;
        assert Model() == A.Elapse(before, ticks);
        TimedTurn(before, signature, Pending(out), turns, turn, replied);
        if timeout == 0 {
          return;
        }
        var available := UsbByteAvailable();
        if available {
          present, missed := [true] + turns[turn].present, false;
          assert Input() == A.TurnWire(Pending(out), turns[turn]);
          A.HeardSomething(Pending(out), turns[turn]);
          ghost var o := A.Command(Model(), signature, Heard());
          DeliversMore(old(pipe), pipe, replied, o.reply);
          DoCommand();
          if missed {
            timeout := 0;
          }
          replied := replied + o.reply;
        }
        turn := turn + 1;
      }
      assert turns[turn..] == [];
      TimedOver(Model(), signature, Pending(out), replied);
    }
  }

  // ---- The command loop ----

  ghost function Extended(before: seq<byte>, o: A.Outcome): A.Outcome {
    o.(reply := before + o.reply)
  }

  /** The bytes of `data` reach the host, apart from as many as were lost, and in
      full exactly when none was; none is lost if it takes every packet in time. */
  ghost predicate Delivers(p: InPipe<byte>, q: InPipe<byte>, data: seq<byte>) {
    && Regular(q) && q.bank == [] && q.lost >= p.lost
    && |Flat(q.packets)| + q.lost == |Flat(p.packets)| + p.lost + |data|
    && (q.lost == p.lost <==> Flat(q.packets) == Flat(p.packets) + data)
    && (Served(p) ==> Served(q) && q.lost == p.lost)
  }

  lemma DeliversNothing(p: InPipe<byte>)
    requires Regular(p) && p.bank == []
    ensures Delivers(p, p, [])
  {
    assert Flat(p.packets) + [] == Flat(p.packets);
  }

  /** A reply flushed from an empty bank. */
  lemma ReplyDelivered(p: InPipe<byte>, reply: seq<byte>)
    requires Regular(p) && p.bank == []
    ensures Delivers(p, Flush(PutAll(p, reply)), reply)
  {
    hide PutAll, Flush, Served, Flat;
    PutAllExact(p, reply);
    var q := PutAll(p, reply);
    FlushCarries(q);
    var r := Flush(q);
    assert Flat(p.packets) + p.bank == Flat(p.packets);
    assert Flat(r.packets) + r.bank == Flat(r.packets);
  }

  lemma DeliversMore(p: InPipe<byte>, q: InPipe<byte>, data: seq<byte>, reply: seq<byte>)
    requires Delivers(p, q, data)
    ensures Delivers(p, Flush(PutAll(q, reply)), data + reply)
  {
    hide PutAll, Flush, Served, Flat;
    ReplyDelivered(q, reply);
    var r := Flush(PutAll(q, reply));
    assert Flat(p.packets) + (data + reply) == (Flat(p.packets) + data) + reply;
  }

  lemma TimedTurn(m: A.Machine, signature: A.Signature, bytes: seq<byte>, turns: seq<A.Turn>, turn: nat, before: seq<byte>)
    requires turn < |turns|
    ensures A.Heard(A.TurnWire(bytes, turns[turn])) != []
    ensures var e, whole := A.Elapse(m, turns[turn].ticks), A.TimedSession(m, signature, bytes, turns[turn..]);
            if e.timeout == 0 then Extended(before, whole) == A.Outcome(e, before, bytes)
            else if bytes == [] then whole == A.TimedSession(e, signature, bytes, turns[turn + 1..])
            else
              var o := A.Command(e, signature, A.Heard(A.TurnWire(bytes, turns[turn])));
              var left := A.TurnLeft(bytes, turns[turn]);
              Extended(before, whole)
                == Extended(before + o.reply,
                            A.TimedSession(A.Expire(o.m, left.missed), signature, left.bytes, turns[turn + 1..]))
  {
    hide A.Command, A.TurnWire, A.TurnLeft, A.Heard;
    A.HeardSomething(bytes, turns[turn]);
    var e := A.Elapse(m, turns[turn].ticks);
    assert turns[turn..][1..] == turns[turn + 1..];
    if e.timeout == 0 {
      assert before + [] == before;
    } else if bytes != [] {
      var o := A.Command(e, signature, A.Heard(A.TurnWire(bytes, turns[turn])));
      var left := A.TurnLeft(bytes, turns[turn]);
      var s := A.TimedSession(A.Expire(o.m, left.missed), signature, left.bytes, turns[turn + 1..]);
      assert before + (o.reply + s.reply) == (before + o.reply) + s.reply;
    }
  }

  lemma TimedOver(m: A.Machine, signature: A.Signature, input: seq<byte>, before: seq<byte>)
    ensures Extended(before, A.TimedSession(m, signature, input, [])) == A.Outcome(m, before, input)
  {
    assert before + [] == before;
  }

  // ---- Counting reads ----

  lemma OneRead(w: A.Wire, k: nat)
    ensures A.ReadMany(A.ReadOne(w), k) == A.ReadMany(w, 1 + k)
  {}

  lemma ThreeReads(w: A.Wire, k: nat)
    ensures A.ReadMany(A.ReadOne(A.ReadOne(A.ReadOne(w))), k) == A.ReadMany(w, 3 + k)
    ensures A.ReadMany(A.ReadOne(A.ReadOne(A.ReadOne(w))), 0) == A.ReadOne(A.ReadOne(A.ReadOne(w)))
  {
    hide A.ReadOne;
    OneRead(A.ReadOne(A.ReadOne(w)), k);
    OneRead(A.ReadOne(w), 1 + k);
    OneRead(w, 2 + k);
  }

  lemma FewReads(w: A.Wire)
    ensures A.ReadMany(w, 1) == A.ReadOne(w)
    ensures A.ReadMany(w, 2) == A.ReadOne(A.ReadOne(w))
    ensures A.ReadMany(w, 3) == A.ReadOne(A.ReadOne(A.ReadOne(w)))
  {
    hide A.ReadOne;
    OneRead(w, 0);
    OneRead(w, 1);
    OneRead(A.ReadOne(w), 0);
    ThreeReads(w, 0);
  }
}
