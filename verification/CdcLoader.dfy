/** The CDC class boot loader (Bootloaders/CDC/BootloaderCDC.c): its block routine
    turn by turn, the commands of CDC_Task, and the packets it takes them from.
    Where it is given the same commands as the AVR109 programmer of the Adelino
    boot loader, it gives the same replies and leaves the same flash. */
module CdcLoader {
  import opened Bytes
  import opened FlashMemory
  import opened UsbEndpoint
  import opened UsbTransfer
  import A = Avr109

  const CR: byte := 13
  const ESC: byte := 27
  const FLASH: byte := 'F' as int
  const EEPROM: byte := 'E' as int

  type Eeprom = s: seq<byte> | |s| > 0 witness [0]

  /** CurrAddress, the memories, the lock bits and RunBootloader. */
  datatype Device = Device(addr: nat, flash: Flash, eeprom: Eeprom, lock: byte, running: bool)

  /** The part: where the boot section starts, the signature, and
      the low, high and extended fuses. */
  datatype Part = Part(bootStart: nat, signature: A.Signature, low: byte, high: byte, extended: byte)

  /** What a command leaves: the device, the reply, and how often
      FetchNextCommandByte was called. */
  datatype Done = Done(d: Device, reply: seq<byte>, fetched: nat)

  // ---- The block routine ----

  datatype Read = Read(d: Device, reply: seq<byte>)

  function EepromIndex(d: Device): (i: nat)
    ensures i < |d.eeprom|
  {
    Mod(d.addr / 2, |d.eeprom|)
  }

  function Advance(d: Device): Device {
    d.(addr := A.Wrap32(d.addr + 2))
  }

  /** The turns of the read loop, each of which tests the memory type. */
  function ReadTurns(memory: byte, d: Device, highByte: bool, blockSize: nat): Read
    decreases blockSize
  {
    if blockSize == 0 then Read(d, [])
    else if memory == FLASH then
      var b := ReadByte(d.flash, OrBits(d.addr, if highByte then 1 else 0, 32));
      var r := ReadTurns(memory, if highByte then Advance(d) else d, !highByte, blockSize - 1);
      Read(r.d, [b] + r.reply)
    else
      var b := d.eeprom[EepromIndex(d)];
      var r := ReadTurns(memory, Advance(d), highByte, blockSize - 1);
      Read(r.d, [b] + r.reply)
  }

  /** The turns of the write loop, each of which tests the memory type. */
  function WriteTurns(memory: byte, d: Device, highByte: bool, lowByte: byte, input: seq<byte>, blockSize: nat): Device
    decreases blockSize
  {
    if blockSize == 0 then d
    else
      var b, rest := A.Head(input), A.Tail(input);
      if memory == FLASH then
        if highByte then
          WriteTurns(memory, Advance(d.(flash := Fill(d.flash, d.addr, lowByte, b))), false, lowByte, rest, blockSize - 1)
        else WriteTurns(memory, d, true, b, rest, blockSize - 1)
      else
        WriteTurns(memory, Advance(d.(eeprom := d.eeprom[EepromIndex(d) := b])), highByte, lowByte, rest, blockSize - 1)
  }

  /** ReadWriteMemoryBlock. */
  function Block(write: bool, d: Device, input: seq<byte>): Done {
    var size := Word(A.Head(input), A.Head(A.Tail(input)));
    var memory := A.Head(A.Tail(A.Tail(input)));
    if memory != EEPROM && memory != FLASH then Done(d, ['?' as int], 3)
    else if !write then
      var r := ReadTurns(memory, d.(flash := RwwEnable(d.flash)), false, size);
      Done(r.d, r.reply, 3)
    else
      var e := if memory == FLASH then d.(flash := Erase(d.flash, d.addr)) else d;
      var w := WriteTurns(memory, e, false, 0, A.DropBytes(input, 3), size);
      Done(if memory == FLASH then w.(flash := WritePage(w.flash, d.addr)) else w, [CR], 3 + size)
  }

  // ---- The commands ----

  /** Replies that change nothing; none for a command that is not of this kind. */
  function Answer(part: Part, d: Device, c: byte): seq<byte> {
    if c == 'L' as int || c == 'P' as int then [CR]
    else if c == 't' as int then [0x44, 0x00]
    else if c == 'a' as int then ['Y' as int]
    else if c == 'p' as int then ['S' as int]
    else if c == 'S' as int then A.Text("LUFACDC")
    else if c == 'V' as int then ['1' as int, '0' as int]
    else if c == 's' as int then [part.signature[2], part.signature[1], part.signature[0]]
    else if c == 'r' as int then [d.lock]
    else if c == 'F' as int then [part.low]
    else if c == 'N' as int then [part.high]
    else if c == 'Q' as int then [part.extended]
    else if c == 'b' as int then ['Y' as int, |d.flash.buf| / 0x100 % 0x100, |d.flash.buf| % 0x100]
    else if c == 'R' as int then [ReadByte(d.flash, d.addr + 1), ReadByte(d.flash, d.addr)]
    else if c == ESC then []
    else ['?' as int]
  }

  /** CDC_Task, from the command byte to the last byte of the reply. */
  function Command(part: Part, d: Device, input: seq<byte>): Done {
    var c, rest := A.Head(input), A.Tail(input);
    var b := A.Head(rest);
    if c == 'E' as int then Done(d.(running := false), [CR], 1)
    else if c == 'T' as int then Done(d, [CR], 2)
    else if c == 'A' as int then Done(d.(addr := A.DecodeAddress(b, A.Head(A.Tail(rest)))), [CR], 3)
    else if c == 'e' as int then Done(d.(flash := EraseFrom(d.flash, 0, part.bootStart)), [CR], 1)
    else if c == 'l' as int then Done(d.(lock := And(d.lock, 0xFF - b)), [CR], 2)
    else if c == 'B' as int || c == 'g' as int then
      var o := Block(c == 'B' as int, d, rest);
      Done(o.d, o.reply, 1 + o.fetched)
    else if c == 'C' as int then Done(d.(flash := Fill(d.flash, d.addr, b, 0)), [CR], 2)
    else if c == 'c' as int then
      Done(Advance(d.(flash := Fill(d.flash, OrBits(d.addr, 1, 32), b, 0))), [CR], 2)
    else if c == 'm' as int then Done(d.(flash := WritePage(d.flash, d.addr)), [CR], 1)
    else if c == 'D' as int then Done(Advance(d.(eeprom := d.eeprom[EepromIndex(d) := b])), [CR], 2)
    else if c == 'd' as int then Done(Advance(d), [d.eeprom[EepromIndex(d)]], 1)
    else Done(d, Answer(part, d, c), 1)
  }

  // ---- The packets of the host ----

  /** One call of FetchNextCommandByte: empty packets are passed over. */
  function AfterFetch(s: OutStream): OutStream
    decreases |s.rest|
  {
    if s.bank != [] then s.(bank := s.bank[1..])
    else if s.rest == [] then s
    else AfterFetch(NextBank(s))
  }

  function AfterFetches(s: OutStream, k: nat): OutStream
    decreases k
  {
    if k == 0 then s else AfterFetches(AfterFetch(s), k - 1)
  }

  datatype Turn = Turn(d: Device, reply: seq<byte>, out: OutStream)

  /** CDC_Task. What is left of the packet that held the last byte of the command
      is dropped by the Endpoint_ClearOUT at its end. */
  function Task(part: Part, d: Device, s: OutStream): Turn {
    if s == OutStream([], []) then Turn(d, [], s)
    else
      var o := Command(part, d, Pending(s));
      Turn(o.d, o.reply, OutStream([], AfterFetches(s, o.fetched).rest))
  }

  /** The end of CDC_Task: the bank is sent even when it is empty, and an empty
      packet follows a full one. */
  function EndReply(p: InPipe<byte>): InPipe<byte> {
    if Writable(p) then SendBank(p)
    else
      var q := SendBank(p);
      if q.busy then q else SendBank(q)
  }

  /** Each task answers with one transfer, empty or not. */
  lemma {:induction false} ReplyIsOneTransfer(p: InPipe<byte>, reply: seq<byte>)
    requires Served(p) && p.bank == []
    ensures var q := EndReply(PutAll(p, reply));
            Served(q) && q.bank == [] && q.lost == p.lost && q.packets == p.packets + Transfer(reply)
    decreases |reply|
  {
    hide SendBank, Transfer;
    if |reply| <= CDC_TXRX_EPSIZE {
      PutAllFits(p, reply);
      assert [] + reply == reply;
      var full := p.(bank := reply);
      SendServed(full);
      SendServed(SendBank(full));
      TransferOfBank(p.packets, reply);
    } else {
      var first, rest := reply[..CDC_TXRX_EPSIZE], reply[CDC_TXRX_EPSIZE..];
      assert reply == first + rest;
      PutAllAppend(p, first, rest);
      PutAllFits(p, first);
      assert [] + first == first;
      var full := p.(bank := first);
      PutOnFullBank(full, rest[0]);
      var r := SendBank(full);
      assert PutAll(full, rest) == PutAll(r, rest);
      SendServed(full);
      ReplyIsOneTransfer(r, rest);
      assert Transfer(reply) == [first] + Transfer(rest) by { TransferStep(reply); }
      assert (p.packets + [first]) + Transfer(rest) == p.packets + Transfer(reply);
    }
  }

  lemma TransferStep(data: seq<byte>)
    requires |data| >= CDC_TXRX_EPSIZE
    ensures Transfer(data) == [data[..CDC_TXRX_EPSIZE]] + Transfer(data[CDC_TXRX_EPSIZE..])
  {}

  /** At most n turns of the main loop. */
  function Tasks(part: Part, d: Device, s: OutStream, n: nat): Turn
    decreases n
  {
    if n == 0 || !d.running then Turn(d, [], s)
    else
      var t := Task(part, d, s);
      var u := Tasks(part, t.d, t.out, n - 1);
      Turn(u.d, t.reply + u.reply, u.out)
  }

  // ---- Tasks whose replies the host may not take ----

  /** The endpoints: `held` says that the current packet is not acknowledged yet. */
  datatype Io = Io(out: OutStream, held: bool, pipe: InPipe<byte>)

  datatype Turned = Turned(d: Device, io: Io)

  /** CDC_Task with both endpoints. A device that is detached before the reply has
      left does not acknowledge the packet. */
  function FullTask(part: Part, d: Device, io: Io): Turned {
    if !io.held && io.out == OutStream([], []) then Turned(d, io)
    else
      var o := Command(part, d, Pending(io.out));
      var q := EndReply(PutAll(io.pipe, o.reply));
      var s := AfterFetches(io.out, o.fetched);
      Turned(o.d, if q.busy then Io(s, true, q) else Io(OutStream([], s.rest), false, q))
  }

  function FullTasks(part: Part, d: Device, io: Io, n: nat): Turned
    decreases n
  {
    if n == 0 || !d.running then Turned(d, io)
    else
      var t := FullTask(part, d, io);
      FullTasks(part, t.d, t.io, n - 1)
  }

  lemma ServedTask(part: Part, d: Device, io: Io)
    requires Served(io.pipe) && io.pipe.bank == [] && !io.held
    ensures var u, t := FullTask(part, d, io), Task(part, d, io.out);
            && u.d == t.d && u.io.out == t.out && !u.io.held && Served(u.io.pipe) && u.io.pipe.bank == []
            && Flat(u.io.pipe.packets) == Flat(io.pipe.packets) + t.reply
  {
    hide Command, PutAll, EndReply, Flat, AfterFetches, Transfer;
    var reply := Task(part, d, io.out).reply;
    ReplyIsOneTransfer(io.pipe, reply);
    TransferCarries(reply);
    FlatAppend(io.pipe.packets, Transfer(reply));
    assert Flat(io.pipe.packets) + [] == Flat(io.pipe.packets);
  }

  /** While the host takes every packet in time these are the tasks, and the packets
      carry their replies, in order. */
  lemma {:induction false} ServedTasks(part: Part, d: Device, io: Io, n: nat)
    requires Served(io.pipe) && io.pipe.bank == [] && !io.held
    ensures var u, t := FullTasks(part, d, io, n), Tasks(part, d, io.out, n);
            && u.d == t.d && u.io.out == t.out && !u.io.held && Served(u.io.pipe) && u.io.pipe.bank == []
            && Flat(u.io.pipe.packets) == Flat(io.pipe.packets) + t.reply
    decreases n
  {
    hide FullTask, Task, Served, Flat;
    if n > 0 && d.running {
      ServedTask(part, d, io);
      var u, t := FullTask(part, d, io), Task(part, d, io.out);
      ServedTasks(part, u.d, u.io, n - 1);
      var rest := Tasks(part, t.d, t.out, n - 1);
      assert (Flat(io.pipe.packets) + t.reply) + rest.reply == Flat(io.pipe.packets) + (t.reply + rest.reply);
    } else {
      assert Flat(io.pipe.packets) + [] == Flat(io.pipe.packets);
    }
  }

  // ---- The turns of a block, in closed form ----

  /** The flash read loop, from its i-th turn on. */
  lemma {:induction false} ReadFlashTurns(d: Device, start: nat, n: nat, i: nat)
    requires i <= n && d.addr == A.WordAt(start, i)
    ensures var r := ReadTurns(FLASH, d, A.IsHigh(i), n - i);
            r.d == d.(addr := A.WordAt(start, n)) && r.reply == A.FlashBytes(d.flash, start, n)[i..]
    decreases n - i
  {
    hide OrBits, Mod, A.FlashBytes, A.Wrap32, A.Even, A.WordAt, A.IsHigh, ReadByte;
    if i < n {
      A.WalkStep(start, i);
      A.FlashBytesAt(d.flash, start, n, i);
      ReadFlashTurns(if A.IsHigh(i) then Advance(d) else d, start, n, i + 1);
      var bytes := A.FlashBytes(d.flash, start, n);
      assert bytes[i..] == [bytes[i]] + bytes[i + 1..];
    }
  }

  /** The EEPROM bytes that the words from an address on select. */
  function EepromBytes(e: Eeprom, addr: nat, n: nat): (r: seq<byte>)
    ensures |r| == n
  {
    seq<byte>(n, i requires 0 <= i < n => e[Mod(A.Wrap32(addr + 2 * i) / 2, |e|)])
  }

  /** The EEPROM read loop, from its i-th turn on. */
  lemma {:induction false} ReadEepromTurns(d: Device, highByte: bool, start: nat, n: nat, i: nat)
    requires i <= n && d.addr == A.Wrap32(start + 2 * i)
    ensures var r := ReadTurns(EEPROM, d, highByte, n - i);
            r.d == d.(addr := A.Wrap32(start + 2 * n)) && r.reply == EepromBytes(d.eeprom, start, n)[i..]
    decreases n - i
  {
    hide Mod, A.Wrap32;
    if i < n {
      A.WrapTwice(start + 2 * i);
      ReadEepromTurns(Advance(d), highByte, start, n, i + 1);
      var bytes := EepromBytes(d.eeprom, start, n);
      assert bytes[i..] == [bytes[i]] + bytes[i + 1..];
    }
  }

  /** The flash write loop: the words of the low byte at hand and of the input. */
  lemma {:induction false} WriteFlashTurns(d: Device, highByte: bool, lowByte: byte, input: seq<byte>, n: nat)
    requires d.addr < 0x1_0000_0000
    ensures var w := WriteTurns(FLASH, d, highByte, lowByte, input, n);
            var data := (if highByte then [lowByte] else []) + A.TakeBytes(input, n);
            && w.flash == A.FillBlock(d.flash, d.addr, data)
            && w == d.(flash := w.flash, addr := A.Wrap32(d.addr + A.Even(|data|)))
    decreases n
  {
    hide Fill, A.TakeBytes, A.Wrap32, A.Even;
    var data := (if highByte then [lowByte] else []) + A.TakeBytes(input, n);
    if n == 0 {
      A.FillEnd(d.flash, d.addr, highByte, lowByte, input);
      A.EvenExact(|data|);
      WrapSmall(d.addr);
    } else {
      var b, rest := A.Head(input), A.Tail(input);
      A.TakeNext(input, n);
      if highByte {
        var more := A.TakeBytes(rest, n - 1);
        A.FillWord(d.flash, d.addr, lowByte, b, more);
        assert data == [lowByte] + ([b] + more);
        A.WrapRange(d.addr + 2);
        WriteFlashTurns(Advance(d.(flash := Fill(d.flash, d.addr, lowByte, b))), false, lowByte, rest, n - 1);
        assert [] + more == more;
        EvenTwo(d.addr, |more|);
      } else {
        WriteFlashTurns(d, true, b, rest, n - 1);
        assert [] + A.TakeBytes(input, n) == [b] + A.TakeBytes(rest, n - 1);
      }
    }
  }

  lemma WrapSmall(x: nat)
    requires x < 0x1_0000_0000
    ensures A.Wrap32(x) == x
  {}

  lemma EvenTwo(addr: nat, n: nat)
    ensures A.Wrap32(A.Wrap32(addr + 2) + A.Even(n)) == A.Wrap32(addr + A.Even(n + 2))
  {
    A.EvenExact(n);
    A.EvenExact(n + 2);
    WrapSum(addr + 2, A.Even(n));
  }

  lemma WrapSum(x: nat, k: nat)
    ensures A.Wrap32(A.Wrap32(x) + k) == A.Wrap32(x + k)
  {
    var m, y := 0x1_0000_0000, x % 0x1_0000_0000 + k;
    RemainderUnique(x + k, m, x / m + y / m, y % m);
  }

  function EepromStore(e: Eeprom, addr: nat, data: seq<byte>): (r: Eeprom)
    ensures |r| == |e|
    decreases |data|
  {
    if data == [] then e
    else EepromStore(e[Mod(addr / 2, |e|) := data[0]], A.Wrap32(addr + 2), data[1..])
  }

  /** The EEPROM write loop. */
  lemma {:induction false} WriteEepromTurns(d: Device, highByte: bool, lowByte: byte, input: seq<byte>, n: nat)
    requires d.addr < 0x1_0000_0000
    ensures WriteTurns(EEPROM, d, highByte, lowByte, input, n)
         == d.(eeprom := EepromStore(d.eeprom, d.addr, A.TakeBytes(input, n)), addr := A.Wrap32(d.addr + 2 * n))
    decreases n
  {
    hide Mod, A.TakeBytes, A.Wrap32;
    if n == 0 {
      WrapSmall(d.addr);
    } else {
      A.TakeNext(input, n);
      var data := A.TakeBytes(input, n);
      assert data[1..] == A.TakeBytes(A.Tail(input), n - 1);
      A.WrapRange(d.addr + 2);
      WrapSum(d.addr + 2, 2 * (n - 1));
      WriteEepromTurns(Advance(d.(eeprom := d.eeprom[EepromIndex(d) := A.Head(input)])), highByte, lowByte,
                       A.Tail(input), n - 1);
    }
  }

  // ---- Two boot loaders, one protocol ----

  /** Same address and same flash. */
  predicate Alike(d: Device, m: A.Machine) {
    d.addr == m.addr < 0x1_0000_0000 && d.flash == m.flash
  }

  lemma FlashReadAgrees(d: Device, n: nat)
    requires d.addr < 0x1_0000_0000
    ensures ReadTurns(FLASH, d, false, n)
         == Read(d.(addr := A.Wrap32(d.addr + A.Even(n))), A.FlashBytes(d.flash, d.addr, n))
  {
    hide A.FlashBytes, A.Wrap32, A.Even, ReadTurns;
    A.WalkStart(d.addr);
    ReadFlashTurns(d, d.addr, n, 0);
  }

  lemma FlashWriteAgrees(d: Device, input: seq<byte>, n: nat)
    requires d.addr < 0x1_0000_0000
    ensures var w := WriteTurns(FLASH, d.(flash := Erase(d.flash, d.addr)), false, 0, input, n);
            var data := A.TakeBytes(input, n);
            w.(flash := WritePage(w.flash, d.addr))
              == d.(flash := A.ProgramBlock(d.flash, d.addr, data), addr := A.Wrap32(d.addr + A.Even(n)))
  {
    hide A.FillBlock, A.TakeBytes, A.Wrap32, A.Even, WriteTurns, Erase, WritePage;
    WriteFlashTurns(d.(flash := Erase(d.flash, d.addr)), false, 0, input, n);
    assert [] + A.TakeBytes(input, n) == A.TakeBytes(input, n);
  }

  /** The block routines of the two programs, on any input: same reply, same
      address, same flash and same bytes consumed, and no change to the EEPROM,
      exactly when the block is not for the EEPROM. */
  lemma BlocksAgree(write: bool, d: Device, m: A.Machine, input: seq<byte>)
    requires Alike(d, m)
    ensures var o, p := Block(write, d, input), A.Block(write, m, input);
            var agree := Alike(o.d, p.m) && o.reply == p.reply && A.DropBytes(input, o.fetched) == p.rest;
            && (agree <==> A.Head(A.Tail(A.Tail(input))) != EEPROM)
            && (agree ==> o.d == d.(addr := o.d.addr, flash := o.d.flash))
  {
    hide A.FlashBytes, A.ProgramBlock, A.Wrap32, A.Even, ReadTurns, WriteTurns, RwwEnable, Erase, WritePage, Word,
         A.TakeBytes;
    var size: nat := Word(A.Head(input), A.Head(A.Tail(input)));
    var memory := A.Head(A.Tail(A.Tail(input)));
    var e := d.(flash := RwwEnable(d.flash));
    A.WrapRange(d.addr + A.Even(size));
    if memory == FLASH {
      FlashReadAgrees(e, size);
      FlashWriteAgrees(d, A.DropBytes(input, 3), size);
      A.DropSum(input, 3, size);
    } else if memory == EEPROM && !write {
      EepromReadDiffers(e, size);
    }
  }

  /** An EEPROM read never looks like a refusal: it answers with other than one
      byte or it moves the address. */
  lemma EepromReadDiffers(d: Device, n: nat)
    requires d.addr < 0x1_0000_0000
    ensures var r := ReadTurns(EEPROM, d, false, n); |r.reply| != 1 || r.d.addr != d.addr
  {
    hide ReadTurns;
    ReadEepromTurns(d, false, d.addr, n, 0);
  }

  /** The commands on which the two programs are meant to agree: the replies to
      'S' and to commands that only one of them has are their own, and 'E' leaves
      this program at once. */
  predicate Shared(op: A.Op) {
    match op
    case WriteFlash(hi, lo, data) => |data| == Word(hi, lo)
    case Leave => false
    case Query(c) => c !in {65, 66, 67, 68, 69, 70, 78, 81, 82, 83, 84, 99, 100, 101, 103, 108, 109, 114}
    case _ => true
  }

  /** The effect and reply of a shared command, and its length. */
  predicate Agree(part: Part, d: Device, m: A.Machine, op: A.Op, tail: seq<byte>) {
    var o, p := Command(part, d, A.Encode(op) + tail), A.Command(m, part.signature, A.Encode(op) + tail);
    && Alike(o.d, p.m) && o.d == d.(addr := o.d.addr, flash := o.d.flash)
    && o.reply == p.reply && o.fetched == |A.Encode(op)| && p.rest == tail
  }

  lemma BlockInput(hi: byte, lo: byte, data: seq<byte>, tail: seq<byte>)
    ensures var input := [hi, lo, FLASH] + (data + tail);
            && A.Head(input) == hi && A.Head(A.Tail(input)) == lo && A.Head(A.Tail(A.Tail(input))) == FLASH
            && A.DropBytes(input, 3 + |data|) == tail
  {
    var input := [hi, lo, FLASH] + (data + tail);
    assert input[1..][1..] == [FLASH] + (data + tail);
  }

  /** 'B' and 'g' in both programs. */
  lemma BlockCommands(part: Part, d: Device, m: A.Machine, write: bool, whole: seq<byte>, input: seq<byte>)
    requires whole != [] && whole[0] == (if write then 'B' else 'g') as int && A.Tail(whole) == input
    ensures var o := Block(write, d, input); Command(part, d, whole) == Done(o.d, o.reply, 1 + o.fetched)
    ensures A.Command(m, part.signature, whole)
         == A.Block(write, m.(timeout := A.AVR_PROGRAMMER_TIMEOUT, bootMode := A.BM_NORMAL_BOOT), input)
  {
    hide Block, A.Block, A.FixedReply, Answer, A.DecodeAddress, Fill, WritePage, EraseFrom, And, OrBits, EepromIndex;
  }

  /** The bytes of a block command. */
  lemma BlockEncoded(op: A.Op, data: seq<byte>, tail: seq<byte>)
    requires op.WriteFlash? || op.ReadFlash?
    requires data == if op.WriteFlash? then op.data else []
    ensures var whole := A.Encode(op) + tail;
            && |A.Encode(op)| == 4 + |data| && whole[0] == (if op.WriteFlash? then 'B' else 'g') as int
            && A.Tail(whole) == [op.sizeHi, op.sizeLo, FLASH] + (data + tail)
  {}

  lemma BlockCommandAgrees(part: Part, d: Device, m: A.Machine, op: A.Op, tail: seq<byte>)
    requires Alike(d, m) && Shared(op) && (op.WriteFlash? || op.ReadFlash?)
    ensures Agree(part, d, m, op, tail)
  {
    hide Block, A.Block, Word, A.DropBytes, Command, A.Command, A.Head, A.Tail, A.Encode;
    var data := if op.WriteFlash? then op.data else [];
    var input := [op.sizeHi, op.sizeLo, FLASH] + (data + tail);
    var whole := A.Encode(op) + tail;
    BlockEncoded(op, data, tail);
    BlockInput(op.sizeHi, op.sizeLo, data, tail);
    BlockCommands(part, d, m, op.WriteFlash?, whole, input);
    BlocksAgree(op.WriteFlash?, d, m.(timeout := A.AVR_PROGRAMMER_TIMEOUT, bootMode := A.BM_NORMAL_BOOT), input);
    BlockFetches(op.WriteFlash?, d, input);
  }

  lemma BlockFetches(write: bool, d: Device, input: seq<byte>)
    ensures Block(write, d, input).fetched
         == 3 + if write && A.Head(A.Tail(A.Tail(input))) in {EEPROM, FLASH} then Word(A.Head(input), A.Head(A.Tail(input))) else 0
  {
    hide ReadTurns, WriteTurns, Word, A.DropBytes, Erase, WritePage, RwwEnable;
  }

  lemma SelectAgrees(part: Part, d: Device, m: A.Machine, op: A.Op, tail: seq<byte>)
    requires Alike(d, m) && op.SelectDevice?
    ensures Agree(part, d, m, op, tail)
  {
    hide Block, A.Block, Word, A.DecodeAddress, A.FixedReply, Answer;
    assert (A.Encode(op) + tail)[1..] == [op.device] + tail;
  }

  lemma AddressAgrees(part: Part, d: Device, m: A.Machine, op: A.Op, tail: seq<byte>)
    requires Alike(d, m) && op.SetAddress?
    ensures Agree(part, d, m, op, tail)
  {
    hide Block, A.Block, Word, A.DecodeAddress, A.FixedReply, Answer, Fill, WritePage, EraseFrom, And, OrBits, EepromIndex;
    var whole, rest := A.Encode(op) + tail, [op.hi, op.lo] + tail;
    assert whole[0] == 'A' as int && whole[1..] == rest;
    assert A.Head(rest) == op.hi && A.Tail(rest) == [op.lo] + tail && A.Head(A.Tail(rest)) == op.lo;
    assert A.DropBytes(rest, 2) == tail;
    A.DecodeRange(op.hi, op.lo);
  }

  lemma QueryAgrees(part: Part, d: Device, m: A.Machine, op: A.Op, tail: seq<byte>)
    requires Alike(d, m) && Shared(op) && op.Query?
    ensures Agree(part, d, m, op, tail)
  {
    hide Block, A.Block, Word, A.DecodeAddress;
    assert (A.Encode(op) + tail)[1..] == tail;
    assert A.FixedReply(op.c, |d.flash.buf|, part.signature) == Answer(part, d, op.c);
  }

  lemma CommandsAgree(part: Part, d: Device, m: A.Machine, op: A.Op, tail: seq<byte>)
    requires Alike(d, m) && Shared(op)
    ensures Agree(part, d, m, op, tail)
  {
    hide Agree;
    match op {
      case WriteFlash(_, _, _) => BlockCommandAgrees(part, d, m, op, tail);
      case ReadFlash(_, _) => BlockCommandAgrees(part, d, m, op, tail);
      case Query(_) => QueryAgrees(part, d, m, op, tail);
      case SelectDevice(_) => SelectAgrees(part, d, m, op, tail);
      case SetAddress(_, _) => AddressAgrees(part, d, m, op, tail);
      case Leave => assert false;
    }
  }

  // ---- Commands in packets ----

  lemma {:induction false} FetchPending(s: OutStream)
    ensures Pending(AfterFetch(s)) == A.Tail(Pending(s))
    decreases |s.rest|
  {
    if s.bank == [] && s.rest != [] {
      assert Pending(NextBank(s)) == Pending(s);
      FetchPending(NextBank(s));
    }
  }

  lemma {:induction false} FetchesPending(s: OutStream, k: nat)
    ensures Pending(AfterFetches(s, k)) == A.DropBytes(Pending(s), k)
    decreases k
  {
    hide Pending;
    if k > 0 {
      FetchPending(s);
      FetchesPending(AfterFetch(s), k - 1);
    }
  }

  /** Packets that come later do not matter to a byte that is there. */
  lemma {:induction false} FetchLocal(s: OutStream, later: seq<seq<byte>>)
    requires Pending(s) != []
    ensures AfterFetch(s.(rest := s.rest + later)) == AfterFetch(s).(rest := AfterFetch(s).rest + later)
    decreases |s.rest|
  {
    if s.bank == [] {
      var t := s.(rest := s.rest + later);
      assert NextBank(t) == NextBank(s).(rest := NextBank(s).rest + later);
      assert Pending(NextBank(s)) == Pending(s);
      FetchLocal(NextBank(s), later);
    }
  }

  lemma {:induction false} FetchesLocal(s: OutStream, later: seq<seq<byte>>, k: nat)
    requires k <= |Pending(s)|
    ensures AfterFetches(s.(rest := s.rest + later), k) == AfterFetches(s, k).(rest := AfterFetches(s, k).rest + later)
    decreases k
  {
    hide Pending, AfterFetch;
    if k > 0 {
      FetchLocal(s, later);
      FetchPending(s);
      FetchesLocal(AfterFetch(s), later, k - 1);
    }
  }

  /** A command that fills its packets to the end, however it is cut into packets:
      at most empty packets are left of them. */
  lemma TaskOnFrame(part: Part, d: Device, frame: seq<seq<byte>>, later: seq<seq<byte>>) returns (left: seq<seq<byte>>)
    requires Flat(frame) != []
    requires Command(part, d, Flat(frame) + Flat(later)).fetched == |Flat(frame)|
    ensures Flat(left) == []
    ensures var o := Command(part, d, Flat(frame) + Flat(later));
            Task(part, d, OutStream([], frame + later)) == Turn(o.d, o.reply, OutStream([], left + later))
  {
    hide Command, AfterFetches;
    var k := |Flat(frame)|;
    var s := OutStream([], frame);
    FlatAppend(frame, later);
    assert [] + Flat(frame) == Flat(frame) && [] + Flat(frame + later) == Flat(frame + later);
    FetchesLocal(s, later, k);
    FetchesPending(s, k);
    left := AfterFetches(s, k).rest;
    assert frame + later != [];
  }

  /** One packetisation of a script: the packets of each command. */
  predicate Framed(frames: seq<seq<seq<byte>>>, script: seq<A.Op>) {
    |frames| == |script| && forall i :: 0 <= i < |script| ==> Flat(frames[i]) == A.Encode(script[i])
  }

  predicate SharedScript(script: seq<A.Op>) {
    forall i :: 0 <= i < |script| ==> Shared(script[i])
  }

  /** For every script of shared commands, whatever its sizes, addresses and data,
      and for every way of cutting each command into packets: this boot loader
      replies what the Adelino boot loader replies, and leaves the same flash and
      address; the EEPROM and the lock bits are untouched. `left` stands for empty
      packets of a command before. */
  lemma {:induction false} SessionsAgree(part: Part, d: Device, m: A.Machine, script: seq<A.Op>,
                                         left: seq<seq<byte>>, frames: seq<seq<seq<byte>>>)
    requires Alike(d, m) && d.running && SharedScript(script) && Framed(frames, script) && Flat(left) == []
    ensures var t := Tasks(part, d, OutStream([], left + Flat(frames)), |script|);
            var s := A.Session(m, part.signature, A.EncodeAll(script), |script|);
            && t.reply == s.reply && Alike(t.d, s.m) && t.d == d.(addr := t.d.addr, flash := t.d.flash)
            && Pending(t.out) == s.rest == []
    decreases |script|
  {
    hide Command, A.Command, Shared, A.Encode, Task, Alike;
    if script == [] {
      assert left + Flat(frames) == left;
    } else {
      var op, tail := script[0], A.EncodeAll(script[1..]);
      var frame, later := left + frames[0], Flat(frames[1..]);
      FlatAppend(left, frames[0]);
      assert [] + Flat(frames[0]) == A.Encode(op);
      FramesEncode(frames[1..], script[1..]);
      CommandsAgree(part, d, m, op, tail);
      var after := TaskOnFrame(part, d, frame, later);
      assert left + Flat(frames) == frame + later;
      SessionsAgree(part, Command(part, d, A.Encode(op) + tail).d,
                    A.Command(m, part.signature, A.Encode(op) + tail).m, script[1..], after, frames[1..]);
    }
  }

  lemma {:induction false} FramesEncode(frames: seq<seq<seq<byte>>>, script: seq<A.Op>)
    requires Framed(frames, script)
    ensures Flat(Flat(frames)) == A.EncodeAll(script)
    decreases |script|
  {
    hide A.Encode;
    if script != [] {
      FramesEncode(frames[1..], script[1..]);
      FlatAppend(frames[0], Flat(frames[1..]));
    }
  }

  /** So a script that keeps to the protocol shows the host the plain memory. */
  lemma LegalSessionsRefine(part: Part, d: Device, p: A.Plain, script: seq<A.Op>, frames: seq<seq<seq<byte>>>)
    requires d.running && d.addr == 2 * p.word && A.Refines(A.Machine(d.addr, d.flash, 0, 0), p)
    requires A.LegalScript(p, |d.flash.buf|, part.signature, script)
    requires SharedScript(script) && Framed(frames, script)
    ensures var t := Tasks(part, d, OutStream([], Flat(frames)), |script|);
            var s := A.PlainSession(p, |d.flash.buf|, part.signature, script);
            t.reply == s.reply && t.d.flash.mem == s.p.mem && t.d.addr == 2 * s.p.word
  {
    hide Tasks, A.Session, A.PlainSession, A.LegalScript, A.EncodeAll;
    var m := A.Machine(d.addr, d.flash, 0, 0);
    SessionsAgree(part, d, m, script, [], frames);
    assert [] + Flat(frames) == Flat(frames);
    A.SessionRefines(m, p, part.signature, script, []);
    assert A.EncodeAll(script) + [] == A.EncodeAll(script);
  }

  /** k bytes end a packet, or go beyond all of them. */
  predicate EndsPacket(s: OutStream, k: nat) {
    k > |Pending(s)| || exists j :: 0 <= j <= |s.rest| && |s.bank| + |Flat(s.rest[..j])| == k
  }

  lemma EndsInBank(s: OutStream, k: nat)
    requires k > 0 && s.bank != []
    ensures EndsPacket(s, k) <==> EndsPacket(s.(bank := s.bank[1..]), k - 1)
  {}

  lemma EndsInRest(s: OutStream, k: nat)
    requires k > 0 && s.bank == [] && s.rest != []
    ensures EndsPacket(s, k) <==> EndsPacket(NextBank(s), k)
  {
    var t := NextBank(s);
    assert Pending(t) == Pending(s);
    if j :| 0 <= j <= |s.rest| && |s.bank| + |Flat(s.rest[..j])| == k {
      assert s.rest[..j][1..] == t.rest[..j - 1] && s.rest[..j][0] == t.bank;
      assert |t.bank| + |Flat(t.rest[..j - 1])| == k;
    }
    if j :| 0 <= j <= |t.rest| && |t.bank| + |Flat(t.rest[..j])| == k {
      assert s.rest[..j + 1][1..] == t.rest[..j] && s.rest[..j + 1][0] == t.bank;
      assert |s.bank| + |Flat(s.rest[..j + 1])| == k;
    }
  }

  lemma EndsAtOnce(s: OutStream)
    ensures EndsPacket(s, 0) <==> s.bank == []
  {
    assert s.rest[..0] == [];
    assert Flat(s.rest[..0]) == [];
  }

  lemma {:induction false} FetchesEndPacket(s: OutStream, k: nat)
    ensures AfterFetches(s, k).bank == [] <==> EndsPacket(s, k)
    decreases k, |s.rest|
  {
    hide EndsPacket;
    if k == 0 {
      EndsAtOnce(s);
    } else if s.bank != [] {
      EndsInBank(s, k);
      FetchesEndPacket(s.(bank := s.bank[1..]), k - 1);
    } else if s.rest != [] {
      EndsInRest(s, k);
      FetchesEndPacket(NextBank(s), k);
    } else {
      FetchesEndPacket(s, k - 1);
      BeyondAll(s, k);
      BeyondAll(s, k - 1);
    }
  }

  lemma BeyondAll(s: OutStream, k: nat)
    requires s.bank == [] && s.rest == []
    ensures EndsPacket(s, k)
  {
    if k == 0 {
      EndsAtOnce(s);
    }
  }

  /** A task leaves every byte that its command has not consumed to the next one
      exactly when the bytes of its command end a packet. */
  lemma RestKeptExactly(part: Part, d: Device, s: OutStream)
    requires s != OutStream([], [])
    ensures var k := Command(part, d, Pending(s)).fetched;
            Pending(Task(part, d, s).out) == A.DropBytes(Pending(s), k) <==> EndsPacket(s, k)
  {
    hide Command, AfterFetches, EndsPacket;
    FetchesPending(s, Command(part, d, Pending(s)).fetched);
    FetchesEndPacket(s, Command(part, d, Pending(s)).fetched);
  }

  /** Two commands in one packet: the second is dropped here, and served by the
      Adelino boot loader. */
  lemma SharedPacketDropsCommand(part: Part, d: Device, m: A.Machine)
    requires d.running
    ensures Tasks(part, d, OutStream([], [['L' as int, 'L' as int]]), 2).reply == [CR]
    ensures A.Session(m, part.signature, ['L' as int, 'L' as int], 2).reply == [CR, CR]
  {
    var input: seq<byte> := ['L' as int, 'L' as int];
    var s := OutStream([], [input]);
    assert [input][1..] == [];
    assert Flat([input]) == input + Flat<byte>([]);
    assert Pending(s) == input;
    assert Command(part, d, Pending(s)) == Done(d, [CR], 1);
    assert NextBank(s) == OutStream(input, []);
    assert AfterFetch(s) == OutStream(input[1..], []);
    assert AfterFetches(s, 1) == AfterFetches(AfterFetch(s), 0);
    assert Task(part, d, s) == Turn(d, [CR], OutStream([], []));
    assert A.Command(m, part.signature, input) == A.Outcome(m, [CR], input[1..]);
    assert A.Command(m, part.signature, input[1..]) == A.Outcome(m, [CR], []);
    assert A.Session(m, part.signature, input[1..], 1).reply == [CR] + [];
  }

  // ---- EEPROM blocks ----

  function Spliced(e: Eeprom, w: nat, data: seq<byte>): (r: Eeprom)
    requires w + |data| <= |e|
    ensures |r| == |e|
  {
    e[..w] + data + e[w + |data|..]
  }

  lemma {:induction false} EepromStoreExact(e: Eeprom, w: nat, data: seq<byte>)
    requires w + |data| <= |e| <= 0x1_0000
    ensures EepromStore(e, 2 * w, data) == Spliced(e, w, data)
    decreases |data|
  {
    if data == [] {
      assert e[..w] + data + e[w..] == e;
    } else {
      ModSmall(w, |e|);
      var g := e[w := data[0]];
      assert A.Wrap32(2 * w + 2) == 2 * (w + 1);
      EepromStoreExact(g, w + 1, data[1..]);
      assert g[..w + 1] + data[1..] + g[w + |data|..] == e[..w] + data + e[w + |data|..];
    }
  }

  lemma EepromBytesExact(e: Eeprom, w: nat, n: nat)
    requires w + n <= |e| <= 0x1_0000
    ensures EepromBytes(e, 2 * w, n) == e[w..w + n]
  {
    hide Mod, A.Wrap32;
    forall i | 0 <= i < n
      ensures EepromBytes(e, 2 * w, n)[i] == e[w + i]
    {
      EepromCell(w + i, |e|);
    }
  }

  lemma EepromCell(w: nat, size: nat)
    requires w < size <= 0x1_0000
    ensures Mod(A.Wrap32(2 * w) / 2, size) == w
  {
    hide Mod, A.Wrap32;
    WrapSmall(2 * w);
    ModSmall(w, size);
  }

  /** 'A' with a word address below 0x4000. */
  lemma AddressCommand(part: Part, d: Device, hi: byte, lo: byte, tail: seq<byte>)
    requires hi < 0x40
    ensures Command(part, d, ['A' as int, hi, lo] + tail) == Done(d.(addr := 2 * Word(hi, lo)), [CR], 3)
  {
    hide Block, A.DecodeAddress, Answer;
    A.AddressExact(hi, lo);
    assert A.Tail(['A' as int, hi, lo] + tail) == [hi, lo] + tail;
    assert A.Tail([hi, lo] + tail) == [lo] + tail;
  }

  lemma EepromInput(hi: byte, lo: byte, rest: seq<byte>)
    ensures var input := [hi, lo, EEPROM] + rest;
            && A.Head(input) == hi && A.Head(A.Tail(input)) == lo && A.Head(A.Tail(A.Tail(input))) == EEPROM
            && A.DropBytes(input, 3) == rest
  {
    var input := [hi, lo, EEPROM] + rest;
    assert input[1..][1..] == [EEPROM] + rest;
  }

  function EepromWrite(hi: byte, lo: byte, data: seq<byte>): seq<byte> {
    ['B' as int, hi, lo, EEPROM] + data
  }

  function EepromRead(hi: byte, lo: byte): seq<byte> {
    ['g' as int, hi, lo, EEPROM]
  }

  /** An EEPROM block is stored from byte w on for word address w. */
  lemma EepromWriteCommand(part: Part, d: Device, w: nat, hi: byte, lo: byte, data: seq<byte>, tail: seq<byte>)
    requires d.addr == 2 * w && w + |data| <= |d.eeprom| <= 0x1_0000 && |data| == Word(hi, lo)
    ensures Command(part, d, EepromWrite(hi, lo, data) + tail)
         == Done(d.(eeprom := Spliced(d.eeprom, w, data), addr := 2 * (w + |data|)), [CR], |EepromWrite(hi, lo, data)|)
  {
    hide Command, EepromStore, WriteTurns, Spliced, Word, A.DropBytes, A.TakeBytes, A.Head, ReadTurns, A.Wrap32;
    var whole := EepromWrite(hi, lo, data) + tail;
    var input := [hi, lo, EEPROM] + (data + tail);
    assert A.Tail(whole) == input;
    EepromInput(hi, lo, data + tail);
    BlockCommands(part, d, A.Machine(0, d.flash, 0, 0), true, whole, input);
    WriteEepromTurns(d, false, 0, data + tail, |data|);
    A.TakeExact(data, tail);
    EepromStoreExact(d.eeprom, w, data);
    WrapSmall(d.addr + 2 * |data|);
  }

  lemma EepromReadCommand(part: Part, d: Device, w: nat, hi: byte, lo: byte, tail: seq<byte>)
    requires d.addr == 2 * w && w + Word(hi, lo) <= |d.eeprom| <= 0x1_0000
    ensures Command(part, d, EepromRead(hi, lo) + tail)
         == Done(d.(flash := RwwEnable(d.flash), addr := 2 * (w + Word(hi, lo))), d.eeprom[w..w + Word(hi, lo)], 4)
  {
    hide Command, EepromBytes, ReadTurns, RwwEnable, Word, A.DropBytes, A.Head, WriteTurns;
    var whole := EepromRead(hi, lo) + tail;
    var input, n := [hi, lo, EEPROM] + tail, Word(hi, lo) as nat;
    assert A.Tail(whole) == input;
    EepromInput(hi, lo, tail);
    BlockCommands(part, d, A.Machine(0, d.flash, 0, 0), false, whole, input);
    var e := d.(flash := RwwEnable(d.flash));
    WrapSmall(d.addr);
    ReadEepromTurns(e, false, d.addr, n, 0);
    EepromBytesExact(d.eeprom, w, n);
    WrapSmall(d.addr + 2 * n);
    assert d.eeprom[w..w + n][0..] == d.eeprom[w..w + n];
  }

  /** One turn of the main loop on a command in packets of its own. */
  lemma TasksOnFrame(part: Part, d: Device, left: seq<seq<byte>>, frame: seq<seq<byte>>, later: seq<seq<byte>>, n: nat)
    returns (after: seq<seq<byte>>)
    requires d.running && Flat(left) == [] && Flat(frame) != []
    requires Command(part, d, Flat(frame) + Flat(later)).fetched == |Flat(frame)|
    ensures Flat(after) == []
    ensures var o := Command(part, d, Flat(frame) + Flat(later));
            var u := Tasks(part, o.d, OutStream([], after + later), n);
            Tasks(part, d, OutStream([], left + (frame + later)), n + 1) == Turn(u.d, o.reply + u.reply, u.out)
  {
    hide Command, Task, Flat;
    FlatAppend(left, frame);
    assert Flat(left + frame) == Flat(frame);
    after := TaskOnFrame(part, d, left + frame, later);
    assert left + (frame + later) == (left + frame) + later;
  }

  /** What is written to the EEPROM through CDC_Task is what it reads back, for
      every block that lies within it and every way of cutting the four commands
      into packets; all other bytes of the EEPROM and the flash are untouched. */
  lemma EepromReadsBack(part: Part, d: Device, hi: byte, lo: byte, sizeHi: byte, sizeLo: byte, data: seq<byte>,
                        frames: seq<seq<seq<byte>>>)
    requires d.running && hi < 0x40 && |data| == Word(sizeHi, sizeLo)
    requires Word(hi, lo) + |data| <= |d.eeprom| <= 0x1_0000
    requires |frames| == 4 && Flat(frames[0]) == Flat(frames[2]) == ['A' as int, hi, lo]
    requires Flat(frames[1]) == EepromWrite(sizeHi, sizeLo, data) && Flat(frames[3]) == EepromRead(sizeHi, sizeLo)
    ensures var t := Tasks(part, d, OutStream([], frames[0] + (frames[1] + (frames[2] + (frames[3] + [])))), 4);
            && t.reply == [CR, CR, CR] + data
            && t.d.eeprom == Spliced(d.eeprom, Word(hi, lo), data) && t.d.flash.mem == d.flash.mem
  {
    hide Command, Spliced, Task, Flat, Tasks;
    var w, n := Word(hi, lo), |data|;
    var later1, later2, later3 := frames[1] + (frames[2] + (frames[3] + [])), frames[2] + (frames[3] + []), frames[3] + [];
    AddressCommand(part, d, hi, lo, Flat(later1));
    assert Flat<byte>([]) == [] by { FlatNone(); }
    var a1 := TasksOnFrame(part, d, [], frames[0], later1, 3);
    var d1 := d.(addr := 2 * w);
    EepromWriteCommand(part, d1, w, sizeHi, sizeLo, data, Flat(later2));
    var a2 := TasksOnFrame(part, d1, a1, frames[1], later2, 2);
    var d2 := d1.(eeprom := Spliced(d.eeprom, w, data), addr := 2 * (w + n));
    AddressCommand(part, d2, hi, lo, Flat(later3));
    var a3 := TasksOnFrame(part, d2, a2, frames[2], later3, 1);
    var d3 := d2.(addr := 2 * w);
    EepromReadCommand(part, d3, w, sizeHi, sizeLo, Flat<byte>([]));
    var a4 := TasksOnFrame(part, d3, a3, frames[3], [], 0);
    TasksNone(part, Command(part, d3, EepromRead(sizeHi, sizeLo) + Flat<byte>([])).d, OutStream([], a4 + []));
    SplicedAt(d.eeprom, w, data);
    assert [] + (frames[0] + later1) == frames[0] + later1;
    assert [CR] + ([CR] + ([CR] + (data + []))) == [CR, CR, CR] + data;
  }

  lemma FlatNone()
    ensures Flat<byte>([]) == []
  {}

  lemma TasksNone(part: Part, d: Device, s: OutStream)
    ensures Tasks(part, d, s, 0) == Turn(d, [], s)
  {}

  lemma SplicedAt(e: Eeprom, w: nat, data: seq<byte>)
    requires w + |data| <= |e|
    ensures Spliced(e, w, data)[w..w + |data|] == data
  {}

  // ---- Detached during a reply ----

  /** When the reply is not taken, the packet of the command is not acknowledged: what
      follows the command in it is there for the next task, and that task runs. */
  lemma DetachedKeepsPacket(part: Part, d: Device, io: Io)
    requires io.held || io.out != OutStream([], [])
    requires EndReply(PutAll(io.pipe, Command(part, d, Pending(io.out)).reply)).busy
    ensures var t := FullTask(part, d, io);
            && t.io.held
            && Pending(t.io.out) == A.DropBytes(Pending(io.out), Command(part, d, Pending(io.out)).fetched)
            && FullTask(part, t.d, t.io).d == Command(part, t.d, Pending(t.io.out)).d
  {
    hide Command, AfterFetches, EndReply, PutAll, Pending;
    FetchesPending(io.out, Command(part, d, Pending(io.out)).fetched);
  }

  /** A full bank that the host does not take is not followed by an empty packet. */
  lemma GivenUpReply(p: InPipe<byte>, waits: seq<bool>)
    requires !p.busy && |p.bank| == CDC_TXRX_EPSIZE && p.waits == [false] + waits
    ensures EndReply(p) == p.(bank := [], packets := p.packets + [p.bank], busy := true, waits := waits)
  {}
}
