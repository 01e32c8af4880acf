/** The AVR109 programmer of the Adelino boot loader: what one command does with
    the bytes of the host, and the plain memory that a whole session shows to the
    host. */
module Avr109 {
  import opened Bytes
  import opened FlashMemory

  const ESC: byte := 27
  const CR: byte := 13
  const MEMORY_FLASH: byte := 'F' as int
  /** The signature of the part: AVR_SIGNATURE_1 to AVR_SIGNATURE_3. */
  type Signature = s: seq<byte> | |s| == 3 witness [0, 0, 0]

  const AVR_PROGRAMMER_TIMEOUT: byte := 60
  const BM_NORMAL_BOOT: byte := '0' as int

  /** The state commands work on. CurrAddress is a 32-bit byte address. */
  datatype Machine = Machine(addr: nat, flash: Flash, timeout: byte, bootMode: byte)

  /** What a command leaves: the state, the reply, and the bytes it did not consume. */
  datatype Outcome = Outcome(m: Machine, reply: seq<byte>, rest: seq<byte>)

  function Wrap32(x: nat): nat {
    x % 0x1_0000_0000
  }

  /** A byte of the host; 0 when it sends nothing more. */
  function Head(input: seq<byte>): byte {
    if input == [] then 0 else input[0]
  }

  function Tail(input: seq<byte>): seq<byte> {
    if input == [] then [] else input[1..]
  }

  function TakeBytes(input: seq<byte>, n: nat): (r: seq<byte>)
    ensures |r| == n
  {
    if n <= |input| then input[..n] else input + seq(n - |input|, _ => 0)
  }

  function DropBytes(input: seq<byte>, n: nat): seq<byte> {
    if n <= |input| then input[n..] else []
  }

  function Text(s: string): (r: seq<byte>)
    requires forall i :: 0 <= i < |s| ==> s[i] < 128 as char
    ensures |r| == |s|
  {
    seq<byte>(|s|, i requires 0 <= i < |s| => s[i] as int)
  }

  // ---- Block commands ----

  function Even(n: nat): (e: nat)
    ensures e <= n < e + 2 && Mod(e, 2) == 0
  {
    ModBase(n, 2);
    n - Mod(n, 2)
  }

  /** Bytes of flash as the read loop walks over them: the address advances by
      whole words and the low bit is ORed in. */
  function FlashBytes(f: Flash, addr: nat, n: nat): (r: seq<byte>)
    ensures |r| == n
  {
    seq<byte>(n, i requires 0 <= i < n =>
                   ReadByte(f, OrBits(Wrap32(addr + Even(i)), i - Even(i), 32)))
  }

  /** The words of a block go to consecutive 32-bit addresses; a last odd byte is dropped. */
  function FillBlock(f: Flash, addr: nat, data: seq<byte>): (r: Flash)
    ensures r.mem == f.mem && |r.buf| == |f.buf|
    decreases |data|
  {
    if |data| < 2 then f else FillBlock(Fill(f, addr, data[0], data[1]), Wrap32(addr + 2), data[2..])
  }

  /** Page erase, the words of the block, page write. */
  function ProgramBlock(f: Flash, addr: nat, data: seq<byte>): (r: Flash)
    ensures |r.buf| == |f.buf|
  {
    WritePage(FillBlock(Erase(f, addr), addr, data), addr)
  }

  /** ReadWriteMemoryBlock of the minimal build, which knows the flash only. */
  function Block(write: bool, m: Machine, input: seq<byte>): Outcome {
    var size := Word(Head(input), Head(Tail(input)));
    var memory := Head(Tail(Tail(input)));
    var rest := DropBytes(input, 3);
    if memory != MEMORY_FLASH then Outcome(m, ['?' as int], rest)
    else if !write then
      var f := RwwEnable(m.flash);
      Outcome(m.(flash := f, addr := Wrap32(m.addr + Even(size))), FlashBytes(f, m.addr, size), rest)
    else
      Outcome(m.(flash := ProgramBlock(m.flash, m.addr, TakeBytes(rest, size)), addr := Wrap32(m.addr + Even(size))),
              [CR], DropBytes(rest, size))
  }

  // ---- The block loops, byte by byte ----

  lemma DropThree(input: seq<byte>)
    ensures Tail(Tail(Tail(input))) == DropBytes(input, 3)
  {}

  lemma TakeNext(input: seq<byte>, n: nat)
    requires n > 0
    ensures TakeBytes(input, n) == [Head(input)] + TakeBytes(Tail(input), n - 1)
  {}

  lemma DropNext(input: seq<byte>, i: nat)
    ensures Tail(DropBytes(input, i)) == DropBytes(input, i + 1)
  {}

  lemma DropNone(input: seq<byte>)
    ensures DropBytes(input, 0) == input
  {}

  lemma FillWord(f: Flash, addr: nat, lo: byte, hi: byte, rest: seq<byte>)
    ensures FillBlock(f, addr, [lo] + ([hi] + rest)) == FillBlock(Fill(f, addr, lo, hi), Wrap32(addr + 2), rest)
  {
    hide Fill;
    assert ([lo] + ([hi] + rest))[2..] == rest;
  }

  lemma FillEnd(f: Flash, addr: nat, highByte: bool, lowByte: byte, input: seq<byte>)
    ensures FillBlock(f, addr, if highByte then [lowByte] + TakeBytes(input, 0) else TakeBytes(input, 0)) == f
  {}

  /** The word address after i bytes, and whether the next byte is a high one. */
  ghost function WordAt(start: nat, i: nat): nat {
    Wrap32(start + Even(i))
  }

  ghost predicate IsHigh(i: nat) {
    i == Even(i) + 1
  }

  lemma WalkStart(start: nat)
    requires start < 0x1_0000_0000
    ensures WordAt(start, 0) == start && !IsHigh(0)
  {
    EvenExact(0);
  }

  lemma WalkStep(start: nat, i: nat)
    ensures WordAt(start, i + 1) == if IsHigh(i) then Wrap32(WordAt(start, i) + 2) else WordAt(start, i)
    ensures IsHigh(i + 1) == !IsHigh(i)
  {
    hide Mod, Wrap32, Even;
    EvenExact(i);
    EvenExact(i + 1);
    WrapTwice(start + Even(i));
  }

  lemma FlashBytesAt(f: Flash, start: nat, n: nat, i: nat)
    requires i < n
    ensures FlashBytes(f, start, n)[i] == ReadByte(f, OrBits(WordAt(start, i), if IsHigh(i) then 1 else 0, 32))
  {
    hide OrBits, Mod, Wrap32, Even, ReadByte;
    assert i - Even(i) == if IsHigh(i) then 1 else 0;
  }

  lemma WrapTwice(x: nat)
    ensures Wrap32(Wrap32(x) + 2) == Wrap32(x + 2)
  {}

  // ---- The other commands of the minimal programmer ----

  /** The two bytes of 'A', each shifted as a sixteen-bit int: from 0x40 on, the
      first one reaches the sign bit and is sign-extended. */
  function DecodeAddress(hi: byte, lo: byte): nat {
    OrBits(ShiftedByte(hi), 2 * lo, 32)
  }

  function ShiftedByte(hi: byte): nat {
    var h := 512 * (if hi < 0x80 then hi else hi - 0x80);
    if h >= 0x8000 then h + 0xFFFF_0000 else h
  }

  /** Replies that do not depend on the state. */
  function FixedReply(c: byte, pageSize: nat, signature: Signature): seq<byte> {
    if c == 'L' as int || c == 'P' as int then [CR]
    else if c == 't' as int then [0x44, 0]
    else if c == 'a' as int then Text("Y")
    else if c == 'p' as int then Text("S")
    else if c == 'S' as int then Text("ADELINO")
    else if c == 'V' as int then Text("10")
    else if c == 's' as int then [signature[2], signature[1], signature[0]]
    else if c == 'b' as int then Text("Y") + [(pageSize / 0x100) % 0x100, pageSize % 0x100]
    else if c == ESC then []
    else Text("?")
  }

  /** One command of AVR109_programmer. */
  function Command(m: Machine, signature: Signature, input: seq<byte>): Outcome
    requires input != []
  {
    var c, rest := input[0], input[1..];
    if c == 'E' as int then Outcome(m.(timeout := 10, flash := RwwEnable(m.flash)), [CR], rest)
    else if c == 'T' as int then Outcome(m, [CR], Tail(rest))
    else if c == 'A' as int then
      Outcome(m.(addr := DecodeAddress(Head(rest), Head(Tail(rest)))), [CR], DropBytes(rest, 2))
    else if c == 'B' as int || c == 'g' as int then
      Block(c == 'B' as int, m.(timeout := AVR_PROGRAMMER_TIMEOUT, bootMode := BM_NORMAL_BOOT), rest)
    else Outcome(m, FixedReply(c, |m.flash.buf|, signature), rest)
  }

  /** n commands, one after the other. */
  function Session(m: Machine, signature: Signature, input: seq<byte>, n: nat): Outcome
    decreases n
  {
    if n == 0 || input == [] then Outcome(m, [], input)
    else
      var o := Command(m, signature, input);
      var s := Session(o.m, signature, o.rest, n - 1);
      Outcome(s.m, o.reply + s.reply, s.rest)
  }

  // ---- The plain memory behind a session ----

  /** What the host asks for. */
  datatype Op =
    | SetAddress(hi: byte, lo: byte)
    | WriteFlash(sizeHi: byte, sizeLo: byte, data: seq<byte>)
    | ReadFlash(sizeHi: byte, sizeLo: byte)
    | SelectDevice(device: byte)
    | Leave
    | Query(c: byte)

  /** The bytes that ask for it. */
  function Encode(op: Op): (e: seq<byte>)
    ensures e != []
  {
    match op
    case SetAddress(hi, lo) => [65, hi, lo]
    case WriteFlash(hi, lo, data) => [66, hi, lo, 70] + data
    case ReadFlash(hi, lo) => [103, hi, lo, 70]
    case SelectDevice(d) => [84, d]
    case Leave => [69]
    case Query(c) => [c]
  }

  function EncodeAll(script: seq<Op>): seq<byte> {
    if script == [] then [] else Encode(script[0]) + EncodeAll(script[1..])
  }

  /** An array of bytes and a word address that advances by itself. */
  datatype Plain = Plain(word: nat, mem: seq<byte>)

  datatype Shown = Shown(p: Plain, reply: seq<byte>)

  /** n bytes from an address on; address bits above the array are ignored. */
  function Consecutive(mem: seq<byte>, addr: nat, n: nat): (r: seq<byte>)
    requires |mem| > 0
    ensures |r| == n
  {
    seq<byte>(n, i requires 0 <= i < n => mem[Mod(Wrap32(addr + i), |mem|)])
  }

  /** Word addresses are bits 1 to 31 of a 32-bit address. */
  function WrapWord(w: nat): nat {
    w % 0x8000_0000
  }

  /** The answers the protocol has for the queries of a host, byte by byte: the page
      size is sent high byte first, and the signature last byte first. */
  function PlainReply(c: byte, pageSize: nat, signature: Signature): (r: seq<byte>)
    ensures c == 98 && pageSize < 0x1_0000 ==> |r| == 3 && r[0] == 89 && Word(r[1], r[2]) == pageSize
    ensures c == 115 ==> |r| == 3 && forall i :: 0 <= i < 3 ==> r[i] == signature[2 - i]
  {
    if c == 76 || c == 80 then [13]
    else if c == 116 then [68, 0]
    else if c == 97 then [89]
    else if c == 112 then [83]
    else if c == 83 then [65, 68, 69, 76, 73, 78, 79]
    else if c == 86 then [49, 48]
    else if c == 115 then [signature[2], signature[1], signature[0]]
    else if c == 98 then [89, pageSize / 0x100 % 0x100, pageSize % 0x100]
    else if c == 27 then []
    else [63]
  }

  function PlainStep(p: Plain, pageSize: nat, signature: Signature, op: Op): Shown
    requires |p.mem| > 0 && Legal(p, pageSize, op)
  {
    match op
    case SetAddress(hi, lo) => Shown(p.(word := Word(hi, lo)), [13])
    case WriteFlash(_, _, data) =>
      Shown(Plain(WrapWord(p.word + |data| / 2), ProgramPage(p.mem, pageSize, 2 * p.word, data)), [13])
    case ReadFlash(hi, lo) =>
      var n := Word(hi, lo);
      Shown(p.(word := WrapWord(p.word + n / 2)),
            Consecutive(p.mem, 2 * p.word, n))
    case SelectDevice(_) => Shown(p, [13])
    case Leave => Shown(p, [13])
    case Query(c) => Shown(p, PlainReply(c, pageSize, signature))
  }

  /** What the protocol asks of the host: word addresses below 0x4000, and blocks
      of whole words that start a page and fit into it. Reads are of any size. */
  predicate Legal(p: Plain, pageSize: nat, op: Op) {
    match op
    case SetAddress(hi, lo) => hi < 0x40
    case WriteFlash(hi, lo, data) =>
      && |data| == Word(hi, lo) && Mod(|data|, 2) == 0 && |data| <= pageSize
      && pageSize > 0 && Mod(2 * p.word, pageSize) == 0 && 2 * p.word < |p.mem|
    case ReadFlash(_, _) => true
    case SelectDevice(_) => true
    case Leave => true
    case Query(c) => c !in {65, 66, 69, 84, 103}
  }

  predicate LegalScript(p: Plain, pageSize: nat, signature: Signature, script: seq<Op>)
    requires |p.mem| > 0
    decreases |script|
  {
    script == [] ||
    (Legal(p, pageSize, script[0]) &&
     LegalScript(PlainStep(p, pageSize, signature, script[0]).p, pageSize, signature, script[1..]))
  }

  function PlainSession(p: Plain, pageSize: nat, signature: Signature, script: seq<Op>): Shown
    requires |p.mem| > 0 && LegalScript(p, pageSize, signature, script)
    decreases |script|
  {
    if script == [] then Shown(p, [])
    else
      var s := PlainStep(p, pageSize, signature, script[0]);
      var t := PlainSession(s.p, pageSize, signature, script[1..]);
      Shown(t.p, s.reply + t.reply)
  }

  // ---- Refinement ----

  /** The address is even, the memories agree, and the page buffer is empty. */
  predicate Refines(m: Machine, p: Plain) {
    |p.mem| <= 0x1_0000_0000 && p.word < 0x8000_0000 && m.addr == 2 * p.word && m.flash.mem == p.mem && Holds(m.flash.buf, [])
  }

  lemma OnesValues()
    ensures Ones(1) == 1 && Ones(9) == 0x1FF && Ones(32) == 0xFFFF_FFFF
  {
    assert Ones(4) == 0xF;
    assert Ones(8) == 0xFF;
    assert Ones(12) == 0xFFF;
    assert Ones(16) == 0xFFFF;
    assert Ones(20) == 0xF_FFFF;
    assert Ones(24) == 0xFF_FFFF;
    assert Ones(28) == 0xFFF_FFFF;
  }

  /** The low bit ORed into an even address is added to it. */
  lemma OrLowBit(a: nat, b: nat)
    requires a <= 0xFFFF_FFFF && a % 2 == 0 && b <= 1
    ensures OrBits(a, b, 32) == a + b
  {
    OnesValues();
    ModTwo(a);
    OrIsSum(a, b, 1, 32);
  }

  lemma {:induction false} ModMultiple(q: nat)
    ensures Mod(512 * q, 512) == 0
  {
    if q > 0 {
      ModMultiple(q - 1);
    }
  }

  lemma DecodeIsSum(hi: byte, lo: byte)
    ensures DecodeAddress(hi, lo) == ShiftedByte(hi) + 2 * lo
  {
    hide Mod, OrBits;
    OnesValues();
    var a := ShiftedByte(hi);
    var q := (if hi < 0x80 then hi else hi - 0x80) + (if a >= 0x8000 then 0x7F_FF80 else 0);
    ModMultiple(q);
    assert a == 512 * q;
    OrIsSum(a, 2 * lo, 9, 32);
  }

  lemma DecodeRange(hi: byte, lo: byte)
    ensures DecodeAddress(hi, lo) < 0x1_0000_0000
  {
    hide DecodeAddress;
    DecodeIsSum(hi, lo);
  }

  /** 'A' sets the word address the host meant exactly when that is below 0x4000. */
  lemma AddressExact(hi: byte, lo: byte)
    ensures DecodeAddress(hi, lo) == 2 * (Word(hi, lo)) <==> hi < 0x40
  {
    hide DecodeAddress;
    DecodeIsSum(hi, lo);
  }

  lemma EvenExact(n: nat)
    ensures Even(n) == n / 2 * 2
  {
    ModTwo(n);
  }

  /** An even address and a low bit do not carry into each other. */
  lemma WrapLowBit(x: nat, b: nat)
    requires x % 2 == 0 && b <= 1
    ensures Wrap32(x) % 2 == 0 && Wrap32(x) + b == Wrap32(x + b)
  {}

  lemma ReadIndex(addr: nat, i: nat)
    requires addr % 2 == 0
    ensures OrBits(Wrap32(addr + Even(i)), i - Even(i), 32) == Wrap32(addr + i)
  {
    hide Wrap32, OrBits, Mod;
    EvenExact(i);
    WrapLowBit(addr + Even(i), i - Even(i));
    assert Wrap32(addr + Even(i)) <= 0xFFFF_FFFF by {
      WrapRange(addr + Even(i));
    }
    OrLowBit(Wrap32(addr + Even(i)), i - Even(i));
  }

  lemma WrapRange(x: nat)
    ensures Wrap32(x) <= 0xFFFF_FFFF
  {}

  /** From an even address the read loop walks over consecutive bytes. */
  lemma FlashBytesConsecutive(f: Flash, addr: nat, n: nat)
    requires addr % 2 == 0
    ensures FlashBytes(f, addr, n) == Consecutive(f.mem, addr, n)
  {
    hide Wrap32, OrBits, Mod, Even;
    forall i | 0 <= i < n
      ensures FlashBytes(f, addr, n)[i] == Consecutive(f.mem, addr, n)[i]
    {
      ReadIndex(addr, i);
    }
  }

  lemma TakeExact(data: seq<byte>, tail: seq<byte>)
    ensures TakeBytes(data + tail, |data|) == data
    ensures DropBytes(data + tail, |data|) == tail
  {}

  lemma WrapIsDouble(w: nat)
    ensures Wrap32(2 * w) == 2 * WrapWord(w) && WrapWord(w) < 0x8000_0000
  {}

  /** Within 32 bits, a block of whole words is filled like any run of words. */
  lemma {:induction false} FillBlockExact(f: Flash, addr: nat, data: seq<byte>)
    requires Mod(|data|, 2) == 0 && addr + |data| <= 0x1_0000_0000
    ensures FillBlock(f, addr, data) == FillWords(f, addr, data)
    decreases |data|
  {
    hide Fill;
    if |data| == 2 {
      assert data[2..] == [];
    } else if |data| > 2 {
      assert Wrap32(addr + 2) == addr + 2;
      FillBlockExact(Fill(f, addr, data[0], data[1]), addr + 2, data[2..]);
    }
  }

  /** The block routine on the bytes of a flash block. */
  lemma WriteBlockIs(m: Machine, hi: byte, lo: byte, data: seq<byte>, tail: seq<byte>)
    requires |data| == Word(hi, lo)
    ensures Block(true, m, [hi, lo, MEMORY_FLASH] + (data + tail))
         == Outcome(m.(flash := ProgramBlock(m.flash, m.addr, data), addr := Wrap32(m.addr + Even(|data|))), [CR], tail)
  {
    hide ProgramBlock, Wrap32, Even, Word, TakeBytes;
    var rest := [hi, lo, MEMORY_FLASH] + (data + tail);
    assert rest[1..][1..] == [MEMORY_FLASH] + (data + tail);
    assert rest[3..] == data + tail;
    TakeExact(data, tail);
  }

  /** Its effect on the address, and on the flash. */
  lemma AddressAfter(word: nat, n: nat)
    requires Mod(n, 2) == 0
    ensures Wrap32(2 * word + Even(n)) == 2 * WrapWord(word + n / 2)
  {
    hide Mod, Wrap32, WrapWord, Even;
    EvenExact(n);
    ModTwo(n);
    WrapIsDouble(word + n / 2);
  }

  lemma FlashAfter(f: Flash, a: nat, data: seq<byte>)
    requires Holds(f.buf, []) && |f.mem| <= 0x1_0000_0000 && Mod(|data|, 2) == 0 && |data| <= |f.buf|
    requires Mod(a, |f.buf|) == 0 && a < |f.mem|
    ensures ProgramBlock(f, a, data) == FlashState(ProgramPage(f.mem, |f.buf|, a, data), Blank(|f.buf|))
  {
    hide WritePage, FillWords, FillBlock, Erase, ProgramPage, Mod, Holds;
    ModRoom(a, |f.mem|, |f.buf|);
    FillBlockExact(Erase(f, a), a, data);
    PageProgramExact(f, a, data);
  }

  lemma WriteRefines(m: Machine, p: Plain, signature: Signature, op: Op, tail: seq<byte>)
    requires Refines(m, p) && Legal(p, |m.flash.buf|, op) && op.WriteFlash?
    ensures var o := Command(m, signature, Encode(op) + tail);
            var s := PlainStep(p, |m.flash.buf|, signature, op);
            Refines(o.m, s.p) && |o.m.flash.buf| == |m.flash.buf| && o.reply == s.reply && o.rest == tail
  {
    hide Block, ProgramBlock, ProgramPage, Mod, Wrap32, WrapWord, Word, Even, FixedReply, DecodeAddress;
    var rest := [op.sizeHi, op.sizeLo, MEMORY_FLASH] + (op.data + tail);
    assert (Encode(op) + tail)[1..] == rest;
    var n := m.(timeout := AVR_PROGRAMMER_TIMEOUT, bootMode := BM_NORMAL_BOOT);
    WriteBlockIs(n, op.sizeHi, op.sizeLo, op.data, tail);
    AddressAfter(p.word, |op.data|);
    FlashAfter(m.flash, m.addr, op.data);
    WrapIsDouble(p.word + |op.data| / 2);
  }

  lemma ReadRefines(m: Machine, p: Plain, signature: Signature, op: Op, tail: seq<byte>)
    requires Refines(m, p) && op.ReadFlash?
    ensures var o := Command(m, signature, Encode(op) + tail);
            var s := PlainStep(p, |m.flash.buf|, signature, op);
            Refines(o.m, s.p) && |o.m.flash.buf| == |m.flash.buf| && o.reply == s.reply && o.rest == tail
  {
    hide FlashBytes, Consecutive, Mod, Wrap32, WrapWord, Word, Even;
    var rest := [op.sizeHi, op.sizeLo, MEMORY_FLASH] + tail;
    assert (Encode(op) + tail)[1..] == rest;
    assert rest[1..][1..] == [MEMORY_FLASH] + tail;
    assert rest[3..] == tail;
    var n := Word(op.sizeHi, op.sizeLo);
    EvenExact(n);
    WrapIsDouble(p.word + n / 2);
    FlashBytesConsecutive(RwwEnable(m.flash), m.addr, n);
  }

  lemma SetAddressRefines(m: Machine, p: Plain, signature: Signature, op: Op, tail: seq<byte>)
    requires Refines(m, p) && Legal(p, |m.flash.buf|, op) && op.SetAddress?
    ensures var o := Command(m, signature, Encode(op) + tail);
            var s := PlainStep(p, |m.flash.buf|, signature, op);
            Refines(o.m, s.p) && |o.m.flash.buf| == |m.flash.buf| && o.reply == s.reply && o.rest == tail
  {
    hide Block, DecodeAddress, FixedReply;
    AddressExact(op.hi, op.lo);
    assert (Encode(op) + tail)[1..] == [op.hi, op.lo] + tail;
    assert ([op.hi, op.lo] + tail)[2..] == tail;
  }

  /** The table of the program is the one of the protocol. */
  lemma RepliesExact(c: byte, pageSize: nat, signature: Signature)
    ensures FixedReply(c, pageSize, signature) == PlainReply(c, pageSize, signature)
  {
    assert Text("Y") == [89] && Text("S") == [83] && Text("10") == [49, 48] && Text("?") == [63];
    assert Text("ADELINO") == [65, 68, 69, 76, 73, 78, 79];
  }

  lemma QueryRefines(m: Machine, p: Plain, signature: Signature, op: Op, tail: seq<byte>)
    requires Refines(m, p) && Legal(p, |m.flash.buf|, op) && (op.Query? || op.SelectDevice? || op.Leave?)
    ensures var o := Command(m, signature, Encode(op) + tail);
            var s := PlainStep(p, |m.flash.buf|, signature, op);
            Refines(o.m, s.p) && |o.m.flash.buf| == |m.flash.buf| && o.reply == s.reply && o.rest == tail
  {
    hide Block, DecodeAddress, FixedReply, PlainReply;
    if op.Query? || op.Leave? {
      assert (Encode(op) + tail)[1..] == tail;
      if op.Query? {
        RepliesExact(op.c, |m.flash.buf|, signature);
      }
    } else {
      assert (Encode(op) + tail)[1..] == [op.device] + tail;
      assert ([op.device] + tail)[1..] == tail;
    }
  }

  /** One command does to the boot loader what the operation does to the plain
      memory, replies the same, and consumes exactly its own bytes. */
  lemma CommandRefines(m: Machine, p: Plain, signature: Signature, op: Op, tail: seq<byte>)
    requires Refines(m, p) && Legal(p, |m.flash.buf|, op)
    ensures var o := Command(m, signature, Encode(op) + tail);
            var s := PlainStep(p, |m.flash.buf|, signature, op);
            Refines(o.m, s.p) && |o.m.flash.buf| == |m.flash.buf| && o.reply == s.reply && o.rest == tail
  {
    hide Command, PlainStep, Encode;
    match op {
      case WriteFlash(_, _, _) => WriteRefines(m, p, signature, op, tail);
      case ReadFlash(_, _) => ReadRefines(m, p, signature, op, tail);
      case SetAddress(_, _) => SetAddressRefines(m, p, signature, op, tail);
      case _ => QueryRefines(m, p, signature, op, tail);
    }
  }

  /** A whole session: for every script that keeps to the protocol, the replies
      and the flash are those of the plain memory, and the input is consumed
      command by command. */
  lemma {:induction false} SessionRefines(m: Machine, p: Plain, signature: Signature, script: seq<Op>, tail: seq<byte>)
    requires Refines(m, p) && LegalScript(p, |m.flash.buf|, signature, script)
    ensures var o := Session(m, signature, EncodeAll(script) + tail, |script|);
            var s := PlainSession(p, |m.flash.buf|, signature, script);
            Refines(o.m, s.p) && o.reply == s.reply && o.rest == tail
    decreases |script|
  {
    hide Command, PlainStep, Encode, Legal;
    if script == [] {
      assert EncodeAll(script) + tail == tail;
    } else {
      var rest := EncodeAll(script[1..]) + tail;
      assert EncodeAll(script) + tail == Encode(script[0]) + rest;
      CommandRefines(m, p, signature, script[0], rest);
      SessionRefines(Command(m, signature, Encode(script[0]) + rest).m,
                     PlainStep(p, |m.flash.buf|, signature, script[0]).p, signature, script[1..], tail);
    }
  }

  lemma PageCell(mem: seq<byte>, p: nat, b: nat, data: seq<byte>, i: nat)
    requires i < |data| <= p && b + p <= |mem| <= 0x1_0000_0000
    ensures ProgramPage(mem, p, b, data)[Mod(Wrap32(b + i), |mem|)] == data[i]
  {
    hide Mod;
    assert Wrap32(b + i) == b + i;
    ModSmall(b + i, |mem|);
  }

  /** A block that was written is what a read of the same address returns. */
  lemma BlockReadsBack(p: Plain, pageSize: nat, signature: Signature, op: Op)
    requires op.WriteFlash? && |p.mem| > 0 && Legal(p, pageSize, op)
    requires Mod(|p.mem|, pageSize) == 0 && |p.mem| <= 0x1_0000_0000
    ensures Consecutive(PlainStep(p, pageSize, signature, op).p.mem, 2 * p.word, |op.data|) == op.data
  {
    hide Mod, ProgramPage, Wrap32, WrapWord, Word;
    ModRoom(2 * p.word, |p.mem|, pageSize);
    var mem := ProgramPage(p.mem, pageSize, 2 * p.word, op.data);
    forall i | 0 <= i < |op.data|
      ensures Consecutive(mem, 2 * p.word, |op.data|)[i] == op.data[i]
    {
      PageCell(p.mem, pageSize, 2 * p.word, op.data, i);
    }
  }

  // ---- What usb_read_byte returns ----

  /** The bytes of the host, and for the coming calls of usb_read_byte whether a
      byte is there in time; beyond its end every byte is. A call that gives up
      because Timeout is 0 returns 0, leaves the bytes alone, and is recorded in
      `missed`. */
  datatype Wire = Wire(bytes: seq<byte>, present: seq<bool>, missed: bool)

  /** What the calls return. */
  function Heard(w: Wire): seq<byte>
    decreases |w.present|
  {
    if w.present == [] then w.bytes
    else [if w.present[0] then Head(w.bytes) else 0] + Heard(ReadOne(w))
  }

  function ReadOne(w: Wire): Wire {
    if w.present == [] then w.(bytes := Tail(w.bytes))
    else if w.present[0] then w.(bytes := Tail(w.bytes), present := w.present[1..])
    else w.(present := w.present[1..], missed := true)
  }

  function ReadMany(w: Wire, k: nat): Wire
    decreases k
  {
    if k == 0 then w else ReadMany(ReadOne(w), k - 1)
  }

  lemma HeardOne(w: Wire)
    ensures Heard(ReadOne(w)) == Tail(Heard(w))
    ensures Head(Heard(w)) == if w.present == [] || w.present[0] then Head(w.bytes) else 0
  {}

  /** The byte at position i, 0 beyond the end. */
  function At(input: seq<byte>, i: nat): byte {
    if i < |input| then input[i] else 0
  }

  lemma {:induction false} MissedStays(w: Wire, k: nat)
    requires w.missed
    ensures ReadMany(w, k).missed
    decreases k
  {
    if k > 0 {
      MissedStays(ReadOne(w), k - 1);
    }
  }

  lemma DropTail(input: seq<byte>, k: nat)
    requires k > 0
    ensures DropBytes(Tail(input), k - 1) == DropBytes(input, k)
  {}

  lemma NextAt(x: seq<byte>, y: seq<byte>, k: nat)
    requires Head(x) == Head(y) && forall i :: 0 <= i < k ==> At(Tail(x), i) == At(Tail(y), i)
    ensures forall i :: 0 <= i < k + 1 ==> At(x, i) == At(y, i)
  {
    forall i | 0 <= i < k + 1 ensures At(x, i) == At(y, i) {
      if i > 0 {
        assert At(Tail(x), i - 1) == At(Tail(y), i - 1);
      }
    }
  }

  /** As long as no call gives up, the calls return the bytes of the host. */
  lemma {:induction false} HeardPrefix(w: Wire, k: nat)
    requires !ReadMany(w, k).missed
    ensures forall i :: 0 <= i < k ==> At(Heard(w), i) == At(w.bytes, i)
    ensures ReadMany(w, k).bytes == DropBytes(w.bytes, k)
    decreases k
  {
    hide At, Heard, DropBytes, Head, Tail;
    if k == 0 {
      DropNone(w.bytes);
    } else {
      var v := ReadOne(w);
      if w.present != [] && !w.present[0] {
        MissedStays(v, k - 1);
      } else {
        HeardPrefix(v, k - 1);
        HeardOne(w);
        NextAt(Heard(w), w.bytes, k - 1);
        DropTail(w.bytes, k);
      }
    }
  }

  /** The calls of usb_read_byte that a block routine and a command make. */
  function BlockReads(write: bool, input: seq<byte>): nat {
    3 + if write && At(input, 2) == MEMORY_FLASH then Word(At(input, 0), At(input, 1)) else 0
  }

  function CommandReads(input: seq<byte>): nat {
    var c := At(input, 0);
    if c == 'T' as int then 2
    else if c == 'A' as int then 3
    else if c == 'B' as int || c == 'g' as int then 1 + BlockReads(c == 'B' as int, Tail(input))
    else 1
  }

  lemma HeaderAt(input: seq<byte>)
    ensures Head(input) == At(input, 0) && Head(Tail(input)) == At(input, 1) && Head(Tail(Tail(input))) == At(input, 2)
  {}

  lemma DropSum(input: seq<byte>, a: nat, b: nat)
    ensures DropBytes(DropBytes(input, a), b) == DropBytes(input, a + b)
  {}

  lemma BlockConsumes(write: bool, m: Machine, input: seq<byte>)
    ensures Block(write, m, input).rest == DropBytes(input, BlockReads(write, input))
  {
    hide FlashBytes, ProgramBlock, Even, Wrap32, RwwEnable, TakeBytes, DropBytes, Word, Head, Tail, At;
    HeaderAt(input);
    DropSum(input, 3, Word(At(input, 0), At(input, 1)));
  }

  lemma DropFirst(input: seq<byte>, k: nat)
    requires input != []
    ensures DropBytes(input[1..], k) == DropBytes(input, 1 + k) && Tail(input) == input[1..]
    ensures Tail(input[1..]) == DropBytes(input, 2) && DropBytes(input, 1) == input[1..]
  {}

  lemma CommandConsumes(m: Machine, signature: Signature, input: seq<byte>)
    requires input != []
    ensures Command(m, signature, input).rest == DropBytes(input, CommandReads(input))
  {
    hide Block, DropBytes, BlockReads, FixedReply, DecodeAddress, Head, Tail, RwwEnable;
    var c := input[0];
    DropFirst(input, 2);
    if c == 'B' as int || c == 'g' as int {
      DropFirst(input, BlockReads(c == 'B' as int, input[1..]));
      BlockConsumes(c == 'B' as int, m.(timeout := AVR_PROGRAMMER_TIMEOUT, bootMode := BM_NORMAL_BOOT), input[1..]);
    }
  }

  lemma TakeAt(input: seq<byte>, n: nat, i: nat)
    requires i < n
    ensures TakeBytes(input, n)[i] == At(input, i)
  {}

  lemma DropAt(input: seq<byte>, k: nat, i: nat)
    ensures At(DropBytes(input, k), i) == At(input, k + i)
  {}

  lemma SameTake(x: seq<byte>, y: seq<byte>, k: nat, n: nat)
    requires forall i :: 0 <= i < k + n ==> At(x, i) == At(y, i)
    ensures TakeBytes(DropBytes(x, k), n) == TakeBytes(DropBytes(y, k), n)
  {
    hide At, TakeBytes, DropBytes;
    var a, b := TakeBytes(DropBytes(x, k), n), TakeBytes(DropBytes(y, k), n);
    forall i | 0 <= i < n ensures a[i] == b[i] {
      TakeAt(DropBytes(x, k), n, i);
      TakeAt(DropBytes(y, k), n, i);
      DropAt(x, k, i);
      DropAt(y, k, i);
      assert At(x, k + i) == At(y, k + i);
    }
  }

  /** A block routine depends on the bytes it reads only. */
  lemma BlockLocal(write: bool, m: Machine, x: seq<byte>, y: seq<byte>)
    requires forall i :: 0 <= i < BlockReads(write, x) ==> At(x, i) == At(y, i)
    ensures BlockReads(write, y) == BlockReads(write, x)
    ensures Block(write, m, x).m == Block(write, m, y).m && Block(write, m, x).reply == Block(write, m, y).reply
  {
    hide FlashBytes, ProgramBlock, Even, Wrap32, RwwEnable, TakeBytes, DropBytes, Word, Head, Tail, At;
    HeaderAt(x);
    HeaderAt(y);
    assert At(x, 0) == At(y, 0) && At(x, 1) == At(y, 1) && At(x, 2) == At(y, 2);
    if write && At(x, 2) == MEMORY_FLASH {
      SameTake(x, y, 3, Word(At(x, 0), At(x, 1)));
    }
  }

  lemma TailAt(input: seq<byte>, i: nat)
    ensures At(Tail(input), i) == At(input, i + 1)
  {}

  /** And so does a command. */
  lemma CommandLocal(m: Machine, signature: Signature, x: seq<byte>, y: seq<byte>)
    requires x != [] && y != [] && forall i :: 0 <= i < CommandReads(x) ==> At(x, i) == At(y, i)
    ensures CommandReads(y) == CommandReads(x)
    ensures Command(m, signature, x).m == Command(m, signature, y).m
    ensures Command(m, signature, x).reply == Command(m, signature, y).reply
  {
    hide Block, BlockReads, FixedReply, DecodeAddress, RwwEnable, DropBytes;
    var c := x[0];
    assert At(x, 0) == At(y, 0);
    if c == 'B' as int || c == 'g' as int {
      var k := BlockReads(c == 'B' as int, Tail(x));
      forall i | 0 <= i < k ensures At(Tail(x), i) == At(Tail(y), i) {
        TailAt(x, i);
        TailAt(y, i);
        assert At(x, i + 1) == At(y, i + 1);
      }
      BlockLocal(c == 'B' as int, m.(timeout := AVR_PROGRAMMER_TIMEOUT, bootMode := BM_NORMAL_BOOT), Tail(x), Tail(y));
    } else if c == 'A' as int {
      assert At(x, 1) == At(y, 1) && At(x, 2) == At(y, 2);
      HeaderAt(x);
      HeaderAt(y);
    }
  }

  // ---- The timeout of the programmer ----

  /** `ticks` timer interrupts. */
  function Elapse(m: Machine, ticks: nat): Machine {
    m.(timeout := if ticks < m.timeout then m.timeout - ticks else 0)
  }

  /** A turn of the command loop: the timer interrupts before its test of Timeout,
      and which bytes behind the command byte are there in time. */
  datatype Turn = Turn(ticks: nat, present: seq<bool>)

  /** The host's bytes as the command of a turn finds them; its first byte is there. */
  function TurnWire(bytes: seq<byte>, turn: Turn): Wire {
    Wire(bytes, [true] + turn.present, false)
  }

  /** What the command of a turn leaves of them. */
  function TurnLeft(bytes: seq<byte>, turn: Turn): Wire {
    var w := TurnWire(bytes, turn);
    ReadMany(w, CommandReads(Heard(w)))
  }

  /** A call that gave up shows that Timeout has run out. */
  function Expire(m: Machine, missed: bool): Machine {
    if missed then m.(timeout := 0) else m
  }

  lemma HeardSomething(bytes: seq<byte>, turn: Turn)
    ensures Heard(TurnWire(bytes, turn)) != []
  {}

  /** The command loop, which ends when Timeout is 0. */
  function TimedSession(m: Machine, signature: Signature, bytes: seq<byte>, turns: seq<Turn>): Outcome
    decreases |turns|
  {
    if turns == [] then Outcome(m, [], bytes)
    else
      var e := Elapse(m, turns[0].ticks);
      if e.timeout == 0 then Outcome(e, [], bytes)
      else if bytes == [] then TimedSession(e, signature, bytes, turns[1..])
      else
        HeardSomething(bytes, turns[0]);
        var o := Command(e, signature, Heard(TurnWire(bytes, turns[0])));
        var left := TurnLeft(bytes, turns[0]);
        var s := TimedSession(Expire(o.m, left.missed), signature, left.bytes, turns[1..]);
        Outcome(s.m, o.reply + s.reply, s.rest)
  }

  predicate SameButTimeout(a: Machine, b: Machine) {
    a == b.(timeout := a.timeout)
  }

  lemma CommandIgnoresTimeout(a: Machine, b: Machine, signature: Signature, input: seq<byte>)
    requires SameButTimeout(a, b) && input != []
    ensures var o, q := Command(a, signature, input), Command(b, signature, input);
            SameButTimeout(o.m, q.m) && o.reply == q.reply && o.rest == q.rest
  {
    hide FlashBytes, ProgramBlock, Even, Wrap32, DecodeAddress, FixedReply, RwwEnable, TakeBytes, DropBytes;
  }

  /** A command whose bytes are all there in time is that of an untimed session. */
  lemma PromptCommand(m: Machine, signature: Signature, bytes: seq<byte>, turn: Turn)
    requires bytes != [] && !TurnLeft(bytes, turn).missed
    ensures Heard(TurnWire(bytes, turn)) != []
    ensures var o, q := Command(m, signature, Heard(TurnWire(bytes, turn))), Command(m, signature, bytes);
            o.m == q.m && o.reply == q.reply && TurnLeft(bytes, turn).bytes == q.rest
  {
    hide Command, CommandReads, Heard, ReadMany, At, DropBytes;
    HeardSomething(bytes, turn);
    var w := TurnWire(bytes, turn);
    HeardPrefix(w, CommandReads(Heard(w)));
    CommandLocal(m, signature, Heard(w), bytes);
    CommandConsumes(m, signature, bytes);
  }

  /** The loop has done what n commands of an untimed session do. */
  predicate Follows(t: Outcome, s: Outcome) {
    SameButTimeout(t.m, s.m) && t.reply == s.reply && t.rest == s.rest
  }

  /** The loop has done what n commands of an untimed session do, and then a command
      that found some of its bytes missing and heard zeros for them; Timeout is 0. */
  predicate FollowsCut(t: Outcome, s: Outcome, signature: Signature, turn: Turn) {
    && s.rest != [] && TurnLeft(s.rest, turn).missed && t.m.timeout == 0
    && (HeardSomething(s.rest, turn);
        var o := Command(s.m, signature, Heard(TurnWire(s.rest, turn)));
        SameButTimeout(t.m, o.m) && t.reply == s.reply + o.reply && t.rest == TurnLeft(s.rest, turn).bytes)
  }

  lemma FollowsAfter(before: seq<byte>, t: Outcome, s: Outcome)
    requires Follows(t, s)
    ensures Follows(t.(reply := before + t.reply), s.(reply := before + s.reply))
  {}

  lemma FollowsCutAfter(before: seq<byte>, t: Outcome, s: Outcome, signature: Signature, turn: Turn)
    requires FollowsCut(t, s, signature, turn)
    ensures FollowsCut(t.(reply := before + t.reply), s.(reply := before + s.reply), signature, turn)
  {
    hide Command, Heard, TurnLeft, TurnWire;
    HeardSomething(s.rest, turn);
    var o := Command(s.m, signature, Heard(TurnWire(s.rest, turn)));
    assert before + (s.reply + o.reply) == (before + s.reply) + o.reply;
  }

  /** Whenever the timer fires and whichever bytes are late, the loop does what some
      number of commands of an untimed session do, and after those at most one
      command that is cut by Timeout. It stops short of the host's input only because
      Timeout has run out or the turns have. */
  lemma {:induction false} TimedIsPrefix(m: Machine, b: Machine, signature: Signature, bytes: seq<byte>, turns: seq<Turn>)
    returns (n: nat, cut: nat)
    requires SameButTimeout(m, b)
    ensures n <= cut <= |turns|
    ensures var t, s := TimedSession(m, signature, bytes, turns), Session(b, signature, bytes, n);
            if cut < |turns| then FollowsCut(t, s, signature, turns[cut])
            else Follows(t, s) && (t.rest == [] || t.m.timeout == 0 || n == |turns|)
    decreases |turns|
  {
    hide Command, Follows, FollowsCut, TurnLeft, TurnWire, Heard;
    n, cut := 0, |turns|;
    var t := TimedSession(m, signature, bytes, turns);
    if turns == [] || Elapse(m, turns[0].ticks).timeout == 0 {
      FollowsNothing(t, b, bytes);
    } else if bytes == [] {
      var k, c := TimedIsPrefix(Elapse(m, turns[0].ticks), b, signature, bytes, turns[1..]);
      n, cut := k + 1, c + 1;
      SessionNothing(b, signature, k);
      SessionNothing(b, signature, k + 1);
    } else if TurnLeft(bytes, turns[0]).missed {
      cut := 0;
      CutCommand(m, b, signature, bytes, turns);
    } else {
      var e := Elapse(m, turns[0].ticks);
      PromptCommand(e, signature, bytes, turns[0]);
      CommandIgnoresTimeout(e, b, signature, bytes);
      var o, q := Command(e, signature, bytes), Command(b, signature, bytes);
      var k, c := TimedIsPrefix(o.m, q.m, signature, o.rest, turns[1..]);
      n, cut := k + 1, c + 1;
      var u, v := TimedSession(o.m, signature, o.rest, turns[1..]), Session(q.m, signature, o.rest, k);
      if c < |turns[1..]| {
        FollowsCutAfter(o.reply, u, v, signature, turns[1..][c]);
        assert turns[1..][c] == turns[cut];
      } else {
        FollowsAfter(o.reply, u, v);
      }
    }
  }

  lemma FollowsNothing(t: Outcome, b: Machine, bytes: seq<byte>)
    requires SameButTimeout(t.m, b) && t.reply == [] && t.rest == bytes
    ensures Follows(t, Outcome(b, [], bytes))
  {}

  lemma SessionNothing(m: Machine, signature: Signature, n: nat)
    ensures Session(m, signature, [], n) == Session(m, signature, [], 0)
  {}

  /** The turn whose command is cut is the last. */
  lemma CutCommand(m: Machine, b: Machine, signature: Signature, bytes: seq<byte>, turns: seq<Turn>)
    requires SameButTimeout(m, b) && bytes != [] && turns != [] && TurnLeft(bytes, turns[0]).missed
    requires Elapse(m, turns[0].ticks).timeout != 0
    ensures FollowsCut(TimedSession(m, signature, bytes, turns), Outcome(b, [], bytes), signature, turns[0])
  {
    hide Command, TurnLeft, TurnWire, Heard;
    var e, left := Elapse(m, turns[0].ticks), TurnLeft(bytes, turns[0]);
    HeardSomething(bytes, turns[0]);
    var h := Heard(TurnWire(bytes, turns[0]));
    CommandIgnoresTimeout(e, b, signature, h);
    var o := Command(e, signature, h);
    TimedOut(o.m.(timeout := 0), signature, left.bytes, turns[1..]);
    assert o.reply + [] == [] + o.reply;
  }

  lemma TimedOut(m: Machine, signature: Signature, bytes: seq<byte>, turns: seq<Turn>)
    requires m.timeout == 0
    ensures TimedSession(m, signature, bytes, turns) == Outcome(m, [], bytes)
  {}

  function Total(turns: seq<Turn>): nat {
    if turns == [] then 0 else turns[0].ticks + Total(turns[1..])
  }

  /** Every byte is there when it is asked for. */
  predicate Prompt(turns: seq<Turn>) {
    forall i, j :: 0 <= i < |turns| && 0 <= j < |turns[i].present| ==> turns[i].present[j]
  }

  lemma {:induction false} PromptReads(w: Wire, k: nat)
    requires !w.missed && forall j :: 0 <= j < |w.present| ==> w.present[j]
    ensures !ReadMany(w, k).missed
    decreases k
  {
    if k > 0 {
      PromptReads(ReadOne(w), k - 1);
    }
  }

  /** With fewer ticks than Timeout has left, and fewer than the ten an 'E' leaves,
      every command of a prompt host is served. */
  lemma {:induction false} ServedInTime(m: Machine, b: Machine, signature: Signature, bytes: seq<byte>, turns: seq<Turn>)
    requires SameButTimeout(m, b) && Total(turns) < m.timeout && Total(turns) < 10 && Prompt(turns)
    ensures Follows(TimedSession(m, signature, bytes, turns), Session(b, signature, bytes, |turns|))
    decreases |turns|
  {
    hide Command, TurnLeft, TurnWire, Heard;
    if turns != [] {
      var e := Elapse(m, turns[0].ticks);
      assert Prompt(turns[1..]);
      if bytes == [] {
        ServedInTime(e, b, signature, bytes, turns[1..]);
        SessionNothing(b, signature, |turns|);
        SessionNothing(b, signature, |turns| - 1);
      } else {
        assert !TurnLeft(bytes, turns[0]).missed by { PromptTurn(bytes, turns[0]); }
        PromptCommand(e, signature, bytes, turns[0]);
        CommandIgnoresTimeout(e, b, signature, bytes);
        TimeoutAfter(e, signature, bytes);
        ServedInTime(Command(e, signature, bytes).m, Command(b, signature, bytes).m, signature,
                     Command(e, signature, bytes).rest, turns[1..]);
      }
    }
  }

  lemma PromptTurn(bytes: seq<byte>, turn: Turn)
    requires forall j :: 0 <= j < |turn.present| ==> turn.present[j]
    ensures !TurnLeft(bytes, turn).missed
  {
    hide Heard, CommandReads;
    var w := TurnWire(bytes, turn);
    PromptReads(w, CommandReads(Heard(w)));
  }

  lemma TimeoutAfter(m: Machine, signature: Signature, input: seq<byte>)
    requires input != []
    ensures var t := Command(m, signature, input).m.timeout; t == m.timeout || t >= 10
  {
    hide FlashBytes, ProgramBlock, Even, Wrap32, DecodeAddress, FixedReply, RwwEnable, TakeBytes, DropBytes;
  }

  /** A block whose memory type is not there in time changes nothing and is answered '?'. */
  lemma CutHeaderIsRefused(write: bool, m: Machine, w: Wire)
    requires |w.present| > 2 && !w.present[2]
    ensures Block(write, m, Heard(w)).m == m && Block(write, m, Heard(w)).reply == ['?' as int]
  {
    hide Heard, FlashBytes, ProgramBlock, Head;
    HeardOne(w);
    HeardOne(ReadOne(w));
    HeardOne(ReadOne(ReadOne(w)));
  }

  // ---- Timeout, boot mode and address ----

  /** What commands do to Timeout and boot_mode: 'B' and 'g' give the host three
      seconds, 60 ticks, and select the normal boot, mode '0'; 'E' leaves ten ticks;
      and no other command touches them. */
  lemma TimeoutAndMode(m: Machine, signature: Signature, input: seq<byte>)
    requires input != []
    ensures var o := Command(m, signature, input).m;
            && o.timeout == (if input[0] == 66 || input[0] == 103 then 60 else if input[0] == 69 then 10 else m.timeout)
            && o.bootMode == (if input[0] == 66 || input[0] == 103 then 48 else m.bootMode)
  {
    hide FlashBytes, ProgramBlock, Even, Wrap32, DecodeAddress, FixedReply, RwwEnable, TakeBytes, DropBytes;
  }

  /** After an 'E' the loop ends with the tenth tick and not before. */
  lemma LeavesInTenTicks(m: Machine, signature: Signature, tail: seq<byte>, turn: Turn)
    ensures var o := Command(m, signature, [69] + tail);
            TimedSession(o.m, signature, [], [turn]).m.timeout == if turn.ticks < 10 then 10 - turn.ticks else 0
  {
    hide RwwEnable;
    TimeoutAndMode(m, signature, [69] + tail);
    var o := Command(m, signature, [69] + tail);
    assert [turn][1..] == [];
    assert TimedSession(Elapse(o.m, turn.ticks), signature, [], []).m == Elapse(o.m, turn.ticks);
  }

  /** What 'A' makes of any address: the low half of the byte address is right, and
      the high half is all ones if bit 14 of the word address is set. */
  lemma AddressSignExtends(hi: byte, lo: byte)
    ensures DecodeAddress(hi, lo) % 0x1_0000 == 2 * Word(hi, lo) % 0x1_0000
    ensures DecodeAddress(hi, lo) / 0x1_0000 == if hi % 0x80 >= 0x40 then 0xFFFF else 0
  {
    hide DecodeAddress;
    DecodeIsSum(hi, lo);
  }

  /** A block for another memory than the flash is answered '?' after its header, and
      only sets Timeout and boot mode. */
  lemma OtherMemoryRefused(m: Machine, signature: Signature, write: bool, hi: byte, lo: byte, memory: byte, tail: seq<byte>)
    requires memory != 70
    ensures Command(m, signature, [if write then 66 else 103, hi, lo, memory] + tail)
         == Outcome(m.(timeout := 60, bootMode := 48), [63], tail)
  {
    hide FlashBytes, ProgramBlock, Even, Wrap32, DecodeAddress, FixedReply, RwwEnable, TakeBytes;
    var whole, input := [if write then 66 else 103, hi, lo, memory] + tail, [hi, lo, memory] + tail;
    assert whole[1..] == input;
    assert Tail(input) == [lo, memory] + tail && Tail(Tail(input)) == [memory] + tail;
    assert DropBytes(input, 3) == tail;
  }
}
