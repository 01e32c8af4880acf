/** The commands of the CDC class boot loader beside its blocks: what it answers,
    byte by byte, and what chip erase, exit, and the commands for single bytes and
    lock bits achieve. */
module CdcCommands {
  import opened Bytes
  import opened FlashMemory
  import opened UsbEndpoint
  import opened CdcLoader
  import A = Avr109
  import D = DfuMemory

  /** The command bytes that the boot loader knows. */
  const KNOWN: set<byte> :=
    {27, 65, 66, 67, 68, 69, 70, 76, 78, 80, 81, 82, 83, 84, 86, 97, 98, 99, 100, 101, 103, 108, 109, 112, 114, 115, 116}

  /** Commands that only answer, and what they answer: the identifier LUFACDC, the
      version 1.0, the signature last byte first, the lock bits and fuses, and '?' to
      a command that is not known. */
  lemma AnswersExact(part: Part, d: Device, c: byte, tail: seq<byte>)
    requires c in {27, 70, 76, 78, 80, 81, 83, 86, 97, 112, 114, 115, 116} || c !in KNOWN
    ensures Command(part, d, [c] + tail)
         == Done(d,
                 if c == 76 || c == 80 then [13]
                 else if c == 116 then [68, 0]
                 else if c == 97 then [89]
                 else if c == 112 then [83]
                 else if c == 83 then [76, 85, 70, 65, 67, 68, 67]
                 else if c == 86 then [49, 48]
                 else if c == 115 then [part.signature[2], part.signature[1], part.signature[0]]
                 else if c == 114 then [d.lock]
                 else if c == 70 then [part.low]
                 else if c == 78 then [part.high]
                 else if c == 81 then [part.extended]
                 else if c == 27 then []
                 else [63],
                 1)
  {
    hide Block, A.DecodeAddress, Fill, WritePage, EraseFrom, And, OrBits, EepromIndex;
    assert A.Text("LUFACDC") == [76, 85, 70, 65, 67, 68, 67];
  }

  /** 'b' answers 'Y' and the size of a page, high byte first. */
  lemma PageSizeAnswer(part: Part, d: Device, tail: seq<byte>)
    requires |d.flash.buf| < 0x1_0000
    ensures var o := Command(part, d, [98] + tail);
            && o.d == d && o.fetched == 1
            && |o.reply| == 3 && o.reply[0] == 89 && Word(o.reply[1], o.reply[2]) == |d.flash.buf|
  {
    hide Block, A.DecodeAddress, Fill, WritePage, EraseFrom, And, OrBits, EepromIndex;
  }

  /** 'E' is confirmed and ends the main loop: no further command is served. */
  lemma ExitEnds(part: Part, d: Device, tail: seq<byte>, s: OutStream, n: nat)
    ensures var o := Command(part, d, [69] + tail);
            && o == Done(o.d, [13], 1) && o.d == d.(running := false)
            && Tasks(part, o.d, s, n) == Turn(o.d, [], s)
  {
    hide Block, A.DecodeAddress, Fill, WritePage, EraseFrom, And, OrBits, EepromIndex, Answer;
  }

  /** 'e' is confirmed, empties the page buffer, and leaves the application section
      blank if and only if the buffer was empty for the first page; an aligned boot
      section is spared. */
  lemma EraseExact(part: Part, d: Device, tail: seq<byte>)
    requires 0 < part.bootStart <= |d.flash.mem|
    ensures var o := Command(part, d, [101] + tail);
            && o.reply == [13] && o.fetched == 1 && o.d == d.(flash := o.d.flash)
            && |o.d.flash.mem| == |d.flash.mem| && o.d.flash.buf == Blank(|d.flash.buf|)
            && ((forall i :: 0 <= i < part.bootStart ==> o.d.flash.mem[i] == 0xFF)
                <==> forall i :: 0 <= i < |d.flash.buf| && i < part.bootStart ==> d.flash.buf[i] == 0xFF)
            && (Mod(part.bootStart, |d.flash.buf|) == 0 ==>
                  forall i :: part.bootStart <= i < |d.flash.mem| ==> o.d.flash.mem[i] == d.flash.mem[i])
  {
    hide Block, A.DecodeAddress, Fill, WritePage, EraseFrom, And, OrBits, EepromIndex, Answer, Mod;
    ModSmall(0, |d.flash.buf|);
    D.EraseFromExact(d.flash, 0, part.bootStart);
    ErasedCells(d.flash, part.bootStart, EraseFrom(d.flash, 0, part.bootStart).mem);
  }

  lemma ErasedCells(f: Flash, limit: nat, mem: seq<byte>)
    requires 0 < limit <= |f.mem| == |mem|
    requires forall i :: 0 <= i < |mem| ==> mem[i] == D.ErasedByte(f, 0, limit, i)
    ensures (forall i :: 0 <= i < limit ==> mem[i] == 0xFF)
       <==> forall i :: 0 <= i < |f.buf| && i < limit ==> f.buf[i] == 0xFF
    ensures Mod(limit, |f.buf|) == 0 ==> forall i :: limit <= i < |f.mem| ==> mem[i] == f.mem[i]
  {
    forall i | 0 <= i < limit ensures mem[i] == if i < |f.buf| then f.buf[i] else 0xFF {
      assert mem[i] == D.ErasedByte(f, 0, limit, i);
    }
    if Mod(limit, |f.buf|) == 0 {
      forall i | limit <= i < |f.mem| ensures mem[i] == f.mem[i] {
        PageAbove(limit, i, |f.buf|);
        assert mem[i] == D.ErasedByte(f, 0, limit, i);
      }
    }
  }

  // ---- EEPROM bytes ----

  /** 'D' stores a byte in the cell that the word address numbers, and 'd' reads it;
      both move on by one cell. */
  lemma EepromByteCommands(part: Part, d: Device, w: nat, b: byte, tail: seq<byte>)
    requires d.addr == 2 * w && w < |d.eeprom| <= 0x1_0000
    ensures Command(part, d, [68, b] + tail) == Done(d.(eeprom := d.eeprom[w := b], addr := 2 * (w + 1)), [13], 2)
    ensures Command(part, d, [100] + tail) == Done(d.(addr := 2 * (w + 1)), [d.eeprom[w]], 1)
  {
    hide Block, A.DecodeAddress, Fill, WritePage, EraseFrom, And, OrBits, Answer, Mod;
    ModSmall(w, |d.eeprom|);
    assert A.Tail([68, b] + tail) == [b] + tail;
    assert A.Wrap32(d.addr + 2) == 2 * (w + 1);
  }

  /** So a byte that was written is what is read back at its address. */
  lemma EepromByteReadsBack(part: Part, d: Device, hi: byte, lo: byte, b: byte, t1: seq<byte>, t2: seq<byte>, t3: seq<byte>,
                            t4: seq<byte>)
    requires hi < 0x40 && Word(hi, lo) < |d.eeprom| <= 0x1_0000
    ensures var d1 := Command(part, d, [65, hi, lo] + t1).d;
            var d2 := Command(part, d1, [68, b] + t2).d;
            var d3 := Command(part, d2, [65, hi, lo] + t3).d;
            && Command(part, d3, [100] + t4).reply == [b]
            && d3.eeprom == d.eeprom[Word(hi, lo) := b] && d3.flash == d.flash
  {
    hide Command;
    var w := Word(hi, lo);
    AddressCommand(part, d, hi, lo, t1);
    var d1 := Command(part, d, [65, hi, lo] + t1).d;
    EepromByteCommands(part, d1, w, b, t2);
    var d2 := Command(part, d1, [68, b] + t2).d;
    AddressCommand(part, d2, hi, lo, t3);
    EepromByteCommands(part, Command(part, d2, [65, hi, lo] + t3).d, w, b, t4);
  }

  // ---- Lock bits ----

  /** 'l' can only clear lock bits, namely those that are set in its argument, and 'r'
      shows them. */
  lemma LockBits(part: Part, d: Device, b: byte, t1: seq<byte>, t2: seq<byte>, i: nat)
    requires i < 8
    ensures var o := Command(part, d, [108, b] + t1);
            var r := Command(part, o.d, [114] + t2).reply;
            && o.reply == [13] && o.fetched == 2 && o.d == d.(lock := o.d.lock) && |r| == 1
            && (Bit(r[0], i) <==> Bit(d.lock, i) && !Bit(b, i))
  {
    hide Block, A.DecodeAddress, Fill, WritePage, EraseFrom, And, OrBits, Answer, Bit;
    assert A.Tail([108, b] + t1) == [b] + t1;
    var o := Command(part, d, [108, b] + t1);
    AnswersExact(part, o.d, 114, t2);
    BitAnd(d.lock, 0xFF - b, i);
    BitComplement(b, i);
  }

  // ---- Flash words and bytes ----

  /** 'R' answers with the two bytes that a block read of two bytes answers with, high
      byte first. */
  lemma ReadWordIsBlock(part: Part, d: Device, t1: seq<byte>, t2: seq<byte>)
    requires d.addr < 0x1_0000_0000 && d.addr % 2 == 0
    ensures var word, block := Command(part, d, [82] + t1), Command(part, d, [103, 0, 2, 70] + t2);
            && |block.reply| == 2 && word.reply == [block.reply[1], block.reply[0]]
            && word.d == d && block.d.addr == A.Wrap32(d.addr + 2)
  {
    hide Command, A.FlashBytes, ReadTurns, Word, Mod;
    var whole, input := [103, 0, 2, 70] + t2, [0, 2, 70] + t2;
    assert A.Tail(whole) == input;
    var e := d.(flash := RwwEnable(d.flash));
    BlockCommands(part, d, A.Machine(0, d.flash, 0, 0), false, whole, input);
    BlockOfTwo(d, t2);
    FlashReadAgrees(e, 2);
    TwoBytes(e.flash, d.addr);
    WordAnswer(part, d, t1);
    A.EvenExact(2);
  }

  lemma BlockOfTwo(d: Device, tail: seq<byte>)
    ensures var r := ReadTurns(70, d.(flash := RwwEnable(d.flash)), false, 2);
            Block(false, d, [0, 2, 70] + tail) == Done(r.d, r.reply, 3)
  {
    hide ReadTurns, RwwEnable;
    var input := [0, 2, 70] + tail;
    assert A.Tail(input) == [2, 70] + tail && A.Tail(A.Tail(input)) == [70] + tail;
  }

  lemma WordAnswer(part: Part, d: Device, tail: seq<byte>)
    ensures Command(part, d, [82] + tail) == Done(d, [ReadByte(d.flash, d.addr + 1), ReadByte(d.flash, d.addr)], 1)
  {
    hide Block, A.DecodeAddress, Fill, WritePage, EraseFrom, And, OrBits, EepromIndex, ReadByte;
  }

  lemma TwoBytes(f: Flash, addr: nat)
    requires addr < 0x1_0000_0000 && addr % 2 == 0
    ensures A.FlashBytes(f, addr, 2) == [ReadByte(f, addr), ReadByte(f, addr + 1)]
  {
    hide Mod, A.Wrap32, A.FlashBytes;
    A.FlashBytesConsecutive(f, addr, 2);
    WrapSmall(addr);
    WrapSmall(addr + 1);
    var c := A.Consecutive(f.mem, addr, 2);
    assert c[0] == f.mem[Mod(A.Wrap32(addr + 0), |f.mem|)] && c[1] == f.mem[Mod(A.Wrap32(addr + 1), |f.mem|)];
    assert c == [c[0], c[1]];
  }

  /** 'C' and 'c' both fill the current word with their byte in its low half and zero
      in its high half; 'c' then moves to the next word. */
  lemma ByteFills(part: Part, d: Device, b: byte, tail: seq<byte>)
    requires d.addr < 0x1_0000_0000 && d.addr % 2 == 0
    ensures Command(part, d, [67, b] + tail) == Done(d.(flash := Fill(d.flash, d.addr, b, 0)), [13], 2)
    ensures Command(part, d, [99, b] + tail)
         == Done(d.(flash := Fill(d.flash, d.addr, b, 0), addr := A.Wrap32(d.addr + 2)), [13], 2)
  {
    hide Block, A.DecodeAddress, Fill, WritePage, EraseFrom, And, OrBits, Answer, EepromIndex, A.Wrap32;
    assert A.Tail([67, b] + tail) == [b] + tail && A.Tail([99, b] + tail) == [b] + tail;
    A.OrLowBit(d.addr, 1);
    SameWord(d.flash, d.addr, b);
  }

  lemma SameWord(f: Flash, a: nat, b: byte)
    requires a % 2 == 0
    ensures Fill(f, a + 1, b, 0) == Fill(f, a, b, 0)
  {
    hide Mod;
    ModTwo(a);
    D.EvenPlace(a, |f.buf|);
    ModSucc(a, |f.buf|);
    ModTwo(Mod(a, |f.buf|));
    ModTwo(Mod(a, |f.buf|) + 1);
    ModRoom(Mod(a, |f.buf|), |f.buf|, 2);
  }

  /** Programmed with 'm' into an erased page, such a word reads as the byte and zero. */
  lemma ByteProgrammed(part: Part, d: Device, b: byte, t1: seq<byte>, t2: seq<byte>)
    requires d.addr < |d.flash.mem| <= 0x1_0000_0000 && d.addr % 2 == 0
    requires d.flash.mem[d.addr] == 0xFF && d.addr + 1 < |d.flash.mem| && d.flash.mem[d.addr + 1] == 0xFF
    ensures var o := Command(part, Command(part, d, [67, b] + t1).d, [109] + t2);
            o.reply == [13] && |o.d.flash.mem| == |d.flash.mem|
            && o.d.flash.mem[d.addr] == b && o.d.flash.mem[d.addr + 1] == 0
  {
    hide Command, Fill, WritePage;
    ByteFills(part, d, b, t1);
    CommitAnswer(part, Command(part, d, [67, b] + t1).d, t2);
    WordWritten(d.flash, d.addr, b);
  }

  lemma CommitAnswer(part: Part, d: Device, tail: seq<byte>)
    ensures Command(part, d, [109] + tail) == Done(d.(flash := WritePage(d.flash, d.addr)), [13], 1)
  {
    hide Block, A.DecodeAddress, Fill, WritePage, EraseFrom, And, OrBits, EepromIndex, Answer;
  }

  lemma WordWritten(f: Flash, a: nat, b: byte)
    requires a + 1 < |f.mem| && a % 2 == 0 && f.mem[a] == 0xFF && f.mem[a + 1] == 0xFF
    ensures var w := WritePage(Fill(f, a, b, 0), a); w.mem[a] == b && w.mem[a + 1] == 0
  {
    hide Mod, And;
    var off, p := Mod(a, |f.buf|), |f.buf|;
    D.BaseOf(f, a);
    ModTwo(a);
    D.EvenPlace(a, p);
    ModRoom(off, p, 2);
    FillPlace(f, a);
    var g := Fill(f, a, b, 0);
    assert PageBase(g, a) == PageBase(f, a);
    AndErased(b);
    AndErased(0);
  }

  lemma FillPlace(f: Flash, a: nat)
    requires Mod(Mod(a, |f.buf|), 2) == 0
    ensures FillIndex(f, a) == Mod(a, |f.buf|)
  {}

  /** A block for another memory than 'E' and 'F' is answered '?' after its header. */
  lemma OtherMemoryRefused(part: Part, d: Device, write: bool, hi: byte, lo: byte, memory: byte, tail: seq<byte>)
    requires memory != 69 && memory != 70
    ensures Command(part, d, [if write then 66 else 103, hi, lo, memory] + tail) == Done(d, [63], 4)
  {
    hide Command, ReadTurns, WriteTurns, Erase, WritePage, RwwEnable;
    var whole, input := [if write then 66 else 103, hi, lo, memory] + tail, [hi, lo, memory] + tail;
    assert A.Tail(whole) == input;
    assert A.Tail(input) == [lo, memory] + tail && A.Tail(A.Tail(input)) == [memory] + tail;
    BlockCommands(part, d, A.Machine(0, d.flash, 0, 0), write, whole, input);
  }
}
