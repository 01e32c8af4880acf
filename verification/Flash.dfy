/** The self-programmable flash of an AVR as the boot loaders drive it through
    boot_page_erase, boot_page_fill, boot_page_write and boot_rww_enable: a byte
    array and a temporary buffer of one page. Address bits above the array are
    ignored, as the hardware ignores them. */
module FlashMemory {
  import opened Bytes

  datatype FlashState = FlashState(mem: seq<byte>, buf: seq<byte>)

  predicate WellFormed(f: FlashState) {
    0 < |f.buf| && Mod(|f.buf|, 2) == 0 && 0 < |f.mem| && Mod(|f.mem|, |f.buf|) == 0
  }

  type Flash = f: FlashState | WellFormed(f) witness FlashState([0xFF, 0xFF], [0xFF, 0xFF])

  function Blank(n: nat): (s: seq<byte>)
    ensures |s| == n && forall i :: 0 <= i < n ==> s[i] == 0xFF
  {
    seq(n, _ => 0xFF)
  }

  /** First address of the page that holds address a. */
  function PageBase(f: Flash, a: nat): (b: nat)
    ensures b <= Mod(a, |f.mem|) < b + |f.buf| <= |f.mem|
    ensures Mod(b, |f.buf|) == 0
  {
    var x := Mod(a, |f.mem|);
    ModRoom(x, |f.mem|, |f.buf|);
    ModBase(x, |f.buf|);
    x - Mod(x, |f.buf|)
  }

  function Erase(f: Flash, a: nat): (r: Flash)
    ensures |r.mem| == |f.mem| && |r.buf| == |f.buf|
  {
    var b := PageBase(f, a);
    f.(mem := seq(|f.mem|, i requires 0 <= i < |f.mem| =>
                    if b <= i < b + |f.buf| then 0xFF else f.mem[i]))
  }

  /** Stores a little-endian word in the temporary buffer; bit 0 of the address is ignored. */
  function Fill(f: Flash, a: nat, lo: byte, hi: byte): (r: Flash)
    ensures r.mem == f.mem && |r.buf| == |f.buf|
  {
    var k := FillIndex(f, a);
    f.(buf := f.buf[k := lo][k + 1 := hi])
  }

  function FillIndex(f: Flash, a: nat): (k: nat)
    ensures k + 1 < |f.buf|
  {
    var m := Mod(a, |f.buf|);
    ModRoom(m, |f.buf|, 2);
    m - Mod(m, 2)
  }

  /** Programming can only clear bits, and it empties the temporary buffer. */
  function WritePage(f: Flash, a: nat): (r: Flash)
    ensures |r.mem| == |f.mem| && |r.buf| == |f.buf|
  {
    var b := PageBase(f, a);
    f.(mem := seq(|f.mem|, i requires 0 <= i < |f.mem| =>
                    if b <= i < b + |f.buf| then And(f.mem[i], f.buf[i - b]) else f.mem[i]),
       buf := Blank(|f.buf|))
  }

  function RwwEnable(f: Flash): (r: Flash)
    ensures r.mem == f.mem && |r.buf| == |f.buf|
  {
    f.(buf := Blank(|f.buf|))
  }

  /** Erase followed by a write of the (normally empty) buffer, page after page. */
  function EraseFrom(f: Flash, a: nat, limit: nat): (r: Flash)
    ensures |r.mem| == |f.mem| && |r.buf| == |f.buf|
    decreases limit - a
  {
    if a >= limit then f else EraseFrom(WritePage(Erase(f, a), a), a + |f.buf|, limit)
  }

  function ReadByte(f: Flash, a: nat): byte {
    f.mem[Mod(a, |f.mem|)]
  }

  /** What programming `data` from the start of the page at b is for: the page
      then holds the data followed by erased cells, and nothing else changed. */
  function ProgramPage(mem: seq<byte>, p: nat, b: nat, data: seq<byte>): (r: seq<byte>)
    requires |data| <= p
    ensures |r| == |mem|
  {
    seq(|mem|, i requires 0 <= i < |mem| =>
          if i < b || b + p <= i then mem[i]
          else if i < b + |data| then data[i - b] else 0xFF)
  }

  /** The same over as many pages as `data` reaches into: every page the data
      touches is replaced, with erased cells after the last byte. */
  function ProgramRange(mem: seq<byte>, p: nat, b: nat, data: seq<byte>): (r: seq<byte>)
    requires p > 0
    ensures |r| == |mem|
  {
    seq(|mem|, i requires 0 <= i < |mem| =>
          if i < b || b + |data| <= i - Mod(i, p) then mem[i]
          else if i < b + |data| then data[i - b] else 0xFF)
  }

  /** A run of boot_page_fill calls on consecutive word addresses. */
  function FillWords(f: Flash, a: nat, data: seq<byte>): (r: Flash)
    requires Mod(|data|, 2) == 0
    ensures r.mem == f.mem && |r.buf| == |f.buf|
    decreases |data|
  {
    if data == [] then f else FillWords(Fill(f, a, data[0], data[1]), a + 2, data[2..])
  }

  /** The buffer has received `data` for the start of the page, and nothing else. */
  predicate Holds(buf: seq<byte>, data: seq<byte>) {
    forall i :: 0 <= i < |buf| ==> buf[i] == if i < |data| then data[i] else 0xFF
  }

  lemma FillIndexExact(f: Flash, b: nat, k: nat)
    requires Mod(b, |f.buf|) == 0 && Mod(k, 2) == 0 && k < |f.buf|
    ensures FillIndex(f, b + k) == k
  {
    ModOffset(b, k, |f.buf|);
  }

  /** Filling the next word of a page. */
  lemma FillNext(f: Flash, b: nat, pre: seq<byte>, lo: byte, hi: byte)
    requires Mod(b, |f.buf|) == 0 && Mod(|pre|, 2) == 0 && |pre| < |f.buf| && Holds(f.buf, pre)
    ensures |pre| + 2 <= |f.buf|
    ensures Holds(Fill(f, b + |pre|, lo, hi).buf, pre + [lo, hi])
  {
    ModRoom(|pre|, |f.buf|, 2);
    FillIndexExact(f, b, |pre|);
  }

  /** Filling words one after the other fills the buffer with them. */
  lemma {:induction false} FillWordsExact(f: Flash, b: nat, pre: seq<byte>, data: seq<byte>)
    requires Mod(b, |f.buf|) == 0 && Mod(|pre|, 2) == 0 && Mod(|data|, 2) == 0
    requires |pre| + |data| <= |f.buf| && Holds(f.buf, pre)
    ensures Holds(FillWords(f, b + |pre|, data).buf, pre + data)
    decreases |data|
  {
    if data == [] {
      assert pre + data == pre;
    } else {
      FillNext(f, b, pre, data[0], data[1]);
      var g := Fill(f, b + |pre|, data[0], data[1]);
      FillWordsExact(g, b, pre + [data[0], data[1]], data[2..]);
      assert (pre + [data[0], data[1]]) + data[2..] == pre + data;
    }
  }

  lemma PageBaseAligned(f: Flash, b: nat)
    requires b < |f.mem| && Mod(b, |f.buf|) == 0
    ensures PageBase(f, b) == b
  {}

  /** Writing a buffer that holds `data` onto an erased page. */
  lemma WriteErasedPage(f: Flash, b: nat, data: seq<byte>)
    requires b < |f.mem| && Mod(b, |f.buf|) == 0 && |data| <= |f.buf|
    requires forall i :: b <= i < b + |f.buf| && i < |f.mem| ==> f.mem[i] == 0xFF
    requires Holds(f.buf, data)
    ensures WritePage(f, b) == FlashState(ProgramPage(f.mem, |f.buf|, b, data), Blank(|f.buf|))
  {
    hide WritePage, ProgramPage, Holds, Mod;
    PageBaseAligned(f, b);
    var w, r := WritePage(f, b), ProgramPage(f.mem, |f.buf|, b, data);
    forall i | 0 <= i < |f.mem|
      ensures w.mem[i] == r[i]
    {
      WrittenCell(f, b, data, i);
    }
    assert w.mem == r;
    WriteEmpties(f, b);
  }

  lemma WriteEmpties(f: Flash, b: nat)
    ensures WritePage(f, b).buf == Blank(|f.buf|)
  {}

  lemma WrittenCell(f: Flash, b: nat, data: seq<byte>, i: nat)
    requires i < |f.mem| && PageBase(f, b) == b && |data| <= |f.buf| && Holds(f.buf, data)
    requires b <= i < b + |f.buf| ==> f.mem[i] == 0xFF
    ensures WritePage(f, b).mem[i] == ProgramPage(f.mem, |f.buf|, b, data)[i]
  {
    hide And, PageBase;
    if b <= i < b + |f.buf| {
      AndErased(f.buf[i - b]);
    }
  }

  lemma ErasedPage(f: Flash, b: nat)
    requires b < |f.mem| && Mod(b, |f.buf|) == 0
    ensures forall i :: b <= i < b + |f.buf| && i < |f.mem| ==> Erase(f, b).mem[i] == 0xFF
    ensures Erase(f, b).buf == f.buf
  {
    PageBaseAligned(f, b);
  }

  lemma ErasedUnderPage(f: Flash, b: nat, data: seq<byte>)
    requires b < |f.mem| && Mod(b, |f.buf|) == 0 && |data| <= |f.buf|
    ensures ProgramPage(Erase(f, b).mem, |f.buf|, b, data) == ProgramPage(f.mem, |f.buf|, b, data)
  {
    PageBaseAligned(f, b);
  }

  /** Erase, fill and write of one page, starting from an empty buffer, is ProgramPage. */
  lemma PageProgramExact(f: Flash, b: nat, data: seq<byte>)
    requires b < |f.mem| && Mod(b, |f.buf|) == 0 && Mod(|data|, 2) == 0 && |data| <= |f.buf|
    requires Holds(f.buf, [])
    ensures WritePage(FillWords(Erase(f, b), b, data), b)
         == FlashState(ProgramPage(f.mem, |f.buf|, b, data), Blank(|f.buf|))
  {
    hide Erase, WritePage, ProgramPage, PageBase, Mod;
    var e := Erase(f, b);
    ErasedPage(f, b);
    var g := FillWords(e, b, data);
    assert Holds(g.buf, data) by {
      FillWordsExact(e, b, [], data);
      assert [] + data == data;
    }
    WriteErasedPage(g, b, data);
    ErasedUnderPage(f, b, data);
  }

  /** Enabling the RWW section discards what was filled: a page write after it
      programs nothing. */
  lemma RwwDiscards(f: Flash, a: nat)
    ensures WritePage(RwwEnable(f), a).mem == f.mem
  {
    hide And;
    var w := WritePage(RwwEnable(f), a);
    forall i | 0 <= i < |f.mem| ensures w.mem[i] == f.mem[i] {
      AndFull(f.mem[i]);
    }
  }
}
