/** What the memory commands of the DFU boot loader achieve: chip erase against
    blank check, firmware download, and reading the firmware back. */
module DfuMemory {
  import opened Bytes
  import opened FlashMemory
  import opened UsbEndpoint
  import opened DfuSpec

  // ---- Erase and blank check ----

  /** The value an erase from page a up to limit leaves at address i: the first
      page receives what was in the temporary buffer. */
  function ErasedByte(f: Flash, a: nat, limit: nat, i: nat): byte
    requires i < |f.mem|
  {
    if i < a || limit <= i - Mod(i, |f.buf|) then f.mem[i]
    else if i < a + |f.buf| then f.buf[i - a]
    else 0xFF
  }

  lemma ErasePageExact(f: Flash, a: nat)
    requires a < |f.mem| && Mod(a, |f.buf|) == 0
    ensures var g := WritePage(Erase(f, a), a);
            && g.buf == Blank(|f.buf|)
            && (forall i :: 0 <= i < |f.mem| ==> g.mem[i] == if a <= i < a + |f.buf| then f.buf[i - a] else f.mem[i])
  {
    hide And, Mod;
    PageBaseAligned(f, a);
    var e := Erase(f, a);
    PageBaseAligned(e, a);
    forall i | a <= i < a + |f.buf|
      ensures And(e.mem[i], e.buf[i - a]) == f.buf[i - a]
    {
      AndErased(e.buf[i - a]);
    }
  }

  lemma {:induction false} EraseFromExact(f: Flash, a: nat, limit: nat)
    requires Mod(a, |f.buf|) == 0 && limit <= |f.mem|
    ensures a < limit ==> EraseFrom(f, a, limit).buf == Blank(|f.buf|)
    ensures forall i :: 0 <= i < |f.mem| ==> EraseFrom(f, a, limit).mem[i] == ErasedByte(f, a, limit, i)
    decreases limit - a
  {
    hide Erase, WritePage;
    if a >= limit {
      forall i | 0 <= i < |f.mem| ensures ErasedByte(f, a, limit, i) == f.mem[i] {
        if a <= i {
          PageAbove(a, i, |f.buf|);
        }
      }
    } else {
      var p := |f.buf|;
      var g := WritePage(Erase(f, a), a);
      ErasePageExact(f, a);
      UnitsJoin(a, p);
      EraseFromExact(g, a + p, limit);
      forall i | 0 <= i < |f.mem| ensures ErasedByte(g, a + p, limit, i) == ErasedByte(f, a, limit, i) {
        if a <= i {
          PageAbove(a, i, p);
        }
        if a + p <= i {
          PageAbove(a + p, i, p);
        }
      }
    }
  }

  /** The application section reads as erased. */
  predicate ApplicationBlank(part: Part, f: Flash) {
    forall i :: 0 <= i < part.bootStart ==> ReadByte(f, i) == 0xFF
  }

  /** Blank check reports an error exactly when the application section is not
      blank, and then points at its first byte that is not erased. */
  lemma BlankCheckExact(part: Part, d: Dfu)
    requires part.bootStart <= 0x100_0000
    ensures var e := BlankCheck(part, d);
            if ApplicationBlank(part, d.flash) then e == d
            else
              && e.state == DfuError && e.status == ErrCheckErased
              && FlashAddress(e) < part.bootStart
              && ReadByte(d.flash, FlashAddress(e)) != 0xFF
              && (forall i :: 0 <= i < FlashAddress(e) ==> ReadByte(d.flash, i) == 0xFF)
              && e == d.(state := DfuError, status := ErrCheckErased,
                         startAddr := e.startAddr, flash64KBPage := e.flash64KBPage)
  {
    hide ReadByte;
    var a := FirstDirty(d.flash, 0, part.bootStart);
    if a < part.bootStart {
      assert ReadByte(d.flash, a) != 0xFF;
      AddressSplit(a);
    }
  }

  lemma AddressSplit(a: nat)
    requires a < 0x100_0000
    ensures a % 0x1_0000 + 0x1_0000 * ((a / 0x1_0000) % 0x100) == a
  {
    assert a / 0x1_0000 < 0x100;
  }

  lemma ErasedApplication(part: Part, f: Flash)
    requires part.bootStart <= |f.mem|
    ensures var e := EraseFrom(f, 0, part.bootStart);
            forall i :: 0 <= i < part.bootStart ==> ReadByte(e, i) == if i < |f.buf| then f.buf[i] else 0xFF
  {
    var e := EraseFrom(f, 0, part.bootStart);
    EraseFromExact(f, 0, part.bootStart);
    forall i | 0 <= i < part.bootStart
      ensures ReadByte(e, i) == if i < |f.buf| then f.buf[i] else 0xFF
    {
    }
  }

  lemma EraseKeepsBootSection(part: Part, f: Flash)
    requires part.bootStart <= |f.mem| && Mod(part.bootStart, |f.buf|) == 0
    ensures EraseFrom(f, 0, part.bootStart).mem[part.bootStart..] == f.mem[part.bootStart..]
  {
    hide EraseFrom;
    EraseFromExact(f, 0, part.bootStart);
    forall i | part.bootStart <= i < |f.mem|
      ensures ErasedByte(f, 0, part.bootStart, i) == f.mem[i]
    {
      PageAbove(part.bootStart, i, |f.buf|);
    }
  }

  /** Chip erase blanks the application section if and only if the temporary
      buffer holds nothing for the first page (a download that was cut off by a
      disconnect leaves it filled). It always empties the buffer, lifts the
      secure mode, and with a page-aligned boot section leaves that section
      alone. */
  lemma EraseThenBlankCheck(part: Part, d: Dfu)
    requires 0 < part.bootStart <= |d.flash.mem|
    requires IsErase(d.cmd)
    ensures var e := ProcessBootloaderCommand(part, d);
            && e == d.(flash := e.flash, isSecure := false)
            && e.flash.buf == Blank(|d.flash.buf|)
            && (ApplicationBlank(part, e.flash)
                <==> forall i :: 0 <= i < |d.flash.buf| && i < part.bootStart ==> d.flash.buf[i] == 0xFF)
            && (Mod(part.bootStart, |d.flash.buf|) == 0 ==> e.flash.mem[part.bootStart..] == d.flash.mem[part.bootStart..])
  {
    var f := d.flash;
    ErasedApplication(part, f);
    if Mod(part.bootStart, |f.buf|) == 0 {
      EraseKeepsBootSection(part, f);
    }
    var e := ProcessBootloaderCommand(part, d);
    var r := EraseFrom(f, 0, part.bootStart);
    assert e.flash == RwwEnable(r);
    assert forall i :: 0 <= i < part.bootStart ==> ReadByte(e.flash, i) == ReadByte(r, i);
    if ApplicationBlank(part, e.flash) {
      forall i | 0 <= i < |f.buf| && i < part.bootStart ensures f.buf[i] == 0xFF {
        assert ReadByte(e.flash, i) == 0xFF;
      }
    }
  }

  // ---- Firmware download ----

  lemma RangeOfOnePage(mem: seq<byte>, p: nat, b: nat, data: seq<byte>)
    requires p > 0 && Mod(b, p) == 0 && 0 < |data| <= p
    ensures ProgramRange(mem, p, b, data) == ProgramPage(mem, p, b, data)
  {
    forall i | 0 <= i < |mem|
      ensures ProgramRange(mem, p, b, data)[i] == ProgramPage(mem, p, b, data)[i]
    {
      if b <= i {
        PageAbove(b, i, p);
      }
      if b + p <= i {
        UnitsJoin(b, p);
        PageAbove(b + p, i, p);
      }
    }
  }

  /** Programming a full page and then the rest from the next, erased, page on. */
  lemma RangeFromNextPage(mem: seq<byte>, g: Flash, p: nat, b: nat, page: seq<byte>, rest: seq<byte>)
    requires p == |g.buf| == |page| && Mod(b, p) == 0 && rest != [] && b + p + |rest| <= |mem|
    requires g.mem == ProgramPage(mem, p, b, page)
    ensures ProgramRange(Erase(g, b + p).mem, p, b + p, rest) == ProgramRange(mem, p, b, page + rest)
  {
    UnitsJoin(b, p);
    PageBaseAligned(g, b + p);
    var e := Erase(g, b + p).mem;
    forall i | 0 <= i < |mem|
      ensures ProgramRange(e, p, b + p, rest)[i] == ProgramRange(mem, p, b, page + rest)[i]
    {
      if b <= i {
        PageAbove(b, i, p);
      }
      if b + p <= i {
        PageAbove(b + p, i, p);
      }
    }
  }

  /** Part-way through programming the page at ps: the page is erased, and `pre`
      is what the buffer has received for it. */
  predicate MidPage(f: Flash, ps: nat, pre: seq<byte>) {
    && Mod(ps, |f.buf|) == 0 && ps < |f.mem|
    && Mod(|pre|, 2) == 0 && |pre| <= |f.buf|
    && Holds(f.buf, pre)
    && (forall i :: ps <= i < ps + |f.buf| && i < |f.mem| ==> f.mem[i] == 0xFF)
  }

  lemma FillStep(f: Flash, ps: nat, pre: seq<byte>, lo: byte, hi: byte)
    requires MidPage(f, ps, pre) && |pre| < |f.buf|
    ensures MidPage(Fill(f, ps + |pre|, lo, hi), ps, pre + [lo, hi])
  {
    FillNext(f, ps, pre, lo, hi);
  }

  lemma CommitAndErase(f: Flash, ps: nat, pre: seq<byte>)
    requires MidPage(f, ps, pre) && |pre| == |f.buf| && ps + |f.buf| < |f.mem|
    ensures MidPage(Erase(WritePage(f, ps), ps + |f.buf|), ps + |f.buf|, [])
  {
    UnitsJoin(ps, |f.buf|);
    PageBaseAligned(WritePage(f, ps), ps + |f.buf|);
  }

  /** The last word: the page is committed. */
  lemma LastWord(f: Flash, ps: nat, pre: seq<byte>, data: seq<byte>)
    requires MidPage(f, ps, pre) && |pre| < |f.buf| && |data| == 2
    ensures ProgramWords(f, ps + |pre|, ps, |pre|, 2, data)
         == FlashState(ProgramRange(f.mem, |f.buf|, ps, pre + data), Blank(|f.buf|))
  {
    FillStep(f, ps, pre, data[0], data[1]);
    assert pre + [data[0], data[1]] == pre + data;
    WriteErasedPage(Fill(f, ps + |pre|, data[0], data[1]), ps, pre + data);
    RangeOfOnePage(f.mem, |f.buf|, ps, pre + data);
  }

  /** The word that completes a page while more follow: the page is committed and
      the next one erased. */
  lemma PageTurn(f: Flash, ps: nat, pre: seq<byte>, data: seq<byte>, h: Flash)
    requires |f.buf| <= 0x100 && MidPage(f, ps, pre) && |pre| + 2 == |f.buf|
    requires |data| > 2 && Mod(|data|, 2) == 0 && ps + |pre| + |data| <= |f.mem|
    requires h == Erase(WritePage(Fill(f, ps + |pre|, data[0], data[1]), ps), ps + |f.buf|)
    ensures ProgramWords(f, ps + |pre|, ps, |pre|, |data|, data)
         == ProgramWords(h, ps + |f.buf|, ps + |f.buf|, 0, |data[2..]|, data[2..])
    ensures MidPage(h, ps + |f.buf|, [])
    ensures ProgramRange(h.mem, |f.buf|, ps + |f.buf|, data[2..]) == ProgramRange(f.mem, |f.buf|, ps, pre + data)
  {
    FillStep(f, ps, pre, data[0], data[1]);
    var g := Fill(f, ps + |pre|, data[0], data[1]);
    var page := pre + [data[0], data[1]];
    WriteErasedPage(g, ps, page);
    CommitAndErase(g, ps, page);
    RangeFromNextPage(f.mem, WritePage(g, ps), |f.buf|, ps, page, data[2..]);
    assert page + data[2..] == pre + data;
  }

  /** A word inside a page is only buffered. */
  lemma BufferedWord(f: Flash, ps: nat, pre: seq<byte>, data: seq<byte>, g: Flash)
    requires |f.buf| <= 0x100 && MidPage(f, ps, pre) && |pre| + 2 < |f.buf|
    requires |data| > 2 && Mod(|data|, 2) == 0
    requires g == Fill(f, ps + |pre|, data[0], data[1])
    ensures ProgramWords(f, ps + |pre|, ps, |pre|, |data|, data)
         == ProgramWords(g, ps + |pre| + 2, ps, |pre| + 2, |data[2..]|, data[2..])
    ensures MidPage(g, ps, pre + data[..2])
  {
    FillStep(f, ps, pre, data[0], data[1]);
    assert data[..2] == [data[0], data[1]];
  }

  lemma {:induction false} ProgramWordsExact(f: Flash, ps: nat, pre: seq<byte>, data: seq<byte>)
    requires |f.buf| <= 0x100 && MidPage(f, ps, pre) && |pre| < |f.buf|
    requires data != [] && Mod(|data|, 2) == 0 && ps + |pre| + |data| <= |f.mem|
    ensures ProgramWords(f, ps + |pre|, ps, |pre|, |data|, data)
         == FlashState(ProgramRange(f.mem, |f.buf|, ps, pre + data), Blank(|f.buf|))
    decreases |data|
  {
    hide ProgramWords, ProgramRange, WritePage, Erase, Fill;
    var g := Fill(f, ps + |pre|, data[0], data[1]);
    if |data| == 2 {
      LastWord(f, ps, pre, data);
    } else if |pre| + 2 == |f.buf| {
      var h := Erase(WritePage(g, ps), ps + |f.buf|);
      PageTurn(f, ps, pre, data, h);
      ProgramWordsExact(h, ps + |f.buf|, [], data[2..]);
      assert [] + data[2..] == data[2..];
    } else {
      ModRoom(|pre|, |f.buf|, 2);
      BufferedWord(f, ps, pre, data, g);
      SplitAppend(pre, data, 2);
      ProgramWordsExact(g, ps, pre + data[..2], data[2..]);
    }
  }

  /** An address range as a command carries it. */
  datatype Range = Range(startHi: byte, startLo: byte, endHi: byte, endLo: byte) {
    function Start(): word {
      Word(startHi, startLo)
    }

    function End(): word {
      Word(endHi, endLo)
    }

    /** The bytes a flash transfer of this range moves. */
    function Length(): nat {
      WordByteCount(Start(), End())
    }

    /** The parameters of a command for this range; the first selects the memory. */
    function ParamsFor(kind: byte): Params {
      [kind, startHi, startLo, endHi, endLo]
    }

    function Params(): Params {
      ParamsFor(0)
    }
  }

  predicate IsDnload(r: Request) {
    r.forInterface && r.bRequest == DFU_REQ_DNLOAD
  }

  /** A DNLOAD request that carries a command for a range of flash. */
  predicate CarriesRange(r: Request, code: byte, rg: Range) {
    && IsDnload(r) && r.wLength > 0
    && r.packets != [] && |r.packets[0]| >= 6
    && r.packets[0][0] == code && r.packets[0][1..6] == rg.Params()
  }

  function RangeDecoded(code: byte, r: Request, rg: Range): Command {
    Command(code, rg.Params(), Sub16(r.wLength, 6))
  }

  lemma RangeCommandLoads(c: Command, code: byte, r: Request, rg: Range)
    requires CarriesRange(r, code, rg) && c.size == r.wLength
    ensures LoadCommand(c, OutStream(r.packets[0], r.packets[1..])) == RangeDecoded(code, r, rg)
  {}

  /** What remains of the data stage after the command, once the filler and what
      aligns the start of the range within a packet have been discarded. */
  function Remainder(part: Part, r: Request, rg: Range): OutStream
    requires part.epSize > 0 && r.packets != [] && |r.packets[0]| >= 6
  {
    Discard(Discard(OutStream(r.packets[0][6..], r.packets[1..]), DFU_FILLER_BYTES_SIZE), Mod(rg.Start(), part.epSize))
  }

  /** The firmware as the device reads it, word by word. DfuHost says when these are
      the bytes the host means. */
  function Payload(part: Part, r: Request, rg: Range): seq<byte>
    requires part.epSize > 0 && r.packets != [] && |r.packets[0]| >= 6
  {
    PaddedPending(Remainder(part, r, rg), 2)
  }

  lemma RangeOverErased(f: Flash, a: nat, data: seq<byte>)
    requires a < |f.mem| && Mod(a, |f.buf|) == 0 && data != []
    ensures ProgramRange(Erase(f, a).mem, |f.buf|, a, data) == ProgramRange(f.mem, |f.buf|, a, data)
  {
    PageBaseAligned(f, a);
    forall i | 0 <= i < |f.mem|
      ensures ProgramRange(Erase(f, a).mem, |f.buf|, a, data)[i] == ProgramRange(f.mem, |f.buf|, a, data)[i]
    {
      if a <= i {
        PageAbove(a, i, |f.buf|);
      }
    }
  }

  /** A range that starts a page, or whole words that do not leave their page. */
  predicate StaysInPage(a: nat, n: nat, p: nat)
    requires p > 0
  {
    Mod(a, p) == 0 || (Mod(a, 2) == 0 && Mod(a, p) + n <= p)
  }

  /** Words for one page, wherever in it they start. */
  lemma {:induction false} ProgramWithinPage(f: Flash, base: nat, pre: seq<byte>, ps: nat, k: nat, data: seq<byte>)
    requires |f.buf| <= 0x100 && MidPage(f, base, pre) && PageBase(f, ps) == base
    requires data != [] && Mod(|data|, 2) == 0 && |pre| + |data| <= |f.buf| && k + |data| <= |f.buf|
    ensures ProgramWords(f, base + |pre|, ps, k, |data|, data)
         == FlashState(ProgramRange(f.mem, |f.buf|, base, pre + data), Blank(|f.buf|))
    decreases |data|
  {
    hide ProgramRange, WritePage, Fill;
    var g := Fill(f, base + |pre|, data[0], data[1]);
    FillStep(f, base, pre, data[0], data[1]);
    if |data| == 2 {
      assert pre + [data[0], data[1]] == pre + data;
      SamePage(g, ps, base);
      WriteErasedPage(g, base, pre + data);
      RangeOfOnePage(f.mem, |f.buf|, base, pre + data);
    } else {
      SplitAppend(pre, data, 2);
      assert data[..2] == [data[0], data[1]];
      ProgramWithinPage(g, base, pre + data[..2], ps, k + 2, data[2..]);
    }
  }

  lemma SamePage(f: Flash, a: nat, b: nat)
    requires PageBase(f, a) == PageBase(f, b)
    ensures WritePage(f, a) == WritePage(f, b) && Erase(f, a) == Erase(f, b)
  {}

  lemma BaseOf(f: Flash, a: nat)
    requires a < |f.mem|
    ensures var base := a - Mod(a, |f.buf|);
            base < |f.mem| && Mod(base, |f.buf|) == 0 && PageBase(f, a) == base && PageBase(f, base) == base
  {
    ModBase(a, |f.buf|);
    PageBaseAligned(f, a - Mod(a, |f.buf|));
  }

  lemma ModDifference(x: nat, n: nat)
    requires n <= x && Mod(x, 2) == 0 && Mod(n, 2) == 0
    ensures Mod(x - n, 2) == 0
  {
    ModOffset(n, x - n, 2);
  }

  /** An even address in a page of whole words is at an even place. */
  lemma EvenPlace(a: nat, p: nat)
    requires p > 0 && Mod(p, 2) == 0 && Mod(a, 2) == 0
    ensures Mod(Mod(a, p), 2) == 0
    decreases a
  {
    if a >= p {
      ModDifference(a, p);
      EvenPlace(a - p, p);
    }
  }

  /** Programming from address a on, once its page has been erased. */
  lemma ProgramErased(f: Flash, a: nat, data: seq<byte>)
    requires |f.buf| <= 0x100 && Holds(f.buf, [])
    requires StaysInPage(a, |data|, |f.buf|) && data != [] && Mod(|data|, 2) == 0 && a + |data| <= |f.mem|
    ensures ProgramWords(Erase(f, a), a, a, 0, |data|, data) == DownloadedFlash(f, a, data)
  {
    hide Erase, ProgramWords, ProgramRange, PageBase, Mod;
    var off := Mod(a, |f.buf|);
    var base := a - off;
    BaseOf(f, a);
    SamePage(f, a, base);
    var e := Erase(f, base);
    ErasedPage(f, base);
    if off == 0 {
      assert MidPage(e, a, []) by { ModTwo(0); }
      ProgramWordsExact(e, a, [], data);
      assert [] + data == data && Blank(0) + data == data;
    } else {
      EvenPlace(a, |f.buf|);
      assert MidPage(e, base, Blank(off));
      BaseOf(e, a);
      ProgramWithinPage(e, base, Blank(off), a, 0, data);
    }
    RangeOverErased(f, base, Blank(off) + data);
  }

  lemma ReceiveExact(f: Flash, a: nat, s: OutStream, n: nat)
    requires |f.buf| <= 0x100 && Holds(f.buf, [])
    requires StaysInPage(a, n, |f.buf|) && 0 < n && Mod(n, 2) == 0 && a + n <= |f.mem|
    requires n <= |PaddedPending(s, 2)|
    ensures ReceiveFlash(Erase(f, a), a, n, s) == Received(DownloadedFlash(f, a, PaddedPending(s, 2)[..n]), true)
  {
    hide StaysInPage, DownloadedFlash, Erase, ProgramWords, PaddedPending;
    var data := PaddedPending(s, 2)[..n];
    assert Take(s, n, 2).data == data && Take(s, n, 2).complete by {
      TakePadded(s, n, 2);
    }
    ProgramErased(f, a, data);
  }

  /** The state in which the firmware of a download starts to arrive. */
  function DownloadStarted(d: Dfu, r: Request, rg: Range): Dfu {
    d.(cmd := RangeDecoded(COMMAND_PROG_START, r, rg), startAddr := rg.Start(), endAddr := rg.End(),
       flash := Erase(d.flash, rg.Start() + 0x1_0000 * d.flash64KBPage), state := DfuDnloadIdle)
  }

  lemma DownloadReaches(part: Part, d: Dfu, r: Request, rg: Range)
    requires part.epSize > 0 && !d.waitForExit && !d.isSecure
    requires CarriesRange(r, COMMAND_PROG_START, rg) && r.wLength != 6
    ensures Step(part, d, r)
         == Effect(Download(part, DownloadStarted(d, r, rg), OutStream(r.packets[0][6..], r.packets[1..])), Silent)
  {
    var c := d.cmd.(size := r.wLength);
    RangeCommandLoads(c, COMMAND_PROG_START, r, rg);
    assert ParamsInBank(OutStream(r.packets[0], r.packets[1..])) == 5;
    assert ProcessBootloaderCommand(part, d.(cmd := RangeDecoded(COMMAND_PROG_START, r, rg)))
        == DownloadStarted(d, r, rg);
  }

  /** A request that downloads firmware to a range of flash that starts a page or
      stays in one, with every byte of it present. */
  predicate DownloadsRange(part: Part, d: Dfu, r: Request, rg: Range) {
    && part.epSize > 0 && CarriesRange(r, COMMAND_PROG_START, rg) && r.wLength != 6
    && |d.flash.buf| <= 0x100
    && StaysInPage(rg.Start() + 0x1_0000 * d.flash64KBPage, rg.Length(), |d.flash.buf|)
    && rg.Start() + 0x1_0000 * d.flash64KBPage + rg.Length() <= |d.flash.mem|
    && 0 < rg.Length() <= |Payload(part, r, rg)|
  }

  /** The state a complete download leads to. */
  function Downloaded(part: Part, d: Dfu, r: Request, rg: Range): Dfu
    requires part.epSize > 0 && r.packets != [] && |r.packets[0]| >= 6
    requires rg.Length() <= |Payload(part, r, rg)|
  {
    d.(cmd := RangeDecoded(COMMAND_PROG_START, r, rg), state := DfuDnloadIdle,
       startAddr := rg.End(), endAddr := rg.End(),
       flash := DownloadedFlash(d.flash, rg.Start() + 0x1_0000 * d.flash64KBPage, Payload(part, r, rg)[..rg.Length()]))
  }

  /** The data from address a on, and erased cells before and after it in the pages
      it touches. */
  function DownloadedFlash(f: Flash, a: nat, data: seq<byte>): Flash {
    FlashState(ProgramRange(f.mem, |f.buf|, a - Mod(a, |f.buf|), Blank(Mod(a, |f.buf|)) + data), Blank(|f.buf|))
  }

  lemma BufferIsEmpty(f: Flash, a: nat, data: seq<byte>)
    ensures RwwEnable(DownloadedFlash(f, a, data)) == DownloadedFlash(f, a, data)
  {}

  /** The flash after the loop has been given `data` out of n bytes. */
  function ProgrammedFlash(f: Flash, a: nat, n: nat, data: seq<byte>): Flash
    requires Mod(|data|, 2) == 0 && |data| <= n
  {
    var g := ProgramWords(f, a, a, 0, n, data);
    if |data| == n then RwwEnable(g) else g
  }

  /** What is left after the filler is what the loop is given. */
  lemma FlashAfterDownload(part: Part, e: Dfu, s: OutStream, t: OutStream, n: nat)
    requires part.epSize > 0 && e.cmd.data[0] == 0 && n == WordByteCount(e.startAddr, e.endAddr)
    requires t == Discard(Discard(s, DFU_FILLER_BYTES_SIZE), Mod(e.startAddr, part.epSize))
    ensures Download(part, e, s).flash == ProgrammedFlash(e.flash, FlashAddress(e), n, Take(t, n, 2).data)
  {
    hide ProgramWords, RwwEnable, Take, Discard, WordByteCount, Mod, ByteCount, EepromWrite;
  }

  /** The flash after a request for a range of flash, complete or not. */
  lemma FlashAfterRequest(part: Part, d: Dfu, r: Request, rg: Range)
    requires part.epSize > 0 && !d.waitForExit && !d.isSecure
    requires CarriesRange(r, COMMAND_PROG_START, rg) && r.wLength != 6
    ensures var a := rg.Start() + 0x1_0000 * d.flash64KBPage;
            Step(part, d, r).d.flash
              == ProgrammedFlash(Erase(d.flash, a), a, rg.Length(), Take(Remainder(part, r, rg), rg.Length(), 2).data)
  {
    hide Step, Erase, Download, ProgrammedFlash, Take, Discard, WordByteCount, Mod;
    DownloadReaches(part, d, r, rg);
    FlashAfterDownload(part, DownloadStarted(d, r, rg), OutStream(r.packets[0][6..], r.packets[1..]),
                       Remainder(part, r, rg), rg.Length());
  }

  /** What is left after the filler is programmed. */
  lemma DownloadFlash(part: Part, d: Dfu, e: Dfu, a: nat, s: OutStream, t: OutStream, n: nat)
    requires part.epSize > 0 && e.cmd.data[0] == 0
    requires t == Discard(Discard(s, DFU_FILLER_BYTES_SIZE), Mod(e.startAddr, part.epSize))
    requires a == FlashAddress(e) && n == WordByteCount(e.startAddr, e.endAddr) && e.flash == Erase(d.flash, a)
    requires |d.flash.buf| <= 0x100 && Holds(d.flash.buf, [])
    requires StaysInPage(a, n, |d.flash.buf|) && 0 < n && a + n <= |d.flash.mem|
    requires n <= |PaddedPending(t, 2)|
    ensures Download(part, e, s)
         == e.(flash := DownloadedFlash(d.flash, a, PaddedPending(t, 2)[..n]), startAddr := e.endAddr)
  {
    hide ReceiveFlash, Erase, WordByteCount, PaddedPending, StaysInPage, DownloadedFlash, Discard;
    ReceiveExact(d.flash, a, t, n);
    BufferIsEmpty(d.flash, a, PaddedPending(t, 2)[..n]);
  }

  lemma DownloadStartedExact(part: Part, d: Dfu, r: Request, rg: Range)
    requires DownloadsRange(part, d, r, rg) && Holds(d.flash.buf, [])
    ensures Download(part, DownloadStarted(d, r, rg), OutStream(r.packets[0][6..], r.packets[1..]))
         == Downloaded(part, d, r, rg)
  {
    hide Download, Erase, PaddedPending, WordByteCount, Mod, StaysInPage, DownloadedFlash, Discard;
    var s := OutStream(r.packets[0][6..], r.packets[1..]);
    var e := DownloadStarted(d, r, rg);
    var a := rg.Start() + 0x1_0000 * d.flash64KBPage;
    DownloadFlash(part, d, e, a, s, Remainder(part, r, rg), rg.Length());
    var x := DownloadedFlash(d.flash, a, Payload(part, r, rg)[..rg.Length()]);
    assert Download(part, e, s) == e.(flash := x, startAddr := e.endAddr);
    assert Downloaded(part, d, r, rg).flash == x;
    assert e.(flash := x, startAddr := e.endAddr) == Downloaded(part, d, r, rg);
  }

  /** A download is exact: for a range that starts a page or stays in one, the
      addressed range of flash receives the payload as the device reads it, for
      every packetisation; the rest of the pages it touches is erased and every
      other page is untouched. */
  lemma DownloadExact(part: Part, d: Dfu, r: Request, rg: Range)
    requires DownloadsRange(part, d, r, rg) && Holds(d.flash.buf, [])
    requires !d.waitForExit && !d.isSecure
    ensures Step(part, d, r) == Effect(Downloaded(part, d, r, rg), Silent)
  {
    hide Step, Download, Downloaded;
    DownloadReaches(part, d, r, rg);
    DownloadStartedExact(part, d, r, rg);
  }

  lemma EmptyRanges(rg: Range)
    ensures rg.Length() == 0 <==> rg.End() == rg.Start() || rg.End() + 1 == rg.Start() || rg.End() == rg.Start() + 0xFFFF
  {}

  /** When the sixteen-bit length is zero (a 64 KB range, or a single byte), the
      download programs nothing: it only erases the first page. */
  lemma EmptyDownload(part: Part, d: Dfu, r: Request, rg: Range)
    requires part.epSize > 0 && !d.waitForExit && !d.isSecure
    requires CarriesRange(r, COMMAND_PROG_START, rg) && r.wLength != 6
    requires rg.End() == rg.Start() || rg.End() + 1 == rg.Start() || rg.End() == rg.Start() + 0xFFFF
    ensures Step(part, d, r).d.flash == RwwEnable(Erase(d.flash, rg.Start() + 0x1_0000 * d.flash64KBPage))
  {
    hide Step, Erase, RwwEnable, WordByteCount, ProgrammedFlash, Take, Remainder;
    EmptyRanges(rg);
    FlashAfterRequest(part, d, r, rg);
    NothingProgrammed(Erase(d.flash, rg.Start() + 0x1_0000 * d.flash64KBPage),
                      rg.Start() + 0x1_0000 * d.flash64KBPage, Remainder(part, r, rg));
  }

  lemma NothingProgrammed(f: Flash, a: nat, s: OutStream)
    ensures Mod(0, 2) == 0 && ProgrammedFlash(f, a, 0, Take(s, 0, 2).data) == RwwEnable(f)
  {}

  // ---- Reading the firmware back ----

  /** Packets that are full. */
  predicate AllFull(packets: seq<seq<byte>>, ep: nat) {
    forall i :: 0 <= i < |packets| ==> |packets[i]| == ep
  }

  /** Whatever was taken has been sent in full packets or is in the bank, in order. */
  predicate Sent(r: Sending, data: seq<byte>, ep: nat, bank: seq<byte>) {
    && r.taken <= |data|
    && Flat(r.packets) + r.bank == bank + data[..r.taken]
    && AllFull(r.packets, ep) && |r.bank| <= ep
  }

  lemma SentAfterFull(q: Sending, data: seq<byte>, k: nat, ep: nat, bank: seq<byte>)
    requires k <= |data| && |bank| == ep && Sent(q, data[k..], ep, data[..k])
    ensures Sent(Sending([bank] + q.packets, q.bank, k + q.taken, q.complete), data, ep, bank)
  {
    SplitAt(data, k, k + q.taken);
    assert ([bank] + q.packets)[1..] == q.packets;
  }

  lemma SentAfterRoom(q: Sending, data: seq<byte>, k: nat, ep: nat, bank: seq<byte>)
    requires k <= |data| && Sent(q, data[k..], ep, bank + data[..k])
    ensures Sent(Sending(q.packets, q.bank, k + q.taken, q.complete), data, ep, bank)
  {
    hide Flat, AllFull;
    SplitAt(data, k, k + q.taken);
    assert (bank + data[..k]) + data[k..][..q.taken] == bank + (data[..k] + data[k..][..q.taken]);
  }

  lemma SentNothing(bank: seq<byte>, ep: nat)
    requires |bank| <= ep
    ensures Sent(Sending([], bank, 0, true), [], ep, bank)
  {}

  lemma SentFull(data: seq<byte>, bank: seq<byte>, ep: nat)
    requires |bank| == ep
    ensures Sent(Sending([bank], [], 0, false), data, ep, bank)
  {
    assert Flat([bank]) == bank + Flat([]);
  }

  lemma {:induction false} SendExact(data: seq<byte>, k: nat, ep: nat, bank: seq<byte>, ready: nat)
    requires k > 0 && Mod(|data|, k) == 0 && Mod(ep, k) == 0 && ep > 0
    requires Mod(|bank|, k) == 0 && |bank| <= ep
    ensures Sent(Send(data, k, ep, bank, ready), data, ep, bank)
    ensures ready >= |data| ==> Send(data, k, ep, bank, ready).complete
    decreases |data|
  {
    hide Sent;
    if data == [] {
      SentNothing(bank, ep);
    } else if |bank| == ep && ready == 0 {
      SentFull(data, bank, ep);
    } else if |bank| == ep {
      SendExact(data[k..], k, ep, data[..k], ready - 1);
      SentAfterFull(Send(data[k..], k, ep, data[..k], ready - 1), data, k, ep, bank);
    } else {
      UnitsJoin(|bank|, k);
      ModRoom(|bank|, ep, k);
      SendExact(data[k..], k, ep, bank + data[..k], ready);
      SentAfterRoom(Send(data[k..], k, ep, bank + data[..k], ready), data, k, ep, bank);
    }
  }

  /** Reading a range of flash that was just programmed gives the programmed data. */
  lemma SliceOfProgrammed(f: Flash, a: nat, data: seq<byte>)
    requires a + |data| <= |f.mem|
    ensures FlashSlice(DownloadedFlash(f, a, data), a, |data|) == data
  {
    hide DownloadedFlash, ReadByte;
    forall i | 0 <= i < |data|
      ensures FlashSlice(DownloadedFlash(f, a, data), a, |data|)[i] == data[i]
    {
      CellOfProgrammed(f, a, data, i);
    }
  }

  lemma CellOfProgrammed(f: Flash, a: nat, data: seq<byte>, i: nat)
    requires i < |data| && a + |data| <= |f.mem|
    ensures ReadByte(DownloadedFlash(f, a, data), a + i) == data[i]
  {
    var off, p := Mod(a, |f.buf|), |f.buf|;
    assert (Blank(off) + data)[off + i] == data[i];
    assert Mod(a + i, |f.mem|) == a + i;
  }

  /** An UPLOAD request that the host sees through to the end. */
  predicate IsUpload(r: Request, n: nat) {
    r.forInterface && r.bRequest == DFU_REQ_UPLOAD && r.ready > n
  }

  /** The state after a DISP_DATA command for a range of flash. */
  lemma DisplayReaches(part: Part, d: Dfu, r: Request, rg: Range)
    requires part.epSize > 0 && !d.waitForExit && !d.isSecure
    requires CarriesRange(r, COMMAND_DISP_DATA, rg)
    ensures Step(part, d, r)
         == Effect(d.(cmd := RangeDecoded(COMMAND_DISP_DATA, r, rg), startAddr := rg.Start(), endAddr := rg.End(),
                      state := DfuUploadIdle),
                   Silent)
  {
    var c := d.cmd.(size := r.wLength);
    RangeCommandLoads(c, COMMAND_DISP_DATA, r, rg);
    assert ParamsInBank(OutStream(r.packets[0], r.packets[1..])) == 5;
  }

  /** UPLOAD of a flash range sends exactly its bytes: full packets, then one that
      may be short; and the device is idle again. */
  lemma UploadExact(part: Part, d: Dfu, r: Request)
    requires part.epSize > 0 && Mod(part.epSize, 2) == 0
    requires d.state == DfuUploadIdle && d.cmd.data[0] == 0
    requires IsUpload(r, WordByteCount(d.startAddr, d.endAddr))
    ensures var u := Step(part, d, r);
            && u.d == d.(cmd := d.cmd.(size := r.wLength), startAddr := d.endAddr, state := DfuIdle)
            && u.response.packets != []
            && Flat(u.response.packets) == FlashSlice(d.flash, FlashAddress(d), WordByteCount(d.startAddr, d.endAddr))
            && AllFull(u.response.packets[..|u.response.packets| - 1], part.epSize)
  {
    hide Send, FlashSlice, WordByteCount, Dnload, Sent, Flat, AllFull, Mod;
    var n := WordByteCount(d.startAddr, d.endAddr);
    var data := FlashSlice(d.flash, FlashAddress(d), n);
    assert Mod(0, 2) == 0 by {
      ModTwo(0);
    }
    SendExact(data, 2, part.epSize, [], r.ready - 1);
    SentWhole(Send(data, 2, part.epSize, [], r.ready - 1), data, part.epSize);
  }

  lemma SentWhole(q: Sending, data: seq<byte>, ep: nat)
    requires Sent(q, data, ep, []) && q.taken == |data|
    ensures Flat(q.packets + [q.bank]) == data
    ensures AllFull((q.packets + [q.bank])[..|q.packets + [q.bank]| - 1], ep)
  {
    FlatAppend(q.packets, [q.bank]);
    assert Flat([q.bank]) == q.bank + Flat([]);
    assert (q.packets + [q.bank])[..|q.packets|] == q.packets;
    assert [] + data[..q.taken] == data;
  }

  lemma UploadOfProgrammed(part: Part, f: Flash, a: nat, data: seq<byte>, d: Dfu, r: Request)
    requires part.epSize > 0 && Mod(part.epSize, 2) == 0
    requires a + |data| <= |f.mem|
    requires d.flash == DownloadedFlash(f, a, data) && FlashAddress(d) == a
    requires d.state == DfuUploadIdle && d.cmd.data[0] == 0
    requires WordByteCount(d.startAddr, d.endAddr) == |data| && IsUpload(r, |data|)
    ensures ReadsBack(part, Step(part, d, r), data)
  {
    hide Step;
    UploadExact(part, d, r);
    SliceOfProgrammed(f, a, data);
  }

  /** A response that carries `data`, in full packets but for the last, from a device that is idle again. */
  predicate ReadsBack(part: Part, u: Effect, data: seq<byte>) {
    && Flat(u.response.packets) == data
    && u.response.packets != []
    && AllFull(u.response.packets[..|u.response.packets| - 1], part.epSize)
    && u.d.state == DfuIdle
  }

  lemma ReadBackProgrammed(part: Part, f: Flash, a: nat, data: seq<byte>, d: Dfu, disp: Request, up: Request, rg: Range)
    requires part.epSize > 0 && Mod(part.epSize, 2) == 0
    requires !d.waitForExit && !d.isSecure && d.flash == DownloadedFlash(f, a, data)
    requires a == rg.Start() + 0x1_0000 * d.flash64KBPage && |data| == rg.Length()
    requires a + |data| <= |f.mem|
    requires CarriesRange(disp, COMMAND_DISP_DATA, rg) && IsUpload(up, |data|)
    ensures ReadsBack(part, Step(part, Step(part, d, disp).d, up), data)
  {
    hide Step;
    var e := d.(cmd := RangeDecoded(COMMAND_DISP_DATA, disp, rg), startAddr := rg.Start(), endAddr := rg.End(),
                state := DfuUploadIdle);
    UploadOfProgrammed(part, f, a, data, e, up);
    DisplayReaches(part, d, disp, rg);
  }

  lemma ReadBackDownloaded(part: Part, d: Dfu, down: Request, disp: Request, up: Request, rg: Range)
    requires DownloadsRange(part, d, down, rg) && !d.waitForExit && !d.isSecure && Mod(part.epSize, 2) == 0
    requires CarriesRange(disp, COMMAND_DISP_DATA, rg) && IsUpload(up, rg.Length())
    ensures ReadsBack(part, Step(part, Step(part, Downloaded(part, d, down, rg), disp).d, up), Payload(part, down, rg)[..rg.Length()])
  {
    hide Step, ReadsBack, Flat, DownloadedFlash, StaysInPage, Mod, WordByteCount, Payload;
    var a := rg.Start() + 0x1_0000 * d.flash64KBPage;
    var data := Payload(part, down, rg)[..rg.Length()];
    var e := Downloaded(part, d, down, rg);
    assert e.flash == DownloadedFlash(d.flash, a, data);
    ReadBackProgrammed(part, d.flash, a, data, e, disp, up, rg);
  }

  /** Write, then read back: a download, a DISP_DATA of the same range and an
      UPLOAD return the downloaded payload. */
  lemma RoundTrip(part: Part, d: Dfu, down: Request, disp: Request, up: Request, rg: Range, d1: Dfu)
    requires DownloadsRange(part, d, down, rg) && Holds(d.flash.buf, [])
    requires !d.waitForExit && !d.isSecure && Mod(part.epSize, 2) == 0
    requires CarriesRange(disp, COMMAND_DISP_DATA, rg) && IsUpload(up, rg.Length())
    requires d1 == Step(part, d, down).d
    ensures ReadsBack(part, Step(part, Step(part, d1, disp).d, up), Payload(part, down, rg)[..rg.Length()])
  {
    hide Step;
    assert d1 == Downloaded(part, d, down, rg) by {
      DownloadExact(part, d, down, rg);
    }
    ReadBackDownloaded(part, d, down, disp, up, rg);
  }

  // ---- Downloads that are cut off ----

  /** The words since the last full page. */
  function SinceCommit(data: seq<byte>, p: nat): seq<byte>
    requires p > 0
  {
    data[|data| - Mod(|data|, p)..]
  }

  lemma SinceFullPage(page: seq<byte>, rest: seq<byte>, p: nat)
    requires |page| == p > 0
    ensures SinceCommit(page + rest, p) == SinceCommit(rest, p)
  {}

  /** The word that completes a page while more are announced. */
  lemma TurnedPage(f: Flash, ps: nat, pre: seq<byte>, m: nat, data: seq<byte>, h: Flash)
    requires MidPage(f, ps, pre) && |f.buf| <= 0x100 && |pre| + 2 == |f.buf| && 2 <= |data|
    requires Mod(|data|, 2) == 0 && |data| + 2 <= m && ps + |f.buf| < |f.mem|
    requires h == Erase(WritePage(Fill(f, ps + |pre|, data[0], data[1]), ps), ps + |f.buf|)
    ensures ProgramWords(f, ps + |pre|, ps, |pre|, m, data)
         == ProgramWords(h, ps + |f.buf|, ps + |f.buf|, 0, m - 2, data[2..])
    ensures MidPage(h, ps + |f.buf|, [])
  {
    hide Erase, WritePage, Fill;
    var g := Fill(f, ps + |pre|, data[0], data[1]);
    FillStep(f, ps, pre, data[0], data[1]);
    CommitAndErase(g, ps, pre + [data[0], data[1]]);
  }

  /** A word inside a page while more are announced. */
  lemma BufferedMore(f: Flash, ps: nat, pre: seq<byte>, m: nat, data: seq<byte>, g: Flash)
    requires MidPage(f, ps, pre) && |f.buf| <= 0x100 && |pre| + 2 < |f.buf| && 2 <= |data|
    requires Mod(|data|, 2) == 0 && |data| + 2 <= m
    requires g == Fill(f, ps + |pre|, data[0], data[1])
    ensures ProgramWords(f, ps + |pre|, ps, |pre|, m, data)
         == ProgramWords(g, ps + |pre| + 2, ps, |pre| + 2, m - 2, data[2..])
    ensures MidPage(g, ps, pre + [data[0], data[1]])
  {
    hide Erase, WritePage, Fill;
    FillStep(f, ps, pre, data[0], data[1]);
  }

  lemma NoWords(f: Flash, ps: nat, pre: seq<byte>, m: nat)
    requires MidPage(f, ps, pre) && |pre| < |f.buf|
    ensures Holds(ProgramWords(f, ps + |pre|, ps, |pre|, m, []).buf, SinceCommit(pre + [], |f.buf|))
  {
    assert pre + [] == pre;
    assert SinceCommit(pre, |f.buf|) == pre;
  }

  lemma MidPageLength(f: Flash, ps: nat, pre: seq<byte>)
    requires MidPage(f, ps, pre) && |pre| < |f.buf|
    ensures |pre| + 2 <= |f.buf|
  {
    ModRoom(|pre|, |f.buf|, 2);
  }

  /** Of words that are not all that were announced, those since the last committed
      page stay in the buffer. */
  lemma {:induction false} PartialWords(f: Flash, ps: nat, pre: seq<byte>, m: nat, data: seq<byte>)
    requires MidPage(f, ps, pre) && |f.buf| <= 0x100 && |pre| < |f.buf|
    requires Mod(|data|, 2) == 0 && |data| + 2 <= m && ps + |pre| + m <= |f.mem|
    ensures Holds(ProgramWords(f, ps + |pre|, ps, |pre|, m, data).buf, SinceCommit(pre + data, |f.buf|))
    decreases |data|
  {
    hide Erase, WritePage, Fill, Holds, ProgramWords, MidPage, SinceCommit, Mod;
    MidPageLength(f, ps, pre);
    if data == [] {
      NoWords(f, ps, pre, m);
    } else {
      EvenStep(|data|);
      var g := Fill(f, ps + |pre|, data[0], data[1]);
      var page := pre + [data[0], data[1]];
      assert page + data[2..] == pre + data;
      if |page| == |f.buf| {
        var h := Erase(WritePage(g, ps), ps + |f.buf|);
        TurnedPage(f, ps, pre, m, data, h);
        PartialWords(h, ps + |f.buf|, [], m - 2, data[2..]);
        SinceFullPage(page, data[2..], |f.buf|);
        assert [] + data[2..] == data[2..];
      } else {
        BufferedMore(f, ps, pre, m, data, g);
        PartialWords(g, ps, page, m - 2, data[2..]);
      }
    }
  }

  lemma EvenStep(n: nat)
    requires Mod(n, 2) == 0 && n > 0
    ensures n >= 2 && Mod(n - 2, 2) == 0
  {}

  lemma ReceiveShort(f: Flash, a: nat, s: OutStream, n: nat)
    requires |f.buf| <= 0x100 && Holds(f.buf, []) && Mod(a, |f.buf|) == 0 && a + n <= |f.mem|
    requires Mod(n, 2) == 0 && |PaddedPending(s, 2)| < n
    ensures var q := ReceiveFlash(Erase(f, a), a, n, s);
            !q.complete && Holds(q.flash.buf, SinceCommit(PaddedPending(s, 2), |f.buf|))
  {
    hide Erase, ProgramWords, Take, PaddedPending, Holds, SinceCommit;
    assert Holds(Erase(f, a).buf, []) by {
      ErasedPage(f, a);
    }
    var data := PaddedPending(s, 2);
    TakePadded(s, n, 2);
    ErasedPage(f, a);
    EvenPending(s);
    EvenStrict(|data|, n);
    PartialWords(Erase(f, a), a, [], n, data);
    assert [] + data == data;
  }

  lemma DownloadShort(part: Part, d: Dfu, e: Dfu, a: nat, s: OutStream, t: OutStream, n: nat)
    requires part.epSize > 0 && e.cmd.data[0] == 0
    requires t == Discard(Discard(s, DFU_FILLER_BYTES_SIZE), Mod(e.startAddr, part.epSize))
    requires a == FlashAddress(e) && n == WordByteCount(e.startAddr, e.endAddr) && e.flash == Erase(d.flash, a)
    requires |d.flash.buf| <= 0x100 && Holds(d.flash.buf, []) && Mod(a, |d.flash.buf|) == 0
    requires a + n <= |d.flash.mem| && |PaddedPending(t, 2)| < n
    ensures Holds(Download(part, e, s).flash.buf, SinceCommit(PaddedPending(t, 2), |d.flash.buf|))
  {
    hide Erase, WordByteCount, PaddedPending, ReceiveFlash, Holds, Mod, Discard, SinceCommit;
    ReceiveShort(d.flash, a, t, n);
  }

  /** A request that downloads to a page-aligned range and ends before it is full. */
  predicate GivesUp(part: Part, d: Dfu, r: Request, rg: Range) {
    && part.epSize > 0 && !d.waitForExit && !d.isSecure
    && CarriesRange(r, COMMAND_PROG_START, rg) && r.wLength != 6
    && |d.flash.buf| <= 0x100 && Holds(d.flash.buf, [])
    && Mod(rg.Start() + 0x1_0000 * d.flash64KBPage, |d.flash.buf|) == 0
    && rg.Start() + 0x1_0000 * d.flash64KBPage + rg.Length() <= |d.flash.mem|
    && |Payload(part, r, rg)| < rg.Length()
  }

  /** A download that the host gives up leaves the words since the last committed
      page in the page buffer. */
  lemma CutOffDownloadStays(part: Part, d: Dfu, r: Request, rg: Range)
    requires GivesUp(part, d, r, rg)
    ensures Holds(Step(part, d, r).d.flash.buf, SinceCommit(Payload(part, r, rg), |d.flash.buf|))
  {
    hide Step, GivesUp, DownloadStarted, Download, Holds, SinceCommit, Payload;
    GivenUpReaches(part, d, r, rg);
    CutOffStarted(part, d, r, rg);
  }

  lemma GivenUpReaches(part: Part, d: Dfu, r: Request, rg: Range)
    requires GivesUp(part, d, r, rg)
    ensures Step(part, d, r)
         == Effect(Download(part, DownloadStarted(d, r, rg), OutStream(r.packets[0][6..], r.packets[1..])), Silent)
  {
    hide Step, DownloadStarted, Download, Holds, Payload, Mod, WordByteCount;
    DownloadReaches(part, d, r, rg);
  }

  lemma CutOffStarted(part: Part, d: Dfu, r: Request, rg: Range)
    requires GivesUp(part, d, r, rg)
    ensures Holds(Download(part, DownloadStarted(d, r, rg), OutStream(r.packets[0][6..], r.packets[1..])).flash.buf,
                  SinceCommit(Payload(part, r, rg), |d.flash.buf|))
  {
    hide Download, Erase, PaddedPending, WordByteCount, Mod, Holds, Discard, SinceCommit;
    DownloadShort(part, d, DownloadStarted(d, r, rg), rg.Start() + 0x1_0000 * d.flash64KBPage,
                  OutStream(r.packets[0][6..], r.packets[1..]), Remainder(part, r, rg), rg.Length());
  }

  lemma EvenStrict(x: nat, n: nat)
    requires Mod(x, 2) == 0 && Mod(n, 2) == 0 && x < n
    ensures x + 2 <= n
  {
    ModRoom(x, n, 2);
  }

  lemma EvenPending(s: OutStream)
    ensures Mod(|PaddedPending(s, 2)|, 2) == 0
  {
    PaddedLength(s.bank, 2);
    PaddedUnits(s.rest, 2);
    ModOffset(|Padded(s.bank, 2)|, |PaddedFlat(s.rest, 2)|, 2);
  }
}
