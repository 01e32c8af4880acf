/** From the firmware image of the host loader to the flash of a device: the
    programming loop of hid_bootloader_cli.c, and the page handler of
    Bootloaders/HID/BootloaderHID.c that serves it. */
module HidPipeline {
  import opened Bytes
  import opened FlashMemory
  import opened UsbEndpoint
  import opened IntelHex

  const COMMAND_STARTAPPLICATION: word := 0xFFFF

  // ---- The device ----

  /** `far` holds for parts with more than 64 KB of flash. */
  datatype Device = Device(flash: Flash, running: bool, far: bool)

  /** The page address a report header stands for. */
  function DecodeHeader(far: bool, lo: byte, hi: byte): nat {
    if far then 0x100 * Word(hi, lo) else Word(hi, lo)
  }

  /** The SetReport request, with its data stage cut into packets. A device whose
      data stage stops short waits for it with the page buffer partly filled. */
  function SetReport(d: Device, packets: seq<seq<byte>>): (e: Device)
    ensures |e.flash.mem| == |d.flash.mem| && |e.flash.buf| == |d.flash.buf|
  {
    if packets == [] then d
    else
      var s := OutStream(packets[0], packets[1..]);
      var header := ReadUnit(s, 2);
      var page := DecodeHeader(d.far, header[0], header[1]);
      if Word(header[1], header[0]) == COMMAND_STARTAPPLICATION then d.(running := false)
      else
        var t := Take(AfterUnit(s, 2), |d.flash.buf|, 2);
        var f := FillWords(Erase(d.flash, page), page, t.data);
        d.(flash := if t.complete then RwwEnable(WritePage(f, page)) else f)
  }

  function ServeAll(d: Device, deliveries: seq<seq<seq<byte>>>): (e: Device)
    ensures |e.flash.mem| == |d.flash.mem|
    decreases |deliveries|
  {
    if deliveries == [] then d else ServeAll(SetReport(d, deliveries[0]), deliveries[1..])
  }

  // ---- The host ----

  /** ihex_bytes_within_range. */
  predicate WithinRange(h: Loader, begin: nat, end: nat)
    requires Valid(h)
  {
    begin < MAX_MEMORY_SIZE && end < MAX_MEMORY_SIZE &&
    exists i :: begin <= i <= end && h.mask[i]
  }

  /** ihex_get_data; a block that touches the end of the image is sent blank. */
  function GetData(h: Loader, addr: nat, len: nat): (r: seq<byte>)
    requires Valid(h)
    ensures |r| == len
  {
    seq<byte>(len, i requires 0 <= i < len =>
                     if addr + len < MAX_MEMORY_SIZE && h.mask[addr + i] then h.image[addr + i] else 0xFF)
  }

  function Header(codeSize: nat, addr: nat): (r: seq<byte>)
    ensures |r| == 2
  {
    if codeSize < 0x1_0000 then [addr % 0x100, (addr / 0x100) % 0x100]
    else [(addr / 0x100) % 0x100, (addr / 0x1_0000) % 0x100]
  }

  predicate IsSent(h: Loader, addr: nat, blockSize: nat)
    requires Valid(h) && blockSize > 0
  {
    addr == 0 || WithinRange(h, addr, addr + blockSize - 1)
  }

  /** The reports of the programming loop, from address addr on. */
  function Reports(h: Loader, codeSize: nat, blockSize: nat, addr: nat): seq<seq<byte>>
    requires Valid(h) && blockSize > 0
    decreases codeSize - addr
  {
    if addr >= codeSize then []
    else
      (if IsSent(h, addr, blockSize) then [Header(codeSize, addr) + GetData(h, addr, blockSize)] else [])
      + Reports(h, codeSize, blockSize, addr + blockSize)
  }

  /** The data stages carry the reports, each in packets that are not empty and not odd. */
  predicate Carries(deliveries: seq<seq<seq<byte>>>, reports: seq<seq<byte>>) {
    |deliveries| == |reports| &&
    forall i :: 0 <= i < |reports| ==> Flat(deliveries[i]) == reports[i] && WholeUnits(deliveries[i], 2)
  }

  // ---- Addresses ----

  /** The two programs agree on a page address exactly for page 0 and when both
      use the same form: plain below 64 KB of code and flash, shifted above. A
      64 KB part is served shifted addresses and reads them plain. */
  lemma HeaderExact(codeSize: nat, far: bool, addr: nat)
    requires addr < 0x1_0000 && (far || codeSize >= 0x1_0000 ==> addr % 0x100 == 0)
    ensures var r := Header(codeSize, addr);
            DecodeHeader(far, r[0], r[1]) == addr <==> addr == 0 || far == (codeSize >= 0x1_0000)
  {
    assert addr == 0x100 * (addr / 0x100) + addr % 0x100;
  }

  /** A page report is never mistaken for the start command. */
  lemma HeaderIsNoCommand(codeSize: nat, addr: nat)
    requires addr < codeSize <= 0x2_0000 && addr % 2 == 0
    ensures var r := Header(codeSize, addr); Word(r[1], r[0]) != COMMAND_STARTAPPLICATION
  {}

  // ---- One page ----

  /** A report, however it is cut, programs its page with its data. */
  lemma PageReport(d: Device, packets: seq<seq<byte>>, lo: byte, hi: byte, data: seq<byte>)
    requires Holds(d.flash.buf, []) && |data| == |d.flash.buf|
    requires Flat(packets) == [lo, hi] + data && WholeUnits(packets, 2)
    requires Word(hi, lo) != COMMAND_STARTAPPLICATION
    requires DecodeHeader(d.far, lo, hi) < |d.flash.mem| && Mod(DecodeHeader(d.far, lo, hi), |d.flash.buf|) == 0
    ensures SetReport(d, packets)
         == d.(flash := FlashState(ProgramPage(d.flash.mem, |d.flash.buf|, DecodeHeader(d.far, lo, hi), data),
                                   Blank(|d.flash.buf|)))
  {
    hide Erase, WritePage, ProgramPage, FillWords, DecodeHeader;
    var s := OutStream(packets[0], packets[1..]);
    assert Pending(s) == [lo, hi] + data;
    ModRoom(0, |packets[0]|, 2);
    UnitRead(s, 2);
    assert ReadUnit(s, 2) == [lo, hi];
    var u := AfterUnit(s, 2);
    assert Pending(u) == data;
    TakeExact(u, |data|, 2);
    assert data[..|data|] == data;
    PageProgramExact(d.flash, DecodeHeader(d.far, lo, hi), data);
  }

  // ---- The whole image ----

  /** What an address holds after the loop has passed it, if its page was sent. */
  function PageByte(h: Loader, blockSize: nat, a: nat): byte
    requires Valid(h) && blockSize > 0
  {
    var base := a - Mod(a, blockSize);
    if base + blockSize < MAX_MEMORY_SIZE && h.mask[a] then h.image[a] else 0xFF
  }

  /** The pages from `from` up to codeSize that were sent hold their part of the
      image, and every other byte is as before. */
  predicate Programmed(h: Loader, codeSize: nat, blockSize: nat, from: nat, before: seq<byte>, after: seq<byte>)
    requires Valid(h) && blockSize > 0
  {
    |after| == |before| &&
    forall a :: 0 <= a < |before| ==>
      after[a] == if from <= a < codeSize && IsSent(h, a - Mod(a, blockSize), blockSize)
                  then PageByte(h, blockSize, a) else before[a]
  }

  /** A multiple of a multiple. */
  lemma {:induction false} AlignedTo(a: nat, p: nat, q: nat)
    requires p > 0 && q > 0 && Mod(a, p) == 0 && Mod(p, q) == 0
    ensures Mod(a, q) == 0
    decreases a
  {
    if a >= p {
      AlignedTo(a - p, p, q);
      ModOffset(a - p, p, q);
    } else {
      ModZero(q);
    }
  }

  lemma ModZero(p: nat)
    requires p > 0
    ensures Mod(0, p) == 0
  {}

  lemma PageByteIsData(h: Loader, p: nat, addr: nat, a: nat)
    requires Valid(h) && p > 0 && Mod(addr, p) == 0 && addr <= a < addr + p
    ensures GetData(h, addr, p)[a - addr] == PageByte(h, p, a) && a - Mod(a, p) == addr
  {
    PageAbove(addr, a, p);
  }

  lemma ProgramPageAt(mem: seq<byte>, p: nat, b: nat, data: seq<byte>, a: nat)
    requires |data| == p && a < |mem|
    ensures ProgramPage(mem, p, b, data)[a] == if b <= a < b + p then data[a - b] else mem[a]
  {}

  /** Pages of one block each: what the loop programs at addr, and what it programs later. */
  lemma PageThenRest(h: Loader, codeSize: nat, p: nat, addr: nat, before: seq<byte>, mid: seq<byte>, after: seq<byte>)
    requires Valid(h) && p > 0 && Mod(addr, p) == 0 && addr + p <= codeSize
    requires mid == if IsSent(h, addr, p) then ProgramPage(before, p, addr, GetData(h, addr, p)) else before
    requires Programmed(h, codeSize, p, addr + p, mid, after)
    ensures Programmed(h, codeSize, p, addr, before, after)
  {
    hide IsSent, Mod, PageByte, GetData, ProgramPage;
    forall a: nat | a < |before|
      ensures after[a] == if addr <= a < codeSize && IsSent(h, a - Mod(a, p), p) then PageByte(h, p, a) else before[a]
    {
      ProgramPageAt(before, p, addr, GetData(h, addr, p), a);
      if addr <= a < addr + p {
        PageByteIsData(h, p, addr, a);
      }
    }
  }

  /** The sizes the two programs must agree on. */
  predicate Matched(d: Device, codeSize: nat, blockSize: nat) {
    && blockSize == |d.flash.buf| && Mod(codeSize, blockSize) == 0
    && codeSize <= |d.flash.mem| && codeSize <= 0x2_0000
    && d.far == (codeSize >= 0x1_0000) && (d.far ==> Mod(blockSize, 0x100) == 0)
  }

  /** A page of the loop, served. */
  lemma SentPage(h: Loader, codeSize: nat, d: Device, addr: nat, packets: seq<seq<byte>>)
    requires Valid(h) && Matched(d, codeSize, |d.flash.buf|) && Holds(d.flash.buf, [])
    requires Mod(addr, |d.flash.buf|) == 0 && addr < codeSize && IsSent(h, addr, |d.flash.buf|)
    requires Flat(packets) == Header(codeSize, addr) + GetData(h, addr, |d.flash.buf|) && WholeUnits(packets, 2)
    ensures SetReport(d, packets)
         == d.(flash := FlashState(ProgramPage(d.flash.mem, |d.flash.buf|, addr, GetData(h, addr, |d.flash.buf|)),
                                   Blank(|d.flash.buf|)))
  {
    hide SetReport, ProgramPage, GetData, Mod, DecodeHeader, Header;
    var p := |d.flash.buf|;
    AlignedTo(addr, p, 2);
    ModTwo(addr);
    if d.far {
      AlignedTo(addr, p, 0x100);
      ModIsRemainder(addr, 0x100);
    }
    HeaderExact(codeSize, d.far, addr);
    HeaderIsNoCommand(codeSize, addr);
    var r := Header(codeSize, addr);
    assert r == [r[0], r[1]];
    PageReport(d, packets, r[0], r[1], GetData(h, addr, p));
  }

  /** The programming loop from addr on, served by the device. */
  lemma {:induction false} LoopExact(h: Loader, codeSize: nat, d: Device, addr: nat, deliveries: seq<seq<seq<byte>>>)
    requires Valid(h) && Matched(d, codeSize, |d.flash.buf|) && Holds(d.flash.buf, [])
    requires Mod(addr, |d.flash.buf|) == 0
    requires Carries(deliveries, Reports(h, codeSize, |d.flash.buf|, addr))
    ensures var e := ServeAll(d, deliveries);
            Programmed(h, codeSize, |d.flash.buf|, addr, d.flash.mem, e.flash.mem) && e == d.(flash := e.flash)
    decreases codeSize - addr
  {
    hide SetReport, WithinRange, GetData, Header, ProgramPage;
    var p := |d.flash.buf|;
    if addr < codeSize {
      ModRoom(addr, codeSize, p);
      UnitsJoin(addr, p);
      var rest := Reports(h, codeSize, p, addr + p);
      if IsSent(h, addr, p) {
        var reports := Reports(h, codeSize, p, addr);
        assert reports[0] == Header(codeSize, addr) + GetData(h, addr, p) && reports[1..] == rest;
        SentPage(h, codeSize, d, addr, deliveries[0]);
        var c := SetReport(d, deliveries[0]);
        assert Carries(deliveries[1..], rest);
        LoopExact(h, codeSize, c, addr + p, deliveries[1..]);
        PageThenRest(h, codeSize, p, addr, d.flash.mem, c.flash.mem, ServeAll(d, deliveries).flash.mem);
      } else {
        assert Reports(h, codeSize, p, addr) == rest;
        LoopExact(h, codeSize, d, addr + p, deliveries);
        PageThenRest(h, codeSize, p, addr, d.flash.mem, d.flash.mem, ServeAll(d, deliveries).flash.mem);
      }
    }
  }

  /** A page the loop sends: the first one, and those the file has a byte for. */
  predicate Touched(segments: seq<Segment>, base: nat, p: nat) {
    || base == 0
    || (base + p <= MAX_MEMORY_SIZE && exists a :: base <= a < base + p && Overlaid(segments, a).Some?)
  }

  lemma TouchedIsSent(h: Loader, segments: seq<Segment>, base: nat, p: nat)
    requires Shows(h, segments) && p > 0
    ensures IsSent(h, base, p) <==> Touched(segments, base, p)
  {
    hide Overlaid;
    if base != 0 && Touched(segments, base, p) {
      var a :| base <= a < base + p && Overlaid(segments, a).Some?;
      assert h.mask[a];
    }
  }

  /** What an address of the device should hold: in a touched page below the code
      size, the byte of the file or an erased one, and only erased ones in the last
      block of the 64 KB image; elsewhere what was there. */
  function Expected(segments: seq<Segment>, codeSize: nat, p: nat, before: byte, a: nat): byte
    requires p > 0
  {
    var base := a - Mod(a, p);
    if a >= codeSize || !Touched(segments, base, p) then before
    else if base + p >= MAX_MEMORY_SIZE then 0xFF
    else match Overlaid(segments, a) { case Some(b) => b case None => 0xFF }
  }

  lemma ProgrammedIsExpected(h: Loader, segments: seq<Segment>, codeSize: nat, p: nat, before: seq<byte>,
                             after: seq<byte>, a: nat)
    requires Shows(h, segments) && p > 0 && Mod(codeSize, p) == 0 && a < |before|
    requires Programmed(h, codeSize, p, 0, before, after)
    ensures after[a] == Expected(segments, codeSize, p, before[a], a)
  {
    hide Mod, IsSent, Touched;
    if a < codeSize {
      ModRoom(a, codeSize, p);
      TouchedIsSent(h, segments, a - Mod(a, p), p);
    }
  }

  /** HEX file to device flash, end to end: lines that write acceptable records are
      read, the programming loop is run, and the device serves its reports in
      whatever packets. Every page that holds a byte of the file, and page 0, then
      holds the overlay of the file's data records with erased bytes between, but
      for the last block of the 64 KB image, which is sent blank;
      every other page, and everything above the code, is as it was; and the
      device is still in its boot loader. */
  lemma HexFileToFlash(lines: seq<string>, records: seq<Record>, codeSize: nat, d: Device,
                       deliveries: seq<seq<seq<byte>>>)
    requires WritesFile(lines, records) && ReadLines(Empty, lines).Accept?
    requires Matched(d, codeSize, |d.flash.buf|) && Holds(d.flash.buf, [])
    requires Carries(deliveries, Reports(ReadLines(Empty, lines).h, codeSize, |d.flash.buf|, 0))
    ensures var e := ServeAll(d, deliveries);
            && e == d.(flash := e.flash)
            && forall a :: 0 <= a < |d.flash.mem| ==>
                 e.flash.mem[a] == Expected(Segments(records, 0), codeSize, |d.flash.buf|, d.flash.mem[a], a)
  {
    hide ReadLines, WritesLines, Reports, Carries, ServeAll, Mod, Expected, Programmed, Shows;
    var h := ReadLines(Empty, lines).h;
    var p := |d.flash.buf|;
    ReadIntelHexExact(lines, records);
    ModZero(p);
    LoopExact(h, codeSize, d, 0, deliveries);
    forall a | 0 <= a < |d.flash.mem|
      ensures ServeAll(d, deliveries).flash.mem[a] == Expected(Segments(records, 0), codeSize, p, d.flash.mem[a], a)
    {
      ProgrammedIsExpected(h, Segments(records, 0), codeSize, p, d.flash.mem, ServeAll(d, deliveries).flash.mem, a);
    }
  }

  /** On larger parts the last block of the 64 KB image is sent blank, so a byte of
      the file arrives exactly if it lies below that block. */
  lemma MaskedByteArrives(h: Loader, codeSize: nat, d: Device, deliveries: seq<seq<seq<byte>>>, a: nat)
    requires Valid(h) && Matched(d, codeSize, |d.flash.buf|) && Holds(d.flash.buf, [])
    requires Mod(MAX_MEMORY_SIZE, |d.flash.buf|) == 0
    requires Carries(deliveries, Reports(h, codeSize, |d.flash.buf|, 0))
    requires a < codeSize && a < MAX_MEMORY_SIZE && h.mask[a]
    ensures ServeAll(d, deliveries).flash.mem[a]
         == if a + |d.flash.buf| < MAX_MEMORY_SIZE + Mod(a, |d.flash.buf|) then h.image[a] else 0xFF
  {
    hide Reports, Carries, ServeAll, Mod;
    var p := |d.flash.buf|;
    ModZero(p);
    ModRoom(a, MAX_MEMORY_SIZE, p);
    LoopExact(h, codeSize, d, 0, deliveries);
  }

  // ---- Parts of exactly 64 KB ----

  lemma OtherCells(f: Flash, page: nat, limit: nat, a: nat)
    requires page < limit <= |f.mem| && Mod(limit, |f.buf|) == 0 && limit <= a < |f.mem|
    ensures Erase(f, page).mem[a] == f.mem[a] && WritePage(f, page).mem[a] == f.mem[a]
  {
    ModSmall(page, |f.mem|);
    ModRoom(page, limit, |f.buf|);
  }

  /** A report for a page below a page boundary leaves everything from there on. */
  lemma ReportKeeps(d: Device, packets: seq<seq<byte>>, lo: byte, hi: byte, data: seq<byte>, limit: nat, a: nat)
    requires Flat(packets) == [lo, hi] + data && WholeUnits(packets, 2)
    requires DecodeHeader(d.far, lo, hi) < limit <= |d.flash.mem| && Mod(limit, |d.flash.buf|) == 0
    requires limit <= a < |d.flash.mem|
    ensures SetReport(d, packets).flash.mem[a] == d.flash.mem[a] && SetReport(d, packets).far == d.far
  {
    hide Erase, WritePage, FillWords, DecodeHeader, Take, Mod, RwwEnable;
    var s := OutStream(packets[0], packets[1..]);
    assert Pending(s) == [lo, hi] + data;
    assert 2 <= |packets[0]| by { FirstUnit(packets); }
    UnitRead(s, 2);
    assert ReadUnit(s, 2) == [lo, hi];
    var page := DecodeHeader(d.far, lo, hi);
    var f := FillWords(Erase(d.flash, page), page, Take(AfterUnit(s, 2), |d.flash.buf|, 2).data);
    OtherCells(d.flash, page, limit, a);
    OtherCells(f, page, limit, a);
  }

  lemma FirstUnit(packets: seq<seq<byte>>)
    requires packets != [] && WholeUnits(packets, 2)
    ensures 2 <= |packets[0]|
  {
    ModSmall(0, 2);
    ModRoom(0, |packets[0]|, 2);
  }

  /** A part of exactly 64 KB reads the shifted addresses it is served as plain ones:
      from 0x100 on nothing ever arrives. */
  lemma {:induction false} SixtyFourKUntouched(h: Loader, d: Device, addr: nat, deliveries: seq<seq<seq<byte>>>, a: nat)
    requires Valid(h) && !d.far && |d.flash.mem| == 0x1_0000 && Mod(0x100, |d.flash.buf|) == 0
    requires Carries(deliveries, Reports(h, 0x1_0000, |d.flash.buf|, addr)) && 0x100 <= a < 0x1_0000
    ensures ServeAll(d, deliveries).flash.mem[a] == d.flash.mem[a]
    decreases 0x1_0000 - addr
  {
    hide SetReport, WithinRange, GetData, Mod;
    var p := |d.flash.buf|;
    if addr < 0x1_0000 {
      var rest := Reports(h, 0x1_0000, p, addr + p);
      if IsSent(h, addr, p) {
        var reports := Reports(h, 0x1_0000, p, addr);
        var r := Header(0x1_0000, addr);
        assert reports[0] == r + GetData(h, addr, p) && reports[1..] == rest;
        assert r == [r[0], r[1]];
        ReportKeeps(d, deliveries[0], r[0], r[1], GetData(h, addr, p), 0x100, a);
        assert Carries(deliveries[1..], rest);
        SixtyFourKUntouched(h, SetReport(d, deliveries[0]), addr + p, deliveries[1..], a);
      } else {
        assert Reports(h, 0x1_0000, p, addr) == rest;
        SixtyFourKUntouched(h, d, addr + p, deliveries, a);
      }
    }
  }

  // ---- The bytes of a header, and the start command ----

  /** A header is the page address, low byte first; from 64 KB of code on, without its
      lowest byte. */
  lemma HeaderBytes(codeSize: nat, addr: nat)
    requires addr < if codeSize < 0x1_0000 then 0x1_0000 else 0x100_0000
    ensures var r := Header(codeSize, addr);
            var lo: int, hi: int := r[0], r[1];
            if codeSize < 0x1_0000 then lo + 0x100 * hi == addr
            else 0x100 * (lo + 0x100 * hi) == addr - addr % 0x100
  {}

  /** A report ends the boot loader if and only if its first packet starts with 0xFF
      0xFF, on both kinds of parts and however the rest is cut; the flash is then
      untouched. */
  lemma StartExactly(d: Device, packets: seq<seq<byte>>)
    requires d.running && packets != []
    ensures var start := |packets[0]| >= 2 && packets[0][0] == 0xFF && packets[0][1] == 0xFF;
            && (!SetReport(d, packets).running <==> start)
            && (start ==> SetReport(d, packets) == d.(running := false))
  {
    hide Take, FillWords, Erase, WritePage, RwwEnable, DecodeHeader;
    var s := OutStream(packets[0], packets[1..]);
    var header := ReadUnit(s, 2);
    if |packets[0]| >= 2 {
      assert header == [packets[0][0], packets[0][1]];
    } else {
      assert header[1] == 0;
    }
  }

  /** A page report that stops short erases its page and programs nothing. */
  lemma ShortReport(d: Device, packets: seq<seq<byte>>)
    requires packets != [] && !(|packets[0]| >= 2 && packets[0][0] == 0xFF && packets[0][1] == 0xFF)
    requires |PaddedPending(AfterUnit(OutStream(packets[0], packets[1..]), 2), 2)| < |d.flash.buf|
    ensures var header := ReadUnit(OutStream(packets[0], packets[1..]), 2);
            SetReport(d, packets).flash.mem == Erase(d.flash, DecodeHeader(d.far, header[0], header[1])).mem
    ensures SetReport(d, packets).running == d.running
  {
    hide Take, FillWords, Erase, WritePage, RwwEnable, DecodeHeader, PaddedPending, Mod;
    var s := OutStream(packets[0], packets[1..]);
    TakePadded(AfterUnit(s, 2), |d.flash.buf|, 2);
    if |packets[0]| < 2 {
      assert ReadUnit(s, 2)[1] == 0;
    } else {
      assert ReadUnit(s, 2) == [packets[0][0], packets[0][1]];
    }
  }
}
