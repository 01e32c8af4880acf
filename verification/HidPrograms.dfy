/** The two programs of the HID pipeline in the form of their sources: the host
    loader with its image and mask arrays, and the page handler of the device. */
module HidPrograms {
  import opened Bytes
  import opened FlashMemory
  import opened UsbEndpoint
  import opened IntelHex
  import H = HidPipeline

  class HostLoader {
    const image: array<byte>
    const mask: array<bool>
    var byteCount: nat
    var extended: nat
    var endSeen: bool

    ghost predicate Ready()
      reads this
    {
      image.Length == MAX_MEMORY_SIZE && mask.Length == MAX_MEMORY_SIZE && extended <= 0xFFFF_0000
    }

    ghost function Model(): (h: Loader)
      requires Ready()
      reads this, image, mask
      ensures Valid(h)
    {
      Loader(image[..], mask[..], byteCount, extended, endSeen)
    }

    constructor ()
      ensures Ready() && fresh(image) && fresh(mask)
    {
      image := new byte[MAX_MEMORY_SIZE];
      mask := new bool[MAX_MEMORY_SIZE];
      byteCount, extended, endSeen := 0, 0, false;
    }

    /** The start of read_intel_hex. */
    method Clear()
      requires Ready()
      modifies this, image, mask
      ensures Ready() && Model() == Empty
    {
      byteCount, endSeen := 0, false;
      var i := 0;
      while i < MAX_MEMORY_SIZE
        invariant 0 <= i <= MAX_MEMORY_SIZE && Ready() && byteCount == 0 && !endSeen
        invariant forall j :: 0 <= j < i ==> image[j] == 0xFF && !mask[j]
      {
        image[i], mask[i] := 0xFF, false;
        i := i + 1;
      }
      extended := 0;
      assert image[..] == Empty.image && mask[..] == Empty.mask;
    }

    /** The data part of parse_hex_line. The bytes are stored before the checksum
        is known to be right; a file with a wrong one is given up altogether. At a
        store outside the image the method stops and reports `stray`. */
    method ParseDataBytes(line: string, len: byte, addr: word) returns (ok: bool, stray: bool)
      requires Ready() && Wrapped(addr + extended + len) < MAX_MEMORY_SIZE
      modifies this`byteCount, image, mask
      ensures Ready()
      ensures var p := ParseData(old(Model()), line, len, addr);
              ok == p.Accept? && stray == p.Stray? && (ok ==> Model() == p.h)
    {
      stray := false;
      hide HexByte, StoreImage, StoreMask, Sum, HeaderSum, ChecksumOk;
      byteCount := byteCount + len;
      var base := addr + extended;
      var sum := HeaderSum(len, addr, 0);
      var num := 0;
      ghost var data: seq<byte> := [];
      NothingStored(image[..], mask[..], base);
      while num != len
        invariant 0 <= num <= len && |data| == num && HexBytes(line, 9, num) == Some(data)
        invariant num > 0 ==> base < MAX_MEMORY_SIZE
        invariant image[..] == StoreImage(old(image[..]), base, data)
        invariant mask[..] == StoreMask(old(mask[..]), base, num)
        invariant sum == HeaderSum(len, addr, 0) + Sum(data) && byteCount == old(byteCount) + len
        decreases len - num
      {
        HexBytesNext(line, 9, num);
        var b := HexByte(line, 9 + 2 * num);
        if b.None? {
          HexBytesStuck(line, 9, num + 1, len);
          return false, false;
        }
        if base + num >= MAX_MEMORY_SIZE {
          return false, true;
        }
        StoreNext(old(image[..]), old(mask[..]), base, data, b.value);
        SumNext(data, b.value);
        image[base + num] := b.value;
        mask[base + num] := true;
        data := data + [b.value];
        sum := sum + b.value;
        num := num + 1;
      }
      var checksum := HexByte(line, 9 + 2 * len);
      if checksum.None? {
        return false, false;
      }
      ok := ChecksumOk(sum, checksum.value);
    }

    /** The extended address part of parse_hex_line. */
    method ParseExtensionBytes(line: string, len: byte, addr: word, code: byte)
      requires Ready()
      modifies this`extended
      ensures Ready() && Model() == ParseExtension(old(Model()), line, len, addr, code)
    {
      hide HexByte, HexWord, HeaderSum, ChecksumOk;
      if len != 2 || (code != 2 && code != 4) {
        return;
      }
      var w := HexWord(line, 9);
      var checksum := HexByte(line, 13);
      if w.None? || checksum.None? {
        return;
      }
      if !ChecksumOk(HeaderSum(len, addr, code) + w.value / 0x100 + w.value % 0x100, checksum.value) {
        return;
      }
      extended := if code == 2 then 16 * w.value else 0x1_0000 * w.value;
    }

    method ParseHexLine(line: string) returns (ok: bool, stray: bool)
      requires Ready()
      modifies this, image, mask
      ensures Ready()
      ensures var p := ParseLine(old(Model()), line);
              ok == p.Accept? && stray == p.Stray? && (ok ==> Model() == p.h)
    {
      stray := false;
      hide HexByte, HexWord, ParseExtension;
      if |line| < 11 || line[0] != ':' {
        return false, false;
      }
      var len := HexByte(line, 1);
      if len.None? || |line| < 11 + 2 * len.value {
        return false, false;
      }
      var addr := HexWord(line, 3);
      var code := HexByte(line, 7);
      if addr.None? || code.None? || Wrapped(addr.value + extended + len.value) >= MAX_MEMORY_SIZE {
        return false, false;
      }
      if code.value == 0 {
        ok, stray := ParseDataBytes(line, len.value, addr.value);
      } else {
        if code.value == 1 {
          endSeen := true;
        } else {
          ParseExtensionBytes(line, len.value, addr.value, code.value);
        }
        ok := true;
      }
    }

    /** Returns the number of bytes, or -2 when a line is rejected; `stray` when a
        store outside the image leaves the rest undefined. */
    method ReadIntelHex(lines: seq<string>) returns (n: int, stray: bool)
      requires Ready()
      modifies this, image, mask
      ensures Ready() && stray == ReadLines(Empty, lines).Stray?
      ensures n >= 0 <==> ReadLines(Empty, lines).Accept?
      ensures n >= 0 ==> Model() == ReadLines(Empty, lines).h && n == byteCount
    {
      hide ParseLine;
      stray := false;
      Clear();
      var i := 0;
      assert lines[0..] == lines;
      while i < |lines| && !endSeen
        invariant 0 <= i <= |lines| && Ready()
        invariant ReadLines(Model(), lines[i..]) == ReadLines(Empty, lines)
      {
        assert lines[i..][1..] == lines[i + 1..];
        if lines[i] != [] {
          var ok;
          ok, stray := ParseHexLine(lines[i]);
          if !ok {
            return -2, stray;
          }
        }
        i := i + 1;
      }
      n, stray := byteCount, false;
    }

    method BytesWithinRange(begin: int, end: int) returns (found: bool)
      requires Ready()
      ensures found <==> begin >= 0 && end >= 0 && H.WithinRange(Model(), begin, end)
    {
      if begin < 0 || begin >= MAX_MEMORY_SIZE || end < 0 || end >= MAX_MEMORY_SIZE {
        return false;
      }
      var i := begin;
      while i <= end
        invariant begin <= i
        invariant forall j :: begin <= j < i && j <= end ==> !mask[j]
      {
        if mask[i] {
          assert Model().mask[i];
          return true;
        }
        i := i + 1;
      }
      return false;
    }

    method GetData(addr: nat, bytes: array<byte>)
      requires Ready() && bytes != image
      modifies bytes
      ensures bytes[..] == H.GetData(Model(), addr, bytes.Length)
    {
      var i := 0;
      if addr + bytes.Length >= MAX_MEMORY_SIZE {
        while i < bytes.Length
          invariant 0 <= i <= bytes.Length
          invariant forall j :: 0 <= j < i ==> bytes[j] == 0xFF
        {
          bytes[i] := 0xFF;
          i := i + 1;
        }
        return;
      }
      while i < bytes.Length
        invariant 0 <= i <= bytes.Length
        invariant forall j :: 0 <= j < i ==> bytes[j] == if mask[addr + j] then image[addr + j] else 0xFF
      {
        bytes[i] := if mask[addr + i] then image[addr + i] else 0xFF;
        i := i + 1;
      }
    }

    /** The programming loop of main; each report is handed to the USB driver. */
    method Program(codeSize: nat, blockSize: nat) returns (reports: seq<seq<byte>>)
      requires Ready() && blockSize > 0
      ensures reports == H.Reports(Model(), codeSize, blockSize, 0)
    {
      hide H.WithinRange, H.GetData, H.Header;
      var addr := 0;
      reports := [];
      var buf := new byte[blockSize];
      while addr < codeSize
        invariant reports + H.Reports(Model(), codeSize, blockSize, addr) == H.Reports(Model(), codeSize, blockSize, 0)
        decreases codeSize - addr
      {
        var used := BytesWithinRange(addr, addr + blockSize - 1);
        ghost var rest := H.Reports(Model(), codeSize, blockSize, addr + blockSize);
        if addr == 0 || used {
          GetData(addr, buf);
          var report := H.Header(codeSize, addr) + buf[..];
          assert reports + ([report] + rest) == (reports + [report]) + rest;
          reports := reports + [report];
        } else {
          assert [] + rest == rest;
        }
        addr := addr + blockSize;
      }
      assert reports + [] == reports;
    }
  }

  /** The boot loader of the device. */
  class HidBootloader {
    const far: bool
    var flash: Flash
    var runBootloader: bool
    var out: OutStream

    ghost function Model(): H.Device
      reads this
    {
      H.Device(flash, runBootloader, far)
    }

    constructor (far: bool, flash: Flash)
      ensures Model() == H.Device(flash, true, far)
    {
      this.far, this.flash := far, flash;
      runBootloader, out := true, OutStream([], []);
    }

    method Read16() returns (lo: byte, hi: byte)
      modifies this`out
      ensures [lo, hi] == ReadUnit(old(out), 2) && out == AfterUnit(old(out), 2)
    {
      var unit := ReadUnit(out, 2);
      lo, hi := unit[0], unit[1];
      out := AfterUnit(out, 2);
    }

    /** The SetReport request; a data stage that stops short leaves the handler waiting. */
    method SetReport(packets: seq<seq<byte>>)
      modifies this
      ensures Model() == H.SetReport(old(Model()), packets)
    {
      hide ReadUnit, AfterUnit, Erase, WritePage, Fill, RwwEnable, Mod;
      if packets == [] {
        return;
      }
      out := OutStream(packets[0], packets[1..]);
      var lo, hi := Read16();
      var page := H.DecodeHeader(far, lo, hi);
      if Word(hi, lo) == H.COMMAND_STARTAPPLICATION {
        runBootloader := false;
      } else {
        var complete := ProgramPage(page);
        if complete {
          flash := RwwEnable(WritePage(flash, page));
        }
      }
    }

    /** Erases the page and fills the page buffer from the endpoint. */
    method ProgramPage(page: nat) returns (complete: bool)
      modifies this`flash, this`out
      ensures var t := Take(old(out), |old(flash).buf|, 2);
              flash == FillWords(Erase(old(flash), page), page, t.data) && complete == t.complete
    {
      hide ReadUnit, AfterUnit, Erase, Fill, Mod;
      flash := Erase(flash, page);
      ghost var goal := FillWords(flash, page, Take(out, |flash.buf|, 2).data);
      ghost var finished := Take(out, |flash.buf|, 2).complete;
      var left := |flash.buf|;
      var a := page;
      while left != 0
        invariant 0 <= left && Mod(left, 2) == 0
        invariant FillWords(flash, a, Take(out, left, 2).data) == goal && Take(out, left, 2).complete == finished
      {
        ghost var s := out;
        if out.bank == [] {
          if out.rest == [] {
            return false;
          }
          out := NextBank(out);
        }
        var lo, hi := Read16();
        ModRoom(0, left, 2);
        EvenLess(left);
        TakeWord(s, left, lo, hi, out);
        FillNextWord(flash, a, lo, hi, Take(out, left - 2, 2).data);
        flash := Fill(flash, a, lo, hi);
        a := a + 2;
        left := left - 2;
      }
      return true;
    }
  }

  lemma EvenLess(m: nat)
    requires m >= 2 && Mod(m, 2) == 0
    ensures Mod(m - 2, 2) == 0
  {}

  lemma TakeWord(s: OutStream, m: nat, lo: byte, hi: byte, s': OutStream)
    requires m >= 2 && Mod(m, 2) == 0 && Mod(m - 2, 2) == 0 && (s.bank != [] || s.rest != [])
    requires var b := if s.bank == [] then NextBank(s) else s;
             [lo, hi] == ReadUnit(b, 2) && s' == AfterUnit(b, 2)
    ensures var t := Take(s', m - 2, 2);
            Take(s, m, 2) == Taken([lo, hi] + t.data, t.left, t.complete)
  {}

  lemma FillNextWord(f: Flash, a: nat, lo: byte, hi: byte, rest: seq<byte>)
    requires Mod(|rest|, 2) == 0
    ensures Mod(|[lo, hi] + rest|, 2) == 0
    ensures FillWords(f, a, [lo, hi] + rest) == FillWords(Fill(f, a, lo, hi), a + 2, rest)
  {
    assert ([lo, hi] + rest)[2..] == rest;
  }

  // ---- The data loop of the line parser ----

  lemma NothingStored(image: seq<byte>, mask: seq<bool>, base: nat)
    ensures StoreImage(image, base, []) == image && StoreMask(mask, base, 0) == mask && Sum([]) == 0
  {}

  lemma StoreNext(image: seq<byte>, mask: seq<bool>, base: nat, data: seq<byte>, b: byte)
    requires base + |data| < |image| == |mask|
    ensures StoreImage(image, base, data + [b]) == StoreImage(image, base, data)[base + |data| := b]
    ensures StoreMask(mask, base, |data| + 1) == StoreMask(mask, base, |data|)[base + |data| := true]
  {}

  lemma {:induction false} SumNext(data: seq<byte>, b: byte)
    ensures Sum(data + [b]) == Sum(data) + b
  {
    if data == [] {
      assert ([] + [b])[1..] == [];
    } else {
      SumNext(data[1..], b);
      assert (data + [b])[1..] == data[1..] + [b];
    }
  }

  lemma {:induction false} HexBytesNext(line: string, p: nat, n: nat)
    ensures HexBytes(line, p, n + 1)
         == match (HexBytes(line, p, n), HexByte(line, p + 2 * n))
            case (Some(data), Some(b)) => Some(data + [b])
            case _ => None
    decreases n
  {
    hide HexByte;
    if n > 0 {
      HexBytesNext(line, p + 2, n - 1);
      var rest := HexBytes(line, p + 2, n - 1);
      if rest.Some? && HexByte(line, p).Some? && HexByte(line, p + 2 * n).Some? {
        var b0, b := HexByte(line, p).value, HexByte(line, p + 2 * n).value;
        assert [b0] + (rest.value + [b]) == ([b0] + rest.value) + [b];
      }
    } else {
      var b := HexByte(line, p);
      if b.Some? {
        assert [b.value] + [] == [] + [b.value];
      }
    }
  }

  lemma {:induction false} HexBytesStuck(line: string, p: nat, k: nat, n: nat)
    requires k <= n && HexBytes(line, p, k).None?
    ensures HexBytes(line, p, n).None?
    decreases n - k
  {
    if k < n {
      HexBytesNext(line, p, k);
      HexBytesStuck(line, p, k + 1, n);
    }
  }
}
