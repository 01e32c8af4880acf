/** Reading Intel HEX files in the HID host loader (hid_bootloader_cli.c): what
    the line parser does, and the overlay of data records that a file means. */
module IntelHex {
  import opened Bytes

  const MAX_MEMORY_SIZE: nat := 0x1_0000

  datatype Option<T> = None | Some(value: T)

  /** firmware_image, firmware_mask, byte_count, extended_addr, end_record_seen. */
  datatype Loader = Loader(image: seq<byte>, mask: seq<bool>, byteCount: nat, extended: nat, endSeen: bool)

  predicate Valid(h: Loader) {
    |h.image| == MAX_MEMORY_SIZE && |h.mask| == MAX_MEMORY_SIZE && h.extended <= 0xFFFF_0000
  }

  const Empty := Loader(seq(MAX_MEMORY_SIZE, _ => 0xFF), seq(MAX_MEMORY_SIZE, _ => false), 0, 0, false)

  /** The outcome of a line; Stray means a byte was stored outside the image. */
  datatype Parse = Reject | Stray | Accept(h: Loader)

  // ---- Hexadecimal fields ----

  function Digit(c: char): (r: Option<nat>)
    ensures r.Some? ==> r.value < 16
  {
    if '0' <= c <= '9' then Some((c as int) - ('0' as int))
    else if 'a' <= c <= 'f' then Some((c as int) - ('a' as int) + 10)
    else if 'A' <= c <= 'F' then Some((c as int) - ('A' as int) + 10)
    else None
  }

  /** The two or four digits at position p. */
  function HexByte(line: string, p: nat): Option<byte> {
    if p + 2 > |line| then None
    else
      match (Digit(line[p]), Digit(line[p + 1]))
      case (Some(hi), Some(lo)) => Some(16 * hi + lo)
      case _ => None
  }

  function HexWord(line: string, p: nat): Option<word> {
    match (HexByte(line, p), HexByte(line, p + 2))
    case (Some(hi), Some(lo)) => Some(Word(hi, lo))
    case _ => None
  }

  function HexBytes(line: string, p: nat, n: nat): (r: Option<seq<byte>>)
    ensures r.Some? ==> |r.value| == n
    decreases n
  {
    if n == 0 then Some([])
    else
      match (HexByte(line, p), HexBytes(line, p + 2, n - 1))
      case (Some(b), Some(rest)) => Some([b] + rest)
      case _ => None
  }

  function Sum(data: seq<byte>): nat {
    if data == [] then 0 else data[0] + Sum(data[1..])
  }

  /** The sum of the first four bytes of a record. */
  function HeaderSum(len: byte, addr: word, code: byte): nat {
    len + addr / 0x100 + addr % 0x100 + code
  }

  predicate ChecksumOk(sum: nat, checksum: byte) {
    (sum + checksum) % 0x100 == 0
  }

  // ---- Lines ----

  function StoreImage(image: seq<byte>, base: nat, data: seq<byte>): (r: seq<byte>)
    ensures |r| == |image|
  {
    seq(|image|, i requires 0 <= i < |image| => if base <= i < base + |data| then data[i - base] else image[i])
  }

  function StoreMask(mask: seq<bool>, base: nat, n: nat): (r: seq<bool>)
    ensures |r| == |mask|
  {
    seq(|mask|, i requires 0 <= i < |mask| => mask[i] || base <= i < base + n)
  }

  /** addr + extended_addr + len in 32 bits. */
  function Wrapped(x: nat): nat {
    if x < 0x1_0000_0000 then x else x - 0x1_0000_0000
  }

  function ParseData(h: Loader, line: string, len: byte, addr: word): (r: Parse)
    requires Valid(h)
    ensures r.Accept? ==> Valid(r.h)
  {
    var base := addr + h.extended;
    if len > 0 && base >= MAX_MEMORY_SIZE && HexByte(line, 9).Some? then Stray
    else
      match (HexBytes(line, 9, len), HexByte(line, 9 + 2 * len))
      case (Some(data), Some(checksum)) =>
        if ChecksumOk(HeaderSum(len, addr, 0) + Sum(data), checksum) then
          Accept(h.(image := StoreImage(h.image, base, data), mask := StoreMask(h.mask, base, len),
                    byteCount := h.byteCount + len))
        else Reject
      case _ => Reject
  }

  /** Extended address records; one that is malformed is passed over. */
  function ParseExtension(h: Loader, line: string, len: byte, addr: word, code: byte): (r: Loader)
    requires Valid(h)
    ensures Valid(r)
  {
    if len == 2 && (code == 2 || code == 4) then
      match (HexWord(line, 9), HexByte(line, 13))
      case (Some(w), Some(checksum)) =>
        if ChecksumOk(HeaderSum(len, addr, code) + w / 0x100 + w % 0x100, checksum) then
          h.(extended := if code == 2 then 16 * w else 0x1_0000 * w)
        else h
      case _ => h
    else h
  }

  /** parse_hex_line. */
  function ParseLine(h: Loader, line: string): (r: Parse)
    requires Valid(h)
    ensures r.Accept? ==> Valid(r.h)
  {
    if |line| < 11 || line[0] != ':' then Reject
    else
      match (HexByte(line, 1), HexWord(line, 3), HexByte(line, 7))
      case (Some(len), Some(addr), Some(code)) =>
        if |line| < 11 + 2 * len || Wrapped(addr + h.extended + len) >= MAX_MEMORY_SIZE then Reject
        else if code == 0 then ParseData(h, line, len, addr)
        else if code == 1 then Accept(h.(endSeen := true))
        else Accept(ParseExtension(h, line, len, addr, code))
      case _ => Reject
  }

  /** read_intel_hex, from a given state on. A line is what fgets leaves in the
      buffer up to the first NUL; one that is empty is passed over. */
  function ReadLines(h: Loader, lines: seq<string>): (r: Parse)
    requires Valid(h)
    ensures r.Accept? ==> Valid(r.h)
    decreases |lines|
  {
    if lines == [] || h.endSeen then Accept(h)
    else if lines[0] == [] then ReadLines(h, lines[1..])
    else
      var p := ParseLine(h, lines[0]);
      if p.Accept? then ReadLines(p.h, lines[1..]) else p
  }

  // ---- What a file means ----

  /** A record of the Intel Hexadecimal Object File Format. */
  datatype Record = Record(addr: word, code: byte, data: seq<byte>, checksum: byte)

  predicate WellSized(r: Record) {
    |r.data| < 0x100
  }

  /** All bytes of a record add up to zero. */
  predicate Checked(r: Record)
    requires WellSized(r)
  {
    ChecksumOk(HeaderSum(|r.data|, r.addr, r.code) + Sum(r.data), r.checksum)
  }

  /** The line writes the record in hexadecimal digits. */
  predicate Writes(line: string, r: Record) {
    && WellSized(r) && |line| >= 11 + 2 * |r.data| && line[0] == ':'
    && HexByte(line, 1) == Some(|r.data|)
    && HexWord(line, 3) == Some(r.addr)
    && HexByte(line, 7) == Some(r.code)
    && HexBytes(line, 9, |r.data|) == Some(r.data)
    && HexByte(line, 9 + 2 * |r.data|) == Some(r.checksum)
  }

  /** The lines that are not empty write the records, up to an end record; what
      follows that is any text. */
  predicate WritesFile(lines: seq<string>, records: seq<Record>) {
    (forall i :: 0 <= i < |records| ==> WellSized(records[i])) && WritesLines(lines, records)
  }

  predicate WritesLines(lines: seq<string>, records: seq<Record>)
    decreases |lines|
  {
    if lines == [] then records == []
    else if lines[0] == [] then WritesLines(lines[1..], records)
    else
      && records != [] && Writes(lines[0], records[0])
      && if records[0].code == 1 then |records| == 1 else WritesLines(lines[1..], records[1..])
  }

  /** The base address that holds after a record. */
  function BaseAfter(r: Record, base: nat): nat
    requires WellSized(r)
  {
    if |r.data| == 2 && r.code == 2 && Checked(r) then 16 * Word(r.data[0], r.data[1])
    else if |r.data| == 2 && r.code == 4 && Checked(r) then 0x1_0000 * Word(r.data[0], r.data[1])
    else base
  }

  datatype Segment = Segment(base: nat, data: seq<byte>)

  /** The data records before the end record, at their extended addresses. */
  function Segments(records: seq<Record>, base: nat): seq<Segment>
    requires forall i :: 0 <= i < |records| ==> WellSized(records[i])
  {
    if records == [] || records[0].code == 1 then []
    else if records[0].code == 0 then
      [Segment(base + records[0].addr, records[0].data)] + Segments(records[1..], base)
    else Segments(records[1..], BaseAfter(records[0], base))
  }

  /** Up to the end record, every data record lies below the image size and has its
      checksum right, and the address sum of every other record is below it in 32
      bits. */
  predicate Acceptable(records: seq<Record>, base: nat)
    requires forall i :: 0 <= i < |records| ==> WellSized(records[i])
  {
    records == [] ||
    (var r := records[0];
     if r.code == 0 then
       r.addr + base + |r.data| < MAX_MEMORY_SIZE && Checked(r) && Acceptable(records[1..], base)
     else
       Wrapped(r.addr + base + |r.data|) < MAX_MEMORY_SIZE
       && (r.code == 1 || Acceptable(records[1..], BaseAfter(r, base))))
  }

  /** A data record that is reached with the base 0xFFFF0000 in force and that runs
      over the end of the 32-bit space. */
  predicate Strays(records: seq<Record>, base: nat)
    requires forall i :: 0 <= i < |records| ==> WellSized(records[i])
  {
    records != [] &&
    (var r := records[0];
     if r.code == 0 then
       || r.addr + base + |r.data| >= 0x1_0000_0000
       || (r.addr + base + |r.data| < MAX_MEMORY_SIZE && Checked(r) && Strays(records[1..], base))
     else
       Wrapped(r.addr + base + |r.data|) < MAX_MEMORY_SIZE
       && r.code != 1 && Strays(records[1..], BaseAfter(r, base)))
  }

  // ---- The overlay ----

  predicate Covers(s: Segment, a: nat) {
    s.base <= a < s.base + |s.data|
  }

  /** The byte at an address: that of the last segment that covers it. */
  function Overlaid(segments: seq<Segment>, a: nat): Option<byte> {
    if segments == [] then None
    else
      var s := segments[|segments| - 1];
      if Covers(s, a) then Some(s.data[a - s.base]) else Overlaid(segments[..|segments| - 1], a)
  }

  function TotalLength(segments: seq<Segment>): nat {
    if segments == [] then 0 else TotalLength(segments[..|segments| - 1]) + |segments[|segments| - 1].data|
  }

  /** The image and the mask are the overlay; what no record covers is erased. */
  predicate Shows(h: Loader, segments: seq<Segment>) {
    && Valid(h)
    && (forall a :: 0 <= a < MAX_MEMORY_SIZE ==>
          && h.mask[a] == Overlaid(segments, a).Some?
          && h.image[a] == if Overlaid(segments, a).Some? then Overlaid(segments, a).value else 0xFF)
    && h.byteCount == TotalLength(segments)
  }

  lemma ShowsNext(h: Loader, segments: seq<Segment>, s: Segment)
    requires Shows(h, segments)
    ensures Shows(Stored(h, s), segments + [s])
  {
    var t := segments + [s];
    assert t[..|t| - 1] == segments;
  }

  lemma WordParts(hi: byte, lo: byte)
    ensures Word(hi, lo) / 0x100 == hi && Word(hi, lo) % 0x100 == lo
  {}

  /** Two bytes read as one word. */
  lemma TwoBytes(line: string, p: nat, data: seq<byte>)
    requires HexBytes(line, p, 2) == Some(data)
    ensures |data| == 2 && HexWord(line, p) == Some(Word(data[0], data[1])) && Sum(data) == (data[0] as int) + (data[1] as int)
  {
    hide HexByte;
    assert HexBytes(line, p + 2, 1) == Some(data[1..]);
    assert Sum(data) == data[0] + (data[1..][0] + Sum(data[1..][1..]));
    assert HexBytes(line, p + 4, 0) == Some(data[1..][1..]);
    assert data[1..][1..] == [];
  }

  lemma ExtensionIsRecord(h: Loader, line: string, r: Record)
    requires Valid(h) && Writes(line, r)
    ensures ParseExtension(h, line, |r.data|, r.addr, r.code) == h.(extended := BaseAfter(r, h.extended))
  {
    hide HexByte, HexBytes, HexWord, ChecksumOk, HeaderSum, Word, Sum;
    if |r.data| == 2 {
      TwoBytes(line, 9, r.data);
      WordParts(r.data[0], r.data[1]);
    }
  }

  /** The loader after a data record. */
  function Stored(h: Loader, s: Segment): (r: Loader)
    requires Valid(h)
    ensures Valid(r)
  {
    h.(image := StoreImage(h.image, s.base, s.data), mask := StoreMask(h.mask, s.base, |s.data|),
       byteCount := h.byteCount + |s.data|)
  }

  lemma DataIsRecord(h: Loader, line: string, r: Record)
    requires Valid(h) && Writes(line, r) && r.code == 0 && r.addr + h.extended + |r.data| < MAX_MEMORY_SIZE
    ensures ParseData(h, line, |r.data|, r.addr)
         == if Checked(r) then Accept(Stored(h, Segment(h.extended + r.addr, r.data))) else Reject
  {
    hide HexByte, HexBytes, HexWord, ChecksumOk, HeaderSum, Word, Sum, StoreImage, StoreMask;
  }

  /** What a record does to the loader. */
  function ApplyRecord(h: Loader, r: Record): Parse
    requires Valid(h) && WellSized(r)
  {
    if Wrapped(r.addr + h.extended + |r.data|) >= MAX_MEMORY_SIZE then Reject
    else if r.code == 0 && r.addr + h.extended + |r.data| >= 0x1_0000_0000 then Stray
    else if r.code == 1 then Accept(h.(endSeen := true))
    else if r.code != 0 then Accept(h.(extended := BaseAfter(r, h.extended)))
    else if Checked(r) then Accept(Stored(h, Segment(h.extended + r.addr, r.data)))
    else Reject
  }

  /** A line that writes a record does what the record says. */
  lemma LineIsRecord(h: Loader, line: string, r: Record)
    requires Valid(h) && Writes(line, r)
    ensures ParseLine(h, line) == ApplyRecord(h, r)
  {
    hide HexByte, HexBytes, HexWord, ParseExtension, ParseData, Checked, BaseAfter, Stored;
    ExtensionIsRecord(h, line, r);
    if r.code == 0 && r.addr + h.extended + |r.data| < MAX_MEMORY_SIZE {
      DataIsRecord(h, line, r);
    } else if r.code == 0 && r.addr + h.extended + |r.data| >= 0x1_0000_0000 {
      DataStrays(h, line, r);
    }
  }

  lemma DataStrays(h: Loader, line: string, r: Record)
    requires Valid(h) && Writes(line, r) && r.addr + h.extended + |r.data| >= 0x1_0000_0000
    ensures ParseData(h, line, |r.data|, r.addr) == Stray
  {
    hide HexByte, HexWord;
    assert r.data != [];
    assert HexByte(line, 9).Some?;
  }

  lemma BaseInRange(r: Record, base: nat)
    requires WellSized(r) && base <= 0xFFFF_0000
    ensures BaseAfter(r, base) <= 0xFFFF_0000
  {
    hide Checked;
  }

  /** Reading from a state that shows `before`, over lines that write `records`. */
  lemma {:induction false} ReadIsFold(h: Loader, lines: seq<string>, records: seq<Record>, before: seq<Segment>)
    requires Shows(h, before) && !h.endSeen && WritesFile(lines, records)
    ensures Valid(h) && forall i :: 0 <= i < |records| ==> WellSized(records[i])
    ensures ReadLines(h, lines).Accept? <==> Acceptable(records, h.extended)
    ensures ReadLines(h, lines).Accept? ==> Shows(ReadLines(h, lines).h, before + Segments(records, h.extended))
    ensures ReadLines(h, lines).Stray? <==> Strays(records, h.extended)
    decreases |lines|
  {
    hide ParseLine, Writes, Checked, BaseAfter, Stored, Shows;
    ShowsValid(h, before);
    if lines == [] {
      assert before + [] == before;
    } else if lines[0] == [] {
      ReadIsFold(h, lines[1..], records, before);
    } else {
      var r, rest := records[0], records[1..];
      assert Writes(lines[0], r);
      LineIsRecord(h, lines[0], r);
      var p := ParseLine(h, lines[0]);
      if p.Accept? {
        if r.code == 1 {
          ReadStops(h, lines[1..], before);
          assert before + [] == before;
        } else if r.code == 0 {
          var s := Segment(h.extended + r.addr, r.data);
          ShowsNext(h, before, s);
          StoredKeeps(h, s);
          ReadIsFold(p.h, lines[1..], rest, before + [s]);
          assert (before + [s]) + Segments(rest, h.extended) == before + ([s] + Segments(rest, h.extended));
        } else {
          BaseInRange(r, h.extended);
          ShowsKeeps(h, before, BaseAfter(r, h.extended));
          ReadIsFold(p.h, lines[1..], rest, before);
        }
      }
    }
  }

  lemma ShowsValid(h: Loader, before: seq<Segment>)
    requires Shows(h, before)
    ensures Valid(h)
  {}

  lemma ReadStops(h: Loader, lines: seq<string>, before: seq<Segment>)
    requires Shows(h, before)
    ensures ReadLines(h.(endSeen := true), lines) == Accept(h.(endSeen := true))
    ensures Shows(h.(endSeen := true), before)
  {}

  lemma StoredKeeps(h: Loader, s: Segment)
    requires Valid(h)
    ensures Stored(h, s).extended == h.extended && Stored(h, s).endSeen == h.endSeen
  {}

  lemma ShowsKeeps(h: Loader, before: seq<Segment>, base: nat)
    requires Shows(h, before) && base <= 0xFFFF_0000
    ensures Shows(h.(extended := base), before)
  {}

  /** Reading a file succeeds exactly if its records are acceptable, and then the
      image and mask are the overlay of its data records in order, with erased
      bytes elsewhere, and the count is the sum of their lengths. It stores outside
      the image exactly if a record strays. */
  lemma ReadIntelHexExact(lines: seq<string>, records: seq<Record>)
    requires WritesFile(lines, records)
    ensures forall i :: 0 <= i < |records| ==> WellSized(records[i])
    ensures ReadLines(Empty, lines).Stray? <==> Strays(records, 0)
    ensures ReadLines(Empty, lines).Accept? <==> Acceptable(records, 0)
    ensures ReadLines(Empty, lines).Accept? ==> Shows(ReadLines(Empty, lines).h, Segments(records, 0))
  {
    hide ReadLines, Acceptable, WritesLines;
    assert Shows(Empty, []);
    ReadIsFold(Empty, lines, records, []);
    assert [] + Segments(records, 0) == Segments(records, 0);
  }

  /** A data record is stored outside the image exactly when the base is
      0xFFFF0000 and the record reaches the end of the 32-bit space. */
  lemma StrayExact(h: Loader, line: string, r: Record)
    requires Valid(h) && Writes(line, r) && r.code == 0
    requires h.extended % 0x1_0000 == 0 || h.extended <= 0xF_FFF0
    ensures ParseLine(h, line).Stray? <==> h.extended == 0xFFFF_0000 && r.addr + |r.data| >= 0x1_0000
  {
    hide ParseLine, Checked, Stored, Writes;
    LineIsRecord(h, line, r);
    assert WellSized(r) by { Sized(line, r); }
  }

  lemma Sized(line: string, r: Record)
    requires Writes(line, r)
    ensures WellSized(r)
  {}

  // ---- Counting bytes ----

  predicate WithinImage(segments: seq<Segment>) {
    forall i :: 0 <= i < |segments| ==> segments[i].base + |segments[i].data| <= MAX_MEMORY_SIZE
  }

  ghost predicate Disjoint(segments: seq<Segment>) {
    forall i, j, a :: 0 <= i < j < |segments| && Covers(segments[i], a) ==> !Covers(segments[j], a)
  }

  function Masked(segments: seq<Segment>): set<nat> {
    set a: nat | a < MAX_MEMORY_SIZE && Overlaid(segments, a).Some?
  }

  function Span(s: Segment): set<nat> {
    set a: nat | a < s.base + |s.data| && Covers(s, a)
  }

  lemma {:induction false} SpanSize(s: Segment)
    ensures |Span(s)| == |s.data|
    decreases |s.data|
  {
    if s.data == [] {
      assert Span(s) == {};
    } else {
      var t := Segment(s.base, s.data[..|s.data| - 1]);
      SpanSize(t);
      assert Span(s) == Span(t) + {s.base + |t.data|};
    }
  }

  lemma {:induction false} OverlaidCovered(segments: seq<Segment>, a: nat)
    ensures Overlaid(segments, a).Some? <==> exists i :: 0 <= i < |segments| && Covers(segments[i], a)
  {
    if segments != [] {
      var prev := segments[..|segments| - 1];
      OverlaidCovered(prev, a);
      if Overlaid(prev, a).Some? {
        var i :| 0 <= i < |prev| && Covers(prev[i], a);
        assert Covers(segments[i], a);
      }
      if i :| 0 <= i < |segments| && Covers(segments[i], a) {
        if i < |prev| {
          assert Covers(prev[i], a);
        }
      }
    }
  }

  /** The byte count is at least the number of bytes in the mask, and equal to it
      exactly when no two data records overlap. */
  lemma {:induction false} CountVersusMask(segments: seq<Segment>)
    requires WithinImage(segments)
    ensures |Masked(segments)| <= TotalLength(segments)
    ensures |Masked(segments)| == TotalLength(segments) <==> Disjoint(segments)
  {
    if segments == [] {
      assert Masked(segments) == {};
    } else {
      var prev, s := segments[..|segments| - 1], segments[|segments| - 1];
      CountVersusMask(prev);
      SpanSize(s);
      assert Masked(segments) == Masked(prev) + Span(s);
      DisjointNext(prev, s);
      assert prev + [s] == segments;
      assert |Masked(prev) + Span(s)| == |Masked(prev)| + |Span(s)| - |Masked(prev) * Span(s)|;
      DisjointSets(Masked(prev), Span(s));
    }
  }

  lemma DisjointSets(a: set<nat>, b: set<nat>)
    ensures a !! b <==> |a * b| == 0
  {
    if |a * b| == 0 {
      forall x | x in a ensures x !in b {
        assert x !in a * b;
      }
    }
  }

  lemma DisjointNext(prev: seq<Segment>, s: Segment)
    requires WithinImage(prev)
    ensures Disjoint(prev + [s]) <==> Disjoint(prev) && Masked(prev) !! Span(s)
  {
    var all := prev + [s];
    if Disjoint(all) {
      forall i, j, a | 0 <= i < j < |prev| && Covers(prev[i], a) ensures !Covers(prev[j], a) {
        assert Covers(all[i], a);
        assert !Covers(all[j], a);
      }
      forall a | a in Masked(prev) ensures a !in Span(s) {
        OverlaidCovered(prev, a);
        var i :| 0 <= i < |prev| && Covers(prev[i], a);
        assert Covers(all[i], a);
        assert !Covers(all[|prev|], a);
      }
    }
    if Disjoint(prev) && Masked(prev) !! Span(s) {
      forall i, j, a | 0 <= i < j < |all| && Covers(all[i], a) ensures !Covers(all[j], a) {
        assert Covers(prev[i], a);
        if j == |prev| {
          OverlaidCovered(prev, a);
          assert a in Masked(prev);
          assert a !in Span(s);
        }
      }
    }
  }

  lemma {:induction false} AcceptableWithin(records: seq<Record>, base: nat)
    requires forall i :: 0 <= i < |records| ==> WellSized(records[i])
    requires Acceptable(records, base)
    ensures WithinImage(Segments(records, base))
    decreases |records|
  {
    hide Checked, BaseAfter;
    if records != [] && records[0].code != 1 {
      AcceptableWithin(records[1..], if records[0].code == 0 then base else BaseAfter(records[0], base));
    }
  }

  /** The returned count against the bytes that are really set in the mask. */
  lemma ReturnedCount(lines: seq<string>, records: seq<Record>)
    requires WritesFile(lines, records) && ReadLines(Empty, lines).Accept?
    ensures var h := ReadLines(Empty, lines).h;
            var masked := set a: nat | a < MAX_MEMORY_SIZE && h.mask[a];
            && |masked| <= h.byteCount
            && (|masked| == h.byteCount <==> Disjoint(Segments(records, 0)))
  {
    hide WritesLines, ReadLines, Checked, Disjoint;
    ReadIntelHexExact(lines, records);
    AcceptableWithin(records, 0);
    var h, segments := ReadLines(Empty, lines).h, Segments(records, 0);
    CountVersusMask(segments);
    assert (set a: nat | a < MAX_MEMORY_SIZE && h.mask[a]) == Masked(segments);
  }

  // ---- Writing records ----

  function DigitChar(d: nat): char
    requires d < 16
  {
    if d < 10 then '0' + d as char else 'A' + (d - 10) as char
  }

  function HexText(data: seq<byte>): (t: string)
    ensures |t| == 2 * |data|
  {
    if data == [] then "" else [DigitChar(data[0] / 16), DigitChar(data[0] % 16)] + HexText(data[1..])
  }

  function FormatLine(r: Record): string
    requires WellSized(r)
  {
    ":" + HexText([|r.data|, r.addr / 0x100, r.addr % 0x100, r.code] + r.data + [r.checksum])
  }

  lemma DigitRoundTrip(d: nat)
    requires d < 16
    ensures Digit(DigitChar(d)) == Some(d)
  {}

  lemma {:induction false} HexTextReads(data: seq<byte>, i: nat)
    requires i < |data|
    ensures HexText(data)[2 * i] == DigitChar(data[i] / 16) && HexText(data)[2 * i + 1] == DigitChar(data[i] % 16)
    decreases i
  {
    if i > 0 {
      HexTextReads(data[1..], i - 1);
    }
  }

  /** Reading byte i of the text after the colon. */
  lemma ByteReads(data: seq<byte>, i: nat)
    requires i < |data|
    ensures HexByte(":" + HexText(data), 1 + 2 * i) == Some(data[i])
  {
    hide Digit, DigitChar, HexText;
    HexTextReads(data, i);
    DigitRoundTrip(data[i] / 16);
    DigitRoundTrip(data[i] % 16);
    var line := ":" + HexText(data);
    assert line[1 + 2 * i] == HexText(data)[2 * i] && line[1 + 2 * i + 1] == HexText(data)[2 * i + 1];
  }

  lemma {:induction false} BytesRead(data: seq<byte>, i: nat, n: nat)
    requires i + n <= |data|
    ensures HexBytes(":" + HexText(data), 1 + 2 * i, n) == Some(data[i..i + n])
    decreases n
  {
    hide HexByte;
    if n == 0 {
      assert data[i..i] == [];
    } else {
      ByteReads(data, i);
      BytesRead(data, i + 1, n - 1);
      assert data[i..i + n] == [data[i]] + data[i + 1..i + n];
    }
  }

  /** Round trip: the text of a record is read back as that record, so the
      theorems about reading apply to every sequence of records. */
  lemma FormatThenRead(r: Record)
    requires WellSized(r)
    ensures Writes(FormatLine(r), r)
  {
    hide HexByte, HexBytes;
    var all := [|r.data|, r.addr / 0x100, r.addr % 0x100, r.code] + r.data + [r.checksum];
    ByteReads(all, 0);
    ByteReads(all, 1);
    ByteReads(all, 2);
    ByteReads(all, 3);
    BytesRead(all, 4, |r.data|);
    assert all[4..4 + |r.data|] == r.data;
    ByteReads(all, 4 + |r.data|);
  }

  // ---- Checksums ----

  /** All bytes of a record, as its text writes them. */
  function RecordBytes(r: Record): seq<byte>
    requires WellSized(r)
  {
    [|r.data|, r.addr / 0x100, r.addr % 0x100, r.code] + r.data + [r.checksum]
  }

  lemma {:induction false} SumAppend(a: seq<byte>, b: seq<byte>)
    ensures Sum(a + b) == Sum(a) + Sum(b)
  {
    if a == [] {
      assert a + b == b;
    } else {
      SumAppend(a[1..], b);
      assert (a + b)[1..] == a[1..] + b;
    }
  }

  lemma SumOfFour(a: byte, b: byte, c: byte, d: byte)
    ensures Sum([a, b, c, d]) == (a as int) + (b as int) + (c as int) + (d as int)
  {
    assert [a, b, c, d] == [a] + ([b] + ([c] + [d]));
    SumAppend([a], [b] + ([c] + [d]));
    SumAppend([b], [c] + [d]);
    SumAppend([c], [d]);
    SumOfOne(a);
    SumOfOne(b);
    SumOfOne(c);
    SumOfOne(d);
  }

  lemma SumOfOne(a: byte)
    ensures Sum([a]) == a
  {
    assert [a][1..] == [];
  }

  /** A record is checked exactly if its bytes add up to a multiple of 256. */
  lemma CheckedIsSum(r: Record)
    requires WellSized(r)
    ensures Checked(r) <==> Sum(RecordBytes(r)) % 0x100 == 0
  {
    hide Sum;
    var header := [|r.data|, r.addr / 0x100, r.addr % 0x100, r.code];
    SumOfFour(|r.data|, r.addr / 0x100, r.addr % 0x100, r.code);
    SumOfOne(r.checksum);
    SumAppend(header, r.data);
    SumAppend(header + r.data, [r.checksum]);
  }

  lemma {:induction false} HexBytesSnoc(line: string, p: nat, data: seq<byte>, b: byte)
    requires HexBytes(line, p, |data|) == Some(data) && HexByte(line, p + 2 * |data|) == Some(b)
    ensures HexBytes(line, p, |data| + 1) == Some(data + [b])
    decreases |data|
  {
    hide HexByte;
    if data == [] {
      assert HexBytes(line, p + 2, 0) == Some([]);
      assert [b] + [] == data + [b];
    } else {
      assert HexBytes(line, p + 2, |data| - 1) == Some(data[1..]);
      HexBytesSnoc(line, p + 2, data[1..], b);
      assert [data[0]] + (data[1..] + [b]) == data + [b];
    }
  }

  lemma HexBytesCons(line: string, p: nat, b: byte, rest: seq<byte>)
    requires HexByte(line, p) == Some(b) && HexBytes(line, p + 2, |rest|) == Some(rest)
    ensures HexBytes(line, p, 1 + |rest|) == Some([b] + rest)
  {
    hide HexByte;
  }

  lemma AddressBytes(line: string, p: nat, addr: word)
    requires HexWord(line, p) == Some(addr)
    ensures HexByte(line, p) == Some(addr / 0x100) && HexByte(line, p + 2) == Some(addr % 0x100)
  {
    hide HexByte;
  }

  /** The bytes of a line that writes a record. */
  lemma TextIsRecord(line: string, r: Record)
    requires Writes(line, r)
    ensures HexBytes(line, 1, 5 + |r.data|) == Some(RecordBytes(r))
  {
    hide HexByte, HexBytes, HexWord;
    AddressBytes(line, 3, r.addr);
    HexBytesSnoc(line, 9, r.data, r.checksum);
    var d := r.data + [r.checksum];
    HexBytesCons(line, 7, r.code, d);
    HexBytesCons(line, 5, r.addr % 0x100, [r.code] + d);
    HexBytesCons(line, 3, r.addr / 0x100, [r.addr % 0x100] + ([r.code] + d));
    HexBytesCons(line, 1, |r.data|, [r.addr / 0x100] + ([r.addr % 0x100] + ([r.code] + d)));
    assert [|r.data|] + ([r.addr / 0x100] + ([r.addr % 0x100] + ([r.code] + d))) == RecordBytes(r);
  }

  /** A data line in range is accepted if and only if the bytes of its text, from the
      length to the checksum, add up to a multiple of 256. */
  lemma AcceptedBySum(h: Loader, line: string, r: Record)
    requires Valid(h) && Writes(line, r) && r.code == 0 && r.addr + h.extended + |r.data| < MAX_MEMORY_SIZE
    ensures HexBytes(line, 1, 5 + |r.data|).Some?
    ensures ParseLine(h, line).Accept? <==> Sum(HexBytes(line, 1, 5 + |r.data|).value) % 0x100 == 0
  {
    hide ParseLine, Checked, RecordBytes, HexBytes, Stored, HexByte, HexWord;
    LineIsRecord(h, line, r);
    TextIsRecord(line, r);
    CheckedIsSum(r);
  }

  /** For every record exactly one checksum is right. */
  lemma OneChecksum(r: Record)
    requires WellSized(r)
    ensures var sum := Sum([|r.data|, r.addr / 0x100, r.addr % 0x100, r.code] + r.data);
            Checked(r) <==> r.checksum == (0x100 - sum % 0x100) % 0x100
  {
    hide Sum, Checked;
    CheckedIsSum(r);
    SumAppend([|r.data|, r.addr / 0x100, r.addr % 0x100, r.code] + r.data, [r.checksum]);
    SumOfOne(r.checksum);
  }

  lemma {:induction false} SumUpdate(s: seq<byte>, i: nat, x: byte)
    requires i < |s|
    ensures Sum(s[i := x]) == Sum(s) - s[i] + x
  {
    if i > 0 {
      SumUpdate(s[1..], i - 1, x);
      assert s[i := x][1..] == s[1..][i - 1 := x];
    } else {
      assert s[i := x][1..] == s[1..];
    }
  }

  /** Two records that differ in one byte are not both checked. */
  lemma OneByteDiffers(r: Record, q: Record, i: nat)
    requires WellSized(r) && WellSized(q) && |r.data| == |q.data| && i < |RecordBytes(r)|
    requires RecordBytes(q) == RecordBytes(r)[i := RecordBytes(q)[i]] && RecordBytes(q)[i] != RecordBytes(r)[i]
    ensures Checked(r) ==> !Checked(q)
  {
    hide Sum, Checked, RecordBytes;
    CheckedIsSum(r);
    CheckedIsSum(q);
    SumUpdate(RecordBytes(r), i, RecordBytes(q)[i]);
  }

  /** So a data line that differs from an accepted one in one byte of its address, its
      data or its checksum is not accepted. */
  lemma CorruptLineIsRejected(h: Loader, line: string, r: Record, bad: string, q: Record, i: nat)
    requires Valid(h) && Writes(line, r) && Writes(bad, q) && r.code == 0 && q.code == 0 && |r.data| == |q.data|
    requires i < |RecordBytes(r)| && RecordBytes(q) == RecordBytes(r)[i := RecordBytes(q)[i]]
    requires RecordBytes(q)[i] != RecordBytes(r)[i] && ParseLine(h, line).Accept?
    ensures !ParseLine(h, bad).Accept?
  {
    hide ParseLine, Checked, RecordBytes, Stored, HexByte, HexWord, HexBytes;
    LineIsRecord(h, line, r);
    LineIsRecord(h, bad, q);
    OneByteDiffers(r, q, i);
  }

  /** For instance the record that stores 0x12 at address 0. */
  lemma ChecksumExample()
    ensures Checked(Record(0, 0, [0x12], 0xED)) && !Checked(Record(0, 0, [0x12], 0x13))
  {
    OneChecksum(Record(0, 0, [0x12], 0xED));
    OneChecksum(Record(0, 0, [0x12], 0x13));
    SumAppend([1, 0, 0, 0], [0x12]);
    SumOfFour(1, 0, 0, 0);
    SumOfOne(0x12);
  }

  // ---- Upper and lower case ----

  /** A digit has its value in either case, and no other character is one. */
  lemma DigitValues(c: char)
    ensures '0' <= c <= '9' ==> Digit(c) == Some(c as int - 48)
    ensures 'A' <= c <= 'F' ==> Digit(c) == Some(c as int - 55)
    ensures 'a' <= c <= 'f' ==> Digit(c) == Some(c as int - 87)
    ensures !('0' <= c <= '9' || 'A' <= c <= 'F' || 'a' <= c <= 'f') ==> Digit(c) == None
  {}

  /** Texts that differ in the case of digits at most. */
  predicate SameDigits(a: string, b: string) {
    |a| == |b| && forall i :: 0 <= i < |a| ==> Digit(a[i]) == Digit(b[i]) && (a[i] == ':' <==> b[i] == ':')
  }

  lemma {:induction false} SameBytes(a: string, b: string, p: nat, n: nat)
    requires SameDigits(a, b)
    ensures HexBytes(a, p, n) == HexBytes(b, p, n)
    decreases n
  {
    hide Digit;
    if n > 0 {
      SameBytes(a, b, p + 2, n - 1);
    }
  }

  /** They write the same records. */
  lemma CaseIsIgnored(a: string, b: string, r: Record)
    requires SameDigits(a, b) && Writes(a, r)
    ensures Writes(b, r)
  {
    hide Digit, HexBytes;
    SameBytes(a, b, 9, |r.data|);
  }

  // ---- Lines that are no records ----

  /** A line that is too short, does not start with a colon, or whose length, address or
      type are no digits is rejected, and so is one that ends before its data do. */
  lemma MalformedIsRejected(h: Loader, line: string)
    requires Valid(h)
    requires || |line| < 11 || line[0] != ':'
             || HexByte(line, 1) == None || HexWord(line, 3) == None || HexByte(line, 7) == None
             || |line| < 11 + 2 * HexByte(line, 1).value
    ensures ParseLine(h, line) == Reject
  {
    hide HexByte, HexWord, ParseData, ParseExtension;
  }

  /** A data line in range with something else than digits among its data or in its
      checksum is rejected too. */
  lemma BadDigitIsRejected(h: Loader, line: string, len: byte, addr: word)
    requires Valid(h) && |line| >= 11 + 2 * len && line[0] == ':'
    requires HexByte(line, 1) == Some(len) && HexWord(line, 3) == Some(addr) && HexByte(line, 7) == Some(0)
    requires addr + h.extended + len < MAX_MEMORY_SIZE
    requires HexBytes(line, 9, len) == None || HexByte(line, 9 + 2 * len) == None
    ensures ParseLine(h, line) == Reject
  {
    hide HexByte, HexWord, HexBytes, ParseExtension;
  }

  // ---- Extended addresses ----

  /** A data record after an extended address record is stored at sixteen times its
      word (type 2) or 65536 times its word (type 4) plus its own address, if that is
      in the image. */
  lemma ExtendedStore(h: Loader, ext: string, e: Record, line: string, r: Record, base: nat, i: nat)
    requires Valid(h) && Writes(ext, e) && Writes(line, r) && Checked(e) && Checked(r) && r.code == 0 && i < |r.data|
    requires |e.data| == 2 && (e.code == 2 || e.code == 4) && e.addr + h.extended + 2 < MAX_MEMORY_SIZE
    requires base == (if e.code == 2 then 16 else 65536) * (256 * (e.data[0] as int) + e.data[1])
    requires r.addr + base + |r.data| < MAX_MEMORY_SIZE
    ensures ParseLine(h, ext).Accept? && ParseLine(ParseLine(h, ext).h, line).Accept?
    ensures var k := ParseLine(ParseLine(h, ext).h, line).h;
            k.image[base + r.addr + i] == r.data[i] && k.mask[base + r.addr + i]
  {
    hide ParseLine, Checked, Writes;
    Sized(ext, e);
    Sized(line, r);
    LineIsRecord(h, ext, e);
    assert ParseLine(h, ext) == Accept(h.(extended := base)) by { ExtendedBase(h, e, base); }
    LineIsRecord(h.(extended := base), line, r);
  }

  lemma ExtendedBase(h: Loader, e: Record, base: nat)
    requires Valid(h) && WellSized(e) && Checked(e) && |e.data| == 2 && (e.code == 2 || e.code == 4)
    requires e.addr + h.extended + 2 < MAX_MEMORY_SIZE
    requires base == (if e.code == 2 then 16 else 65536) * (256 * (e.data[0] as int) + e.data[1])
    ensures ApplyRecord(h, e) == Accept(h.(extended := base))
  {
    hide Checked;
  }
}
