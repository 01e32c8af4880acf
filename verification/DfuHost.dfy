/** The download requests of a host, in packets as the control endpoint carries
    them, and for which of them the DFU boot loader stores what the host means. */
module DfuHost {
  import opened Bytes
  import opened FlashMemory
  import opened UsbEndpoint
  import opened DfuSpec
  import opened DfuStream
  import opened DfuMemory
  import opened DfuEeprom
  import opened DfuUnaligned

  /** The bytes a host sends before the firmware: the command, the filler, and what
      aligns the start of the range within a packet. */
  function Skipped(part: Part, rg: Range): (k: nat)
    requires part.epSize > 0
    ensures 32 <= k < 32 + part.epSize
  {
    32 + Mod(rg.Start(), part.epSize)
  }

  // ---- Any packets ----

  lemma RemainderIsDiscard(part: Part, r: Request, rg: Range)
    requires part.epSize > 0 && r.packets != [] && |r.packets[0]| >= 6
    ensures Remainder(part, r, rg) == Discard(OutStream(r.packets[0][6..], r.packets[1..]), Skipped(part, rg) - 6)
  {
    hide Discard, Mod;
    DiscardSum(OutStream(r.packets[0][6..], r.packets[1..]), 26, Mod(rg.Start(), part.epSize));
  }

  /** For every packetisation of a data stage, what the device reads in units of k
      is what the host means if and only if the first packet holds everything before
      the firmware, and no packet after that is empty or cuts a unit. */
  lemma ReadAsMeant(part: Part, r: Request, rg: Range, k: nat)
    requires part.epSize > 0 && k > 0 && r.packets != [] && |r.packets[0]| >= 6
    requires Skipped(part, rg) <= |Flat(r.packets)|
    ensures PaddedPending(Remainder(part, r, rg), k) == Flat(r.packets)[Skipped(part, rg)..]
       <==> && Skipped(part, rg) <= |r.packets[0]| && Mod(|r.packets[0]| - Skipped(part, rg), k) == 0
            && WholeUnits(r.packets[1..], k)
  {
    hide Discard, Dropped, PaddedPending, WholeUnits, Skipped;
    var s, n := OutStream(r.packets[0][6..], r.packets[1..]), Skipped(part, rg) - 6;
    RemainderIsDiscard(part, r, rg);
    assert Flat(r.packets)[6..] == Pending(s);
    var t := Discard(s, n);
    DiscardDrops(s, n);
    PendingLength(t, k);
    assert Pending(s)[n..] == Flat(r.packets)[Skipped(part, rg)..];
    if n <= |s.bank| {
      DiscardInBank(s, n);
    }
  }

  // ---- The packets of a host ----

  /** Command, filler, firmware and file suffix. */
  function HostStream(part: Part, kind: byte, rg: Range, payload: seq<byte>): (s: seq<byte>)
    requires part.epSize > 0
    ensures |s| == Skipped(part, rg) + |payload| + 16
  {
    [COMMAND_PROG_START] + rg.ParamsFor(kind) + Zeros(Skipped(part, rg) - 6) + payload + Zeros(16)
  }

  /** A DNLOAD request in packets of the endpoint size. */
  function HostRequest(part: Part, kind: byte, rg: Range, payload: seq<byte>): Request
    requires part.epSize > 0 && Skipped(part, rg) + |payload| + 16 < 0x1_0000
  {
    Request(true, DFU_REQ_DNLOAD, |HostStream(part, kind, rg, payload)|,
            Chunks(HostStream(part, kind, rg, payload), part.epSize), 1)
  }

  /** What a host can send: a control endpoint has at least eight bytes, and the
      length of a data stage is a sixteen-bit number. */
  predicate CanSend(part: Part, rg: Range, n: nat) {
    part.epSize >= 8 && Skipped(part, rg) + n + 16 < 0x1_0000
  }

  lemma StreamParts(part: Part, kind: byte, rg: Range, payload: seq<byte>)
    requires part.epSize > 0
    ensures var s := HostStream(part, kind, rg, payload);
            && s[0] == COMMAND_PROG_START && s[1..6] == rg.ParamsFor(kind)
            && s[Skipped(part, rg)..][..|payload|] == payload
            && s[Skipped(part, rg) - 1..][..|payload|] == ([0] + payload)[..|payload|]
  {}

  lemma RequestParts(part: Part, kind: byte, rg: Range, payload: seq<byte>)
    requires CanSend(part, rg, |payload|)
    ensures var r, s := HostRequest(part, kind, rg, payload), HostStream(part, kind, rg, payload);
            && r.packets != [] && |r.packets[0]| == (if |s| <= part.epSize then |s| else part.epSize)
            && |r.packets[0]| >= 6 && r.packets[0][0] == COMMAND_PROG_START && r.packets[0][1..6] == rg.ParamsFor(kind)
            && OutStream(r.packets[0][6..], r.packets[1..]) == Behind(s, part.epSize)
            && Flat(r.packets) == s
            && (Skipped(part, rg) <= |r.packets[0]| <==> Skipped(part, rg) <= part.epSize)
  {
    hide HostStream, Skipped;
    var r, s := HostRequest(part, kind, rg, payload), HostStream(part, kind, rg, payload);
    StreamParts(part, kind, rg, payload);
    ChunksCarry(s, part.epSize);
    BehindExact(s, part.epSize);
    assert r.packets[0][..6] == s[..6];
    assert r.packets[0][0] == r.packets[0][..6][0];
    assert r.packets[0][1..6] == r.packets[0][..6][1..] && s[1..6] == s[..6][1..];
  }

  /** The first n bytes of firmware as the device takes them, in units of k. */
  function Taken(part: Part, kind: byte, rg: Range, payload: seq<byte>, k: nat): seq<byte>
    requires CanSend(part, rg, |payload|) && 0 < k && Mod(|payload|, k) == 0
  {
    RequestParts(part, kind, rg, payload);
    Take(Remainder(part, HostRequest(part, kind, rg, payload), rg), |payload|, k).data
  }

  lemma TakenIs(part: Part, kind: byte, rg: Range, payload: seq<byte>, k: nat)
    requires CanSend(part, rg, |payload|) && 0 < k && Mod(|payload|, k) == 0
    ensures Taken(part, kind, rg, payload, k)
         == Take(Discard(Behind(HostStream(part, kind, rg, payload), part.epSize), Skipped(part, rg) - 6), |payload|, k).data
  {
    hide Take, Discard, HostStream, Skipped, Behind, Mod;
    RequestParts(part, kind, rg, payload);
    RemainderIsDiscard(part, HostRequest(part, kind, rg, payload), rg);
  }

  /** The packets of the host are whole units, and so is the rest of the first one. */
  lemma HostWhole(part: Part, kind: byte, rg: Range, payload: seq<byte>, k: nat)
    requires CanSend(part, rg, |payload|) && 0 < k && Mod(|payload|, k) == 0 && Skipped(part, rg) <= part.epSize
    requires Mod(part.epSize, k) == 0 && Mod(16, k) == 0 && Mod(Skipped(part, rg), k) == 0
    ensures var r := HostRequest(part, kind, rg, payload);
            && r.packets != [] && WholeUnits(r.packets[1..], k)
            && Skipped(part, rg) <= |r.packets[0]| && Mod(|r.packets[0]| - Skipped(part, rg), k) == 0
  {
    hide Mod, WholeUnits, Skipped, HostStream, Chunks, Behind, Flat;
    var r, s, q := HostRequest(part, kind, rg, payload), HostStream(part, kind, rg, payload), Skipped(part, rg);
    RequestParts(part, kind, rg, payload);
    ModOffset(q, |payload|, k);
    ModOffset(q + |payload|, 16, k);
    ChunksWhole(s, part.epSize, k);
    WholeUnitsStep(r.packets, k);
    ModOffset(q, |r.packets[0]| - q, k);
  }

  /** With the filler in the first packet the device takes the payload. */
  lemma TakenAsMeant(part: Part, kind: byte, rg: Range, payload: seq<byte>, k: nat)
    requires CanSend(part, rg, |payload|) && 0 < k && Mod(|payload|, k) == 0 && Skipped(part, rg) <= part.epSize
    requires Mod(part.epSize, k) == 0 && Mod(16, k) == 0 && Mod(Skipped(part, rg), k) == 0
    ensures Taken(part, kind, rg, payload, k) == payload
  {
    hide Take, Mod, PaddedPending, WholeUnits, Skipped, HostStream, Chunks, Behind, Flat, Remainder, HostRequest;
    var r := HostRequest(part, kind, rg, payload);
    RequestParts(part, kind, rg, payload);
    StreamParts(part, kind, rg, payload);
    HostWhole(part, kind, rg, payload, k);
    ReadAsMeant(part, r, rg, k);
    TakePadded(Remainder(part, r, rg), |payload|, k);
  }

  // ---- A byte that never arrives ----

  /** A payload with another last byte. */
  function OtherLast(payload: seq<byte>): (r: seq<byte>)
    requires payload != []
    ensures |r| == |payload| && r[|r| - 1] != payload[|r| - 1]
  {
    payload[|payload| - 1 := if payload[|payload| - 1] == 0 then 1 else 0]
  }

  lemma StreamsAlike(part: Part, kind: byte, rg: Range, payload: seq<byte>)
    requires CanSend(part, rg, |payload|) && payload != []
    ensures var j := Skipped(part, rg) - 6 + |payload| - 1;
            Alike(Behind(HostStream(part, kind, rg, payload), part.epSize),
                  Behind(HostStream(part, kind, rg, OtherLast(payload)), part.epSize), j)
  {
    hide Chunks, Skipped, Alike, Behind;
    var a, b := HostStream(part, kind, rg, payload), HostStream(part, kind, rg, OtherLast(payload));
    var j := Skipped(part, rg) + |payload| - 1;
    assert a[..j] == b[..j] by { StreamsSame(part, kind, rg, payload); }
    BehindAlike(a, b, part.epSize, j);
  }

  lemma StreamsSame(part: Part, kind: byte, rg: Range, payload: seq<byte>)
    requires part.epSize > 0 && payload != []
    ensures var j := Skipped(part, rg) + |payload| - 1;
            HostStream(part, kind, rg, payload)[..j] == HostStream(part, kind, rg, OtherLast(payload))[..j]
  {
    hide Skipped;
  }

  /** Streams that differ from byte n + m - 1 on, from which n are to be discarded
      and m read: one byte too many counts, or one is added. */
  lemma LostInStream(s: OutStream, t: OutStream, n: nat, m: nat, k: nat)
    requires m > 0 && Alike(s, t, n + m - 1) && 0 < k <= 2 && Mod(m, k) == 0
    requires |s.bank| < n || (k == 2 && (|s.bank| - n) % 2 == 1 && |s.bank| - n < m)
    ensures Take(Discard(s, n), m, k).data == Take(Discard(t, n), m, k).data
  {
    hide Discard, Dropped, Take, Alike, Pending, Mod;
    DiscardDrops(s, n);
    DiscardAlike(s, t, n + m - 1, n);
    if n <= |s.bank| {
      DiscardInBank(s, n);
    }
    TakeAlike(Discard(s, n), Discard(t, n), n + m - 1 - Dropped(s, n), m, k);
  }

  /** The last byte of the firmware is never taken if the filler reaches beyond the
      first packet, or if that packet cuts a word of the firmware. */
  lemma LastByteLost(part: Part, kind: byte, rg: Range, payload: seq<byte>, k: nat)
    requires CanSend(part, rg, |payload|) && payload != [] && 0 < k <= 2 && Mod(|payload|, k) == 0
    requires || Skipped(part, rg) > part.epSize
             || (k == 2 && (part.epSize - Skipped(part, rg)) % 2 == 1 && part.epSize - Skipped(part, rg) < |payload|)
    ensures Taken(part, kind, rg, payload, k) == Taken(part, kind, rg, OtherLast(payload), k)
  {
    hide Discard, Take, Alike, HostStream, Behind, Skipped, Mod, Taken, OtherLast;
    TakenIs(part, kind, rg, payload, k);
    TakenIs(part, kind, rg, OtherLast(payload), k);
    StreamsAlike(part, kind, rg, payload);
    BehindExact(HostStream(part, kind, rg, payload), part.epSize);
    LostInStream(Behind(HostStream(part, kind, rg, payload), part.epSize),
                 Behind(HostStream(part, kind, rg, OtherLast(payload)), part.epSize),
                 Skipped(part, rg) - 6, |payload|, k);
  }

  // ---- Flash ----

  function FlashStart(d: Dfu, rg: Range): nat {
    rg.Start() + 0x1_0000 * d.flash64KBPage
  }

  /** A request of a host, and a device that accepts it. */
  predicate Accepts(part: Part, d: Dfu, rg: Range, n: nat) {
    CanSend(part, rg, n) && !d.waitForExit && !d.isSecure
  }

  lemma HostCarries(part: Part, rg: Range, payload: seq<byte>)
    requires CanSend(part, rg, |payload|)
    ensures var r := HostRequest(part, 0, rg, payload); CarriesRange(r, COMMAND_PROG_START, rg) && r.wLength != 6
  {
    hide HostStream, Skipped, Chunks, Behind, Flat;
    RequestParts(part, 0, rg, payload);
  }

  lemma HostFlash(part: Part, d: Dfu, rg: Range, payload: seq<byte>)
    requires Accepts(part, d, rg, |payload|) && |payload| == rg.Length()
    ensures |Taken(part, 0, rg, payload, 2)| <= |payload| && Mod(|Taken(part, 0, rg, payload, 2)|, 2) == 0
    ensures Step(part, d, HostRequest(part, 0, rg, payload)).d.flash
         == ProgrammedFlash(Erase(d.flash, FlashStart(d, rg)), FlashStart(d, rg), |payload|,
                            Taken(part, 0, rg, payload, 2))
  {
    hide Step, Erase, ProgrammedFlash, HostRequest, Take, Remainder, WordByteCount, Mod;
    HostCarries(part, rg, payload);
    FlashAfterRequest(part, d, HostRequest(part, 0, rg, payload), rg);
  }

  predicate HoldsAt(f: Flash, a: nat, data: seq<byte>) {
    forall i :: 0 <= i < |data| ==> ReadByte(f, a + i) == data[i]
  }

  /** The addressed range holds the payload. */
  predicate FlashRight(part: Part, d: Dfu, rg: Range, payload: seq<byte>)
    requires CanSend(part, rg, |payload|)
  {
    HoldsAt(Step(part, d, HostRequest(part, 0, rg, payload)).d.flash, FlashStart(d, rg), payload)
  }

  lemma ProgrammedReceives(f: Flash, a: nat, data: seq<byte>)
    requires Mod(|data|, 2) == 0 && a + |data| <= |f.mem|
    ensures Receives(f, a, data) <==> HoldsAt(ProgrammedFlash(Erase(f, a), a, |data|, data), a, data)
  {
    hide ProgramWords, Erase, Mod;
    var g := ProgramWords(Erase(f, a), a, a, 0, |data|, data);
    forall x | 0 <= x < |g.mem| ensures Mod(x, |g.mem|) == x {
      ModSmall(x, |g.mem|);
    }
  }

  lemma TakenRight(part: Part, d: Dfu, rg: Range, payload: seq<byte>)
    requires Accepts(part, d, rg, |payload|) && |payload| == rg.Length()
    requires FlashStart(d, rg) + |payload| <= |d.flash.mem| && Taken(part, 0, rg, payload, 2) == payload
    ensures FlashRight(part, d, rg, payload) <==> Receives(d.flash, FlashStart(d, rg), payload)
  {
    hide Step, ProgrammedFlash, Receives, HostRequest, Taken, HoldsAt, Erase, Mod;
    HostFlash(part, d, rg, payload);
    ProgrammedReceives(d.flash, FlashStart(d, rg), payload);
  }

  /** Payloads that are taken alike cannot both be right. */
  lemma NotBothRight(part: Part, d: Dfu, rg: Range, payload: seq<byte>)
    requires Accepts(part, d, rg, |payload|) && |payload| == rg.Length() && payload != []
    requires Taken(part, 0, rg, payload, 2) == Taken(part, 0, rg, OtherLast(payload), 2)
    ensures !(FlashRight(part, d, rg, payload) && FlashRight(part, d, rg, OtherLast(payload)))
  {
    hide Step, ProgrammedFlash, HostRequest, Taken, ReadByte, OtherLast, Erase, Mod;
    var other, n, a := OtherLast(payload), |payload|, FlashStart(d, rg);
    HostFlash(part, d, rg, payload);
    HostFlash(part, d, rg, other);
    var c := ReadByte(Step(part, d, HostRequest(part, 0, rg, payload)).d.flash, a + (n - 1));
    assert FlashRight(part, d, rg, payload) ==> c == payload[n - 1];
    assert FlashRight(part, d, rg, other) ==> c == other[n - 1];
  }

  /** The firmware lies in the first packet as far as it is read. */
  lemma TakenFromFirst(part: Part, rg: Range, payload: seq<byte>)
    requires CanSend(part, rg, |payload|) && Mod(|payload|, 2) == 0 && Skipped(part, rg) + |payload| <= part.epSize
    ensures Taken(part, 0, rg, payload, 2) == payload
  {
    hide Take, HostStream, Skipped, Discard, Behind, Mod, Taken, Flat;
    var s, n := Behind(HostStream(part, 0, rg, payload), part.epSize), Skipped(part, rg) - 6;
    TakenIs(part, 0, rg, payload, 2);
    BehindExact(HostStream(part, 0, rg, payload), part.epSize);
    DiscardInBank(s, n);
    var t := s.(bank := s.bank[n..]);
    TakeFromBank(t, |payload|);
    StreamParts(part, 0, rg, payload);
    assert t.bank[..|payload|] == Pending(s)[n..][..|payload|];
    assert Pending(s)[n..] == HostStream(part, 0, rg, payload)[Skipped(part, rg)..];
  }

  lemma {:induction false} TakeFromBank(s: OutStream, m: nat)
    requires Mod(m, 2) == 0 && m <= |s.bank|
    ensures Take(s, m, 2).data == s.bank[..m]
    decreases m
  {
    if m > 0 {
      TakeFromBank(AfterUnit(s, 2), m - 2);
      assert s.bank[..m] == s.bank[..2] + s.bank[2..][..m - 2];
    }
  }

  lemma SkippedParity(part: Part, d: Dfu, rg: Range)
    requires part.epSize > 0 && Mod(part.epSize, 2) == 0
    ensures Skipped(part, rg) % 2 == FlashStart(d, rg) % 2
    ensures Mod(Skipped(part, rg), 2) == Mod(FlashStart(d, rg), 2)
  {
    hide Mod;
    var x := Mod(rg.Start(), part.epSize);
    if Mod(rg.Start(), 2) == 0 {
      EvenPlace(rg.Start(), part.epSize);
    } else {
      OddPlace(rg.Start(), part.epSize);
    }
    ModTwo(x);
    ModTwo(rg.Start());
    ModTwo(32 + x);
    ModTwo(FlashStart(d, rg));
  }

  /** When the device takes every payload as it is meant. */
  predicate TakesAll(part: Part, rg: Range) {
    && part.epSize > 0 && Skipped(part, rg) <= part.epSize
    && (Skipped(part, rg) % 2 == 0 || Skipped(part, rg) + rg.Length() <= part.epSize)
  }

  lemma TakesAllTakes(part: Part, rg: Range, payload: seq<byte>)
    requires CanSend(part, rg, |payload|) && Mod(part.epSize, 2) == 0 && |payload| == rg.Length() && TakesAll(part, rg)
    ensures Taken(part, 0, rg, payload, 2) == payload
  {
    hide Taken, Skipped, WordByteCount;
    if Skipped(part, rg) % 2 == 0 {
      ModTwo(Skipped(part, rg));
      ModTwo(16);
      TakenAsMeant(part, 0, rg, payload, 2);
    } else {
      TakenFromFirst(part, rg, payload);
    }
  }

  /** Some payload is not stored where and as the host means it. */
  lemma FlashFails(part: Part, d: Dfu, rg: Range, n: nat) returns (payload: seq<byte>)
    requires Accepts(part, d, rg, n) && Mod(part.epSize, 2) == 0 && 0 < n == rg.Length()
    requires |d.flash.buf| <= 0x100 && Holds(d.flash.buf, []) && FlashStart(d, rg) + n <= |d.flash.mem|
    requires !(StaysInPage(FlashStart(d, rg), n, |d.flash.buf|) && Skipped(part, rg) <= part.epSize)
    ensures |payload| == n && !FlashRight(part, d, rg, payload)
  {
    hide FlashRight, Receives, Taken, Skipped, StaysInPage, WordByteCount, Mod, Holds;
    SkippedParity(part, d, rg);
    if TakesAll(part, rg) {
      payload := LoopFails(d.flash, FlashStart(d, rg), n);
      TakesAllTakes(part, rg, payload);
      TakenRight(part, d, rg, payload);
    } else {
      payload := Zeros(n);
      CutByParity(part.epSize, Skipped(part, rg));
      LastByteLost(part, 0, rg, payload, 2);
      NotBothRight(part, d, rg, payload);
      if FlashRight(part, d, rg, payload) {
        payload := OtherLast(payload);
      }
    }
  }

  lemma CutByParity(ep: nat, k: nat)
    requires Mod(ep, 2) == 0
    ensures k <= ep && k % 2 == 1 ==> (ep - k) % 2 == 1
  {
    ModTwo(ep);
  }

  /** A download of a host is right for every payload if and only if the range
      starts a page or stays in one, and everything before the firmware fits the
      first packet; for packets of 32 bytes the latter means that the start is a
      multiple of 32. */
  lemma DownloadRightExactly(part: Part, d: Dfu, rg: Range, n: nat)
    requires Accepts(part, d, rg, n) && Mod(part.epSize, 2) == 0 && 0 < n == rg.Length()
    requires |d.flash.buf| <= 0x100 && Holds(d.flash.buf, []) && FlashStart(d, rg) + n <= |d.flash.mem|
    ensures (forall payload :: |payload| == n ==> FlashRight(part, d, rg, payload))
       <==> StaysInPage(FlashStart(d, rg), n, |d.flash.buf|) && Skipped(part, rg) <= part.epSize
    ensures part.epSize == 32 ==> (Skipped(part, rg) <= part.epSize <==> rg.Start() % 32 == 0)
  {
    hide FlashRight, Receives, Taken, StaysInPage, WordByteCount, Mod, Holds, Skipped;
    if StaysInPage(FlashStart(d, rg), n, |d.flash.buf|) && Skipped(part, rg) <= part.epSize {
      StaysEven(FlashStart(d, rg), n, |d.flash.buf|);
      SkippedParity(part, d, rg);
      ModTwo(FlashStart(d, rg));
      forall payload: seq<byte> | |payload| == n ensures FlashRight(part, d, rg, payload) {
        TakesAllTakes(part, rg, payload);
        StayingReceives(d.flash, FlashStart(d, rg), payload);
        TakenRight(part, d, rg, payload);
      }
    } else {
      var payload := FlashFails(part, d, rg, n);
    }
    if part.epSize == 32 {
      ModIsRemainder(rg.Start(), 32);
      SkippedIs(part, rg);
    }
  }

  lemma SkippedIs(part: Part, rg: Range)
    requires part.epSize > 0
    ensures Skipped(part, rg) == 32 + Mod(rg.Start(), part.epSize)
  {}

  lemma StaysEven(a: nat, n: nat, p: nat)
    requires p > 0 && Mod(p, 2) == 0 && StaysInPage(a, n, p)
    ensures Mod(a, 2) == 0
  {
    ModTwo(0);
    if Mod(a, 2) != 0 {
      OddPlace(a, p);
    }
  }

  /** So, for such a range and every payload, the theorems about downloads and their
      round trip speak of the payload. */
  lemma EveryPayloadDownloads(part: Part, d: Dfu, rg: Range, payload: seq<byte>)
    requires Accepts(part, d, rg, |payload|) && Mod(part.epSize, 2) == 0 && 0 < |payload| == rg.Length()
    requires |d.flash.buf| <= 0x100 && FlashStart(d, rg) + |payload| <= |d.flash.mem|
    requires StaysInPage(FlashStart(d, rg), |payload|, |d.flash.buf|) && Skipped(part, rg) <= part.epSize
    ensures var r := HostRequest(part, 0, rg, payload);
            && DownloadsRange(part, d, r, rg) && Payload(part, r, rg)[..|payload|] == payload
            && forall i :: 0 <= i < |r.packets| ==> |r.packets[i]| <= part.epSize
  {
    hide StaysInPage, Taken, Skipped, Mod, HostRequest, HostStream, Remainder, Take, PaddedPending, WordByteCount;
    var r := HostRequest(part, 0, rg, payload);
    StaysEven(FlashStart(d, rg), |payload|, |d.flash.buf|);
    SkippedParity(part, d, rg);
    ModTwo(FlashStart(d, rg));
    TakesAllTakes(part, rg, payload);
    HostCarries(part, rg, payload);
    HostPackets(part, rg, payload);
    TakenIsPayload(part, rg, payload);
  }

  lemma HostPackets(part: Part, rg: Range, payload: seq<byte>)
    requires CanSend(part, rg, |payload|)
    ensures var r := HostRequest(part, 0, rg, payload);
            forall i :: 0 <= i < |r.packets| ==> |r.packets[i]| <= part.epSize
  {
    hide HostStream, Chunks;
    ChunksCarry(HostStream(part, 0, rg, payload), part.epSize);
  }

  lemma TakenIsPayload(part: Part, rg: Range, payload: seq<byte>)
    requires CanSend(part, rg, |payload|) && Mod(|payload|, 2) == 0 && Taken(part, 0, rg, payload, 2) == payload
    ensures var r := HostRequest(part, 0, rg, payload);
            && r.packets != [] && |r.packets[0]| >= 6
            && |payload| <= |Payload(part, r, rg)| && Payload(part, r, rg)[..|payload|] == payload
  {
    hide HostRequest, Take, PaddedPending, Remainder, Mod, HostStream, Skipped;
    RequestParts(part, 0, rg, payload);
    TakePadded(Remainder(part, HostRequest(part, 0, rg, payload), rg), |payload|, 2);
  }

  // ---- EEPROM ----

  predicate EepromRight(part: Part, d: Dfu, rg: Range, payload: seq<byte>)
    requires CanSend(part, rg, |payload|)
  {
    var e := Step(part, d, HostRequest(part, PROG_EEPROM, rg, payload)).d.eeprom;
    forall i :: 0 <= i < |payload| ==> e[Mod(rg.Start() + i, |e|)] == payload[i]
  }

  lemma HostCarriesEeprom(part: Part, rg: Range, payload: seq<byte>)
    requires CanSend(part, rg, |payload|)
    ensures var r := HostRequest(part, PROG_EEPROM, rg, payload);
            CarriesEeprom(r, COMMAND_PROG_START, PROG_EEPROM, rg) && r.wLength != 6
  {
    hide HostStream, Skipped, Chunks, Behind, Flat;
    RequestParts(part, PROG_EEPROM, rg, payload);
  }

  lemma HostEeprom(part: Part, d: Dfu, rg: Range, payload: seq<byte>)
    requires Accepts(part, d, rg, |payload|) && |payload| == ByteCount(rg.Start(), rg.End()) && Mod(|payload|, 1) == 0
    ensures Step(part, d, HostRequest(part, PROG_EEPROM, rg, payload)).d.eeprom
         == EepromWrite(d.eeprom, rg.Start(), Taken(part, PROG_EEPROM, rg, payload, 1))
  {
    hide Step, EepromWrite, HostRequest, Take, Discard, ByteCount, Mod;
    var r := HostRequest(part, PROG_EEPROM, rg, payload);
    HostCarriesEeprom(part, rg, payload);
    DownloadReachesEeprom(part, d, r, rg);
    assert Download(part, Started(d, COMMAND_PROG_START, PROG_EEPROM, r, rg, DfuDnloadIdle),
                    OutStream(r.packets[0][6..], r.packets[1..])).eeprom
        == EepromWrite(d.eeprom, rg.Start(), Taken(part, PROG_EEPROM, rg, payload, 1));
  }

  lemma EepromTakenRight(part: Part, d: Dfu, rg: Range, payload: seq<byte>)
    requires Accepts(part, d, rg, |payload|) && |payload| == ByteCount(rg.Start(), rg.End()) && Mod(|payload|, 1) == 0
    requires |payload| <= |d.eeprom| && rg.Start() + |payload| <= 0x1_0000
    requires Taken(part, PROG_EEPROM, rg, payload, 1) == payload
    ensures EepromRight(part, d, rg, payload)
  {
    hide Step, EepromWrite, HostRequest, Taken, ByteCount, Mod;
    HostEeprom(part, d, rg, payload);
    forall i | 0 <= i < |payload|
      ensures EepromWrite(d.eeprom, rg.Start(), payload)[Mod(rg.Start() + i, |d.eeprom|)] == payload[i]
    {
      EepromWriteAt(d.eeprom, rg.Start(), payload, i);
    }
  }

  lemma NotBothStored(part: Part, d: Dfu, rg: Range, payload: seq<byte>)
    requires Accepts(part, d, rg, |payload|) && |payload| == ByteCount(rg.Start(), rg.End()) && Mod(|payload|, 1) == 0
    requires payload != [] && Taken(part, PROG_EEPROM, rg, payload, 1) == Taken(part, PROG_EEPROM, rg, OtherLast(payload), 1)
    ensures !(EepromRight(part, d, rg, payload) && EepromRight(part, d, rg, OtherLast(payload)))
  {
    hide Step, EepromWrite, HostRequest, Taken, OtherLast, ByteCount, Mod;
    var other, n := OtherLast(payload), |payload|;
    HostEeprom(part, d, rg, payload);
    HostEeprom(part, d, rg, other);
    var e := Step(part, d, HostRequest(part, PROG_EEPROM, rg, payload)).d.eeprom;
    var c := e[Mod(rg.Start() + (n - 1), |e|)];
    assert EepromRight(part, d, rg, payload) ==> c == payload[n - 1];
    assert EepromRight(part, d, rg, other) ==> c == other[n - 1];
  }

  /** A download to a range of EEPROM is right for every payload if and only if
      everything before the data fits the first packet. */
  lemma EepromRightExactly(part: Part, d: Dfu, rg: Range, n: nat)
    requires Accepts(part, d, rg, n) && 0 < n == ByteCount(rg.Start(), rg.End())
    requires n <= |d.eeprom| && rg.Start() + n <= 0x1_0000
    ensures (forall payload :: |payload| == n ==> EepromRight(part, d, rg, payload)) <==> Skipped(part, rg) <= part.epSize
    ensures part.epSize == 32 ==> (Skipped(part, rg) <= part.epSize <==> rg.Start() % 32 == 0)
  {
    hide EepromRight, Taken, ByteCount, Mod, Skipped;
    ModOne(n);
    ModOne(16);
    ModOne(part.epSize);
    ModOne(Skipped(part, rg));
    if Skipped(part, rg) <= part.epSize {
      forall payload: seq<byte> | |payload| == n ensures EepromRight(part, d, rg, payload) {
        TakenAsMeant(part, PROG_EEPROM, rg, payload, 1);
        EepromTakenRight(part, d, rg, payload);
      }
    } else {
      var payload := Zeros(n);
      LastByteLost(part, PROG_EEPROM, rg, payload, 1);
      NotBothStored(part, d, rg, payload);
    }
    if part.epSize == 32 {
      ModIsRemainder(rg.Start(), 32);
      SkippedIs(part, rg);
    }
  }

  // ---- Packets of 32 bytes ----

  /** With packets of 32 bytes the first one ends with the filler; for any other
      start than a multiple of 32 one byte too few is discarded, and the device is
      one byte behind the host. */
  lemma OneByteBehind(part: Part, kind: byte, rg: Range, payload: seq<byte>, t: OutStream)
    requires CanSend(part, rg, |payload|) && part.epSize == 32 && Mod(rg.Start(), 32) > 0
    requires t == Discard(Behind(HostStream(part, kind, rg, payload), 32), Skipped(part, rg) - 6)
    ensures Pending(t) == HostStream(part, kind, rg, payload)[Skipped(part, rg) - 1..]
    ensures |t.bank| + Skipped(part, rg) - 33 == if |HostStream(part, kind, rg, payload)| <= 64
                                                 then |HostStream(part, kind, rg, payload)| - 32 else 32
    ensures forall i :: 0 <= i < |t.rest| ==> t.rest[i] != []
  {
    hide Mod, HostStream, Discard, Chunks, Pending;
    var h, k := HostStream(part, kind, rg, payload), Mod(rg.Start(), 32);
    var s := Behind(h, 32);
    BehindExact(h, 32);
    TwoPackets(h);
    DiscardSum(s, 26, k);
    DiscardInBank(s, 26);
    var empty := s.(bank := []);
    assert s.bank[26..] == [];
    DiscardFetches(empty, k);
    DiscardInBank(NextBank(empty), k - 1);
    PendingShift(s, t, h, k);
  }

  lemma PendingShift(s: OutStream, t: OutStream, h: seq<byte>, k: nat)
    requires |s.bank| == 26 && s.rest != [] && 0 < k <= |s.rest[0]| + 1 && |h| >= 6 && Pending(s) == h[6..]
    requires t == OutStream(s.rest[0][k - 1..], s.rest[1..])
    ensures |h| >= 31 + k && Pending(t) == h[31 + k..]
  {
    assert Pending(s) == s.bank + (s.rest[0] + Flat(s.rest[1..]));
    assert Pending(t) == Pending(s)[25 + k..];
  }

  lemma DiscardFetches(s: OutStream, k: nat)
    requires s.bank == [] && s.rest != [] && k > 0
    ensures Discard(s, k) == Discard(NextBank(s), k - 1)
  {}

  /** Data of more than 32 bytes: the lengths of the first two packets. */
  lemma TwoPackets(h: seq<byte>)
    requires |h| > 32
    ensures var c := Chunks(h, 32);
            && |c| >= 2 && |c[0]| == 32 && |c[1]| == (if |h| <= 64 then |h| - 32 else 32)
            && forall i :: 0 <= i < |c| ==> c[i] != []
  {
    ChunksCarry(h, 32);
    assert Chunks(h, 32) == [h[..32]] + Chunks(h[32..], 32);
  }

  /** So every EEPROM range that does not start at a multiple of 32 receives a filler
      byte and the data one cell too far. */
  lemma EepromStoredShifted(part: Part, d: Dfu, rg: Range, payload: seq<byte>)
    requires Accepts(part, d, rg, |payload|) && 0 < |payload| == ByteCount(rg.Start(), rg.End())
    requires part.epSize == 32 && rg.Start() % 32 != 0
    ensures Step(part, d, HostRequest(part, PROG_EEPROM, rg, payload)).d.eeprom
         == EepromWrite(d.eeprom, rg.Start(), [0] + payload[..|payload| - 1])
  {
    hide Step, EepromWrite, Mod, HostStream, HostRequest, Taken, Take, Discard, ByteCount, Behind, Chunks, PaddedPending;
    ModOne(|payload|);
    ModIsRemainder(rg.Start(), 32);
    SkippedIs(part, rg);
    HostEeprom(part, d, rg, payload);
    TakenIs(part, PROG_EEPROM, rg, payload, 1);
    var t := Discard(Behind(HostStream(part, PROG_EEPROM, rg, payload), 32), Skipped(part, rg) - 6);
    OneByteBehind(part, PROG_EEPROM, rg, payload, t);
    UnitsOfOne(t);
    PendingLength(t, 1);
    TakePadded(t, |payload|, 1);
    StreamParts(part, PROG_EEPROM, rg, payload);
    assert ([0] + payload)[..|payload|] == [0] + payload[..|payload| - 1];
  }

  lemma UnitsOfOne(s: OutStream)
    requires forall i :: 0 <= i < |s.rest| ==> s.rest[i] != []
    ensures Mod(|s.bank|, 1) == 0 && WholeUnits(s.rest, 1)
  {
    ModOne(|s.bank|);
    forall i | 0 <= i < |s.rest| ensures Mod(|s.rest[i]|, 1) == 0 {
      ModOne(|s.rest[i]|);
    }
  }

  /** For instance cells 1 to 4. */
  lemma EepromFailingInput(part: Part, d: Dfu)
    requires !d.waitForExit && !d.isSecure && part.epSize == 32
    ensures CanSend(part, Range(0, 1, 0, 4), 4)
    ensures Step(part, d, HostRequest(part, PROG_EEPROM, Range(0, 1, 0, 4), [1, 2, 3, 4])).d.eeprom
         == EepromWrite(d.eeprom, 1, [0, 1, 2, 3])
  {
    hide Step, EepromWrite, HostRequest, Mod;
    var payload: seq<byte> := [1, 2, 3, 4];
    EepromStoredShifted(part, d, Range(0, 1, 0, 4), payload);
    assert [0] + payload[..3] == [0, 1, 2, 3];
  }

  /** And a flash range that lies in the second packet from its start on. */
  lemma FlashStoredShifted(part: Part, d: Dfu, rg: Range, payload: seq<byte>)
    requires Accepts(part, d, rg, |payload|) && 0 < |payload| == rg.Length()
    requires part.epSize == 32 && rg.Start() % 32 != 0 && rg.Start() % 32 + |payload| <= 33
    requires |d.flash.buf| <= 0x100 && Holds(d.flash.buf, []) && FlashStart(d, rg) + |payload| <= |d.flash.mem|
    requires StaysInPage(FlashStart(d, rg), |payload|, |d.flash.buf|)
    ensures Step(part, d, HostRequest(part, 0, rg, payload)).d.flash
         == DownloadedFlash(d.flash, FlashStart(d, rg), [0] + payload[..|payload| - 1])
  {
    hide Step, Mod, HostStream, HostRequest, Taken, Take, Discard, WordByteCount, Behind, Chunks, DownloadedFlash,
         StaysInPage, Holds, ProgramWords, Erase, RwwEnable, Pending, Remainder;
    ModIsRemainder(rg.Start(), 32);
    SkippedIs(part, rg);
    HostFlash(part, d, rg, payload);
    TakenIs(part, 0, rg, payload, 2);
    var h := HostStream(part, 0, rg, payload);
    var t := Discard(Behind(h, 32), Skipped(part, rg) - 6);
    OneByteBehind(part, 0, rg, payload, t);
    TwoPackets(h);
    TakeFromBank(t, |payload|);
    BankIsFront(t, |payload|);
    StreamParts(part, 0, rg, payload);
    var data := [0] + payload[..|payload| - 1];
    assert ([0] + payload)[..|payload|] == data;
    ProgramErased(d.flash, FlashStart(d, rg), data);
    BufferIsEmpty(d.flash, FlashStart(d, rg), data);
  }

  lemma BankIsFront(s: OutStream, m: nat)
    requires m <= |s.bank|
    ensures m <= |Pending(s)| && s.bank[..m] == Pending(s)[..m]
  {}

  lemma FourBytes()
    ensures WordByteCount(2, 5) == 4
  {
    hide Mod;
    assert ByteCount(2, 5) == 4;
    ModTwo(4);
  }

  lemma FourStay()
    ensures StaysInPage(2, 4, 128)
  {
    hide Mod;
    ModTwo(2);
    ModSmall(2, 128);
  }

  lemma FailingRange(d: Dfu)
    requires d.flash64KBPage == 0
    ensures var rg := Range(0, 2, 0, 5); rg.Start() == 2 && rg.Length() == 4 && FlashStart(d, rg) == 2
  {
    hide WordByteCount;
    FourBytes();
  }

  lemma PageFits(f: Flash)
    ensures |f.buf| <= |f.mem|
  {
    ModSmall(0, |f.buf|);
    ModRoom(0, |f.mem|, |f.buf|);
  }

  /** For instance bytes 2 to 5 of a page of 128. */
  lemma FlashFailingInput(part: Part, d: Dfu)
    requires !d.waitForExit && !d.isSecure && part.epSize == 32 && d.flash64KBPage == 0
    requires |d.flash.buf| == 128 && Holds(d.flash.buf, [])
    ensures CanSend(part, Range(0, 2, 0, 5), 4) && StaysInPage(2, 4, 128)
    ensures Step(part, d, HostRequest(part, 0, Range(0, 2, 0, 5), [1, 2, 3, 4])).d.flash
         == DownloadedFlash(d.flash, 2, [0, 1, 2, 3])
  {
    hide Step, HostRequest, DownloadedFlash, Holds, Mod, StaysInPage, FlashStart, WordByteCount, Word, Skipped;
    var payload: seq<byte> := [1, 2, 3, 4];
    PageFits(d.flash);
    FailingRange(d);
    FourStay();
    FlashStoredShifted(part, d, Range(0, 2, 0, 5), payload);
    assert [0] + payload[..3] == [0, 1, 2, 3];
  }
}
