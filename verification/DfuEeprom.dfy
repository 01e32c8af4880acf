/** EEPROM over the DFU boot loader: what a download, a DISP_DATA command and an
    UPLOAD of an EEPROM range do together. */
module DfuEeprom {
  import opened Bytes
  import opened UsbEndpoint
  import opened DfuSpec
  import opened DfuMemory

  // ---- Cells ----

  /** Cell x is none of those that n addresses from a on select. */
  predicate Outside(a: nat, n: nat, size: nat, x: nat)
    requires size > 0
  {
    forall k: nat :: a <= k < a + n ==> Mod(k, size) != x
  }

  /** A cell that a write does not address keeps its value. */
  lemma {:induction false} EepromUntouched(e: Eeprom, a: word, data: seq<byte>, x: nat)
    requires x < |e| && a + |data| <= 0x1_0000
    requires Outside(a, |data|, |e|, x)
    ensures EepromWrite(e, a, data)[x] == e[x]
    decreases |data|
  {
    hide Mod;
    if |data| == 1 {
      assert data[1..] == [] && Mod(a, |e|) != x;
    } else if data != [] {
      assert Mod(a, |e|) != x;
      EepromUntouched(e[Mod(a, |e|) := data[0]], Add16(a, 1), data[1..], x);
    }
  }

  lemma {:induction false} EepromWriteAt(e: Eeprom, a: word, data: seq<byte>, i: nat)
    requires i < |data| <= |e| && a + |data| <= 0x1_0000
    ensures EepromWrite(e, a, data)[Mod(a + i, |e|)] == data[i]
    decreases |data|
  {
    hide Mod;
    var g := e[Mod(a, |e|) := data[0]];
    if |data| == 1 {
      assert data[1..] == [];
    } else if i > 0 {
      EepromWriteAt(g, Add16(a, 1), data[1..], i - 1);
    } else {
      forall k: nat | a + 1 <= k < a + |data| ensures Mod(k, |g|) != Mod(a, |e|) {
        ModDistinct(a, k, |e|);
      }
      EepromUntouched(g, Add16(a, 1), data[1..], Mod(a, |e|));
    }
  }

  lemma SliceOfWritten(e: Eeprom, a: word, data: seq<byte>)
    requires |data| <= |e| && |data| < 0x1_0000 && a + |data| <= 0x1_0000
    ensures EepromSlice(EepromWrite(e, a, data), a, |data|) == data
  {
    hide EepromWrite, Mod;
    forall i | 0 <= i < |data|
      ensures EepromSlice(EepromWrite(e, a, data), a, |data|)[i] == data[i]
    {
      EepromWriteAt(e, a, data, i);
    }
  }

  // ---- Requests ----

  /** The first parameter of the commands for EEPROM. */
  const PROG_EEPROM: byte := 1
  const DISP_EEPROM: byte := 2

  /** A DNLOAD request that carries a command for a range of EEPROM. */
  predicate CarriesEeprom(r: Request, code: byte, kind: byte, rg: Range) {
    && IsDnload(r) && r.wLength > 0
    && r.packets != [] && |r.packets[0]| >= 6
    && r.packets[0][0] == code && r.packets[0][1..6] == rg.ParamsFor(kind)
  }

  function Decoded(code: byte, kind: byte, r: Request, rg: Range): Command {
    Command(code, rg.ParamsFor(kind), Sub16(r.wLength, 6))
  }

  lemma CommandLoads(c: Command, code: byte, kind: byte, r: Request, rg: Range)
    requires CarriesEeprom(r, code, kind, rg) && c.size == r.wLength
    ensures LoadCommand(c, OutStream(r.packets[0], r.packets[1..])) == Decoded(code, kind, r, rg)
    ensures ParamsInBank(OutStream(r.packets[0], r.packets[1..])) == 5
  {}

  /** A request that downloads to a range of EEPROM, with every byte present. */
  predicate DownloadsEeprom(part: Part, r: Request, rg: Range) {
    && part.epSize > 0
    && CarriesEeprom(r, COMMAND_PROG_START, PROG_EEPROM, rg) && r.wLength != 6
    && ByteCount(rg.Start(), rg.End()) <= |EepromPayload(part, r, rg)|
  }

  /** The data as the device reads them, byte by byte. DfuHost says when these are the
      bytes the host means. */
  function EepromPayload(part: Part, r: Request, rg: Range): seq<byte>
    requires part.epSize > 0 && r.packets != [] && |r.packets[0]| >= 6
  {
    PaddedPending(Remainder(part, r, rg), 1)
  }

  function Started(d: Dfu, code: byte, kind: byte, r: Request, rg: Range, state: State): Dfu {
    d.(cmd := Decoded(code, kind, r, rg), startAddr := rg.Start(), endAddr := rg.End(), state := state)
  }

  lemma DownloadReachesEeprom(part: Part, d: Dfu, r: Request, rg: Range)
    requires part.epSize > 0 && !d.waitForExit && !d.isSecure
    requires CarriesEeprom(r, COMMAND_PROG_START, PROG_EEPROM, rg) && r.wLength != 6
    ensures Step(part, d, r)
         == Effect(Download(part, Started(d, COMMAND_PROG_START, PROG_EEPROM, r, rg, DfuDnloadIdle),
                            OutStream(r.packets[0][6..], r.packets[1..])), Silent)
  {
    hide Download, LoadCommand;
    CommandLoads(d.cmd.(size := r.wLength), COMMAND_PROG_START, PROG_EEPROM, r, rg);
  }

  /** What is left after the filler is stored. */
  lemma DownloadStores(part: Part, e: Dfu, s: OutStream, t: OutStream, n: nat)
    requires part.epSize > 0 && e.cmd.data[0] == PROG_EEPROM && n == ByteCount(e.startAddr, e.endAddr)
    requires t == Discard(Discard(s, DFU_FILLER_BYTES_SIZE), Mod(e.startAddr, part.epSize))
    requires n <= |PaddedPending(t, 1)|
    ensures Download(part, e, s)
         == e.(eeprom := EepromWrite(e.eeprom, e.startAddr, PaddedPending(t, 1)[..n]), startAddr := Add16(e.startAddr, n))
  {
    hide Take, EepromWrite, ByteCount, Mod, PaddedPending, Discard;
    ModOne(n);
    TakePadded(t, n, 1);
  }

  /** A download to EEPROM stores exactly the data as the device reads them, cell
      after cell, for every packetisation, and changes nothing else but the
      variables of the transfer. */
  lemma EepromDownloadExact(part: Part, d: Dfu, r: Request, rg: Range)
    requires DownloadsEeprom(part, r, rg) && !d.waitForExit && !d.isSecure
    ensures var n := ByteCount(rg.Start(), rg.End());
            Step(part, d, r)
              == Effect(Started(d, COMMAND_PROG_START, PROG_EEPROM, r, rg, DfuDnloadIdle)
                        .(eeprom := EepromWrite(d.eeprom, rg.Start(), EepromPayload(part, r, rg)[..n]),
                          startAddr := Add16(rg.Start(), n)),
                        Silent)
  {
    hide Step, Download, EepromWrite, ByteCount, PaddedPending, Mod, Discard;
    var s := OutStream(r.packets[0][6..], r.packets[1..]);
    var e := Started(d, COMMAND_PROG_START, PROG_EEPROM, r, rg, DfuDnloadIdle);
    DownloadReachesEeprom(part, d, r, rg);
    DownloadStores(part, e, s, Remainder(part, r, rg), ByteCount(rg.Start(), rg.End()));
  }

  lemma DisplayReachesEeprom(part: Part, d: Dfu, r: Request, rg: Range)
    requires part.epSize > 0 && !d.waitForExit && !d.isSecure
    requires CarriesEeprom(r, COMMAND_DISP_DATA, DISP_EEPROM, rg)
    ensures Step(part, d, r) == Effect(Started(d, COMMAND_DISP_DATA, DISP_EEPROM, r, rg, DfuUploadIdle), Silent)
  {
    hide Download, LoadCommand;
    CommandLoads(d.cmd.(size := r.wLength), COMMAND_DISP_DATA, DISP_EEPROM, r, rg);
  }

  /** UPLOAD of an EEPROM range sends exactly its bytes and returns to dfuIDLE. */
  lemma EepromUploadExact(part: Part, d: Dfu, r: Request)
    requires part.epSize > 0 && d.state == DfuUploadIdle && d.cmd.data[0] == DISP_EEPROM
    requires IsUpload(r, ByteCount(d.startAddr, d.endAddr))
    ensures ReadsBack(part, Step(part, d, r), EepromSlice(d.eeprom, d.startAddr, ByteCount(d.startAddr, d.endAddr)))
  {
    hide Send, EepromSlice, ByteCount, Dnload, Sent, Flat, AllFull, Mod;
    var n := ByteCount(d.startAddr, d.endAddr);
    var data := EepromSlice(d.eeprom, d.startAddr, n);
    ModOne(n);
    ModOne(part.epSize);
    ModOne(0);
    SendExact(data, 1, part.epSize, [], r.ready - 1);
    SentWhole(Send(data, 1, part.epSize, [], r.ready - 1), data, part.epSize);
  }

  /** Write, then read back: a download to a range of EEPROM, a DISP_DATA of the
      same range and an UPLOAD return what the device read, for every range that
      fits the EEPROM and every packetisation. */
  lemma EepromRoundTrip(part: Part, d: Dfu, down: Request, disp: Request, up: Request, rg: Range, n: nat, d1: Dfu)
    requires DownloadsEeprom(part, down, rg) && !d.waitForExit && !d.isSecure
    requires CarriesEeprom(disp, COMMAND_DISP_DATA, DISP_EEPROM, rg) && IsUpload(up, n)
    requires n == ByteCount(rg.Start(), rg.End()) <= |d.eeprom| && rg.Start() + n <= 0x1_0000
    requires d1 == Step(part, d, down).d
    ensures ReadsBack(part, Step(part, Step(part, d1, disp).d, up), EepromPayload(part, down, rg)[..n])
    ensures |d1.eeprom| == |d.eeprom|
    ensures forall x :: 0 <= x < |d.eeprom| && Outside(rg.Start(), n, |d.eeprom|, x) ==> d1.eeprom[x] == d.eeprom[x]
  {
    hide Step, EepromWrite, EepromSlice, ByteCount, Flat, Mod, ReadsBack, PaddedPending;
    var data := EepromPayload(part, down, rg)[..n];
    EepromDownloadExact(part, d, down, rg);
    DisplayReachesEeprom(part, d1, disp, rg);
    EepromUploadExact(part, Step(part, d1, disp).d, up);
    SliceOfWritten(d.eeprom, rg.Start(), data);
    forall x | 0 <= x < |d.eeprom| && Outside(rg.Start(), n, |d.eeprom|, x)
      ensures d1.eeprom[x] == d.eeprom[x]
    {
      EepromUntouched(d.eeprom, rg.Start(), data, x);
    }
  }
}
