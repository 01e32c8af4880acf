/** The page operations of a flash download, in the order in which the DFU boot
    loader issues them. */
module DfuPageOps {
  import opened Bytes
  import opened FlashMemory
  import opened UsbEndpoint
  import opened DfuSpec
  import opened DfuMemory

  /** boot_page_erase, boot_page_fill and boot_page_write. */
  datatype PageOp = EraseOp(a: nat) | FillOp(a: nat, lo: byte, hi: byte) | WriteOp(a: nat)

  function Apply(f: Flash, op: PageOp): (g: Flash)
    ensures |g.buf| == |f.buf|
  {
    match op
    case EraseOp(a) => Erase(f, a)
    case FillOp(a, lo, hi) => Fill(f, a, lo, hi)
    case WriteOp(a) => WritePage(f, a)
  }

  function ApplyAll(f: Flash, ops: seq<PageOp>): Flash
    decreases |ops|
  {
    if ops == [] then f else ApplyAll(Apply(f, ops[0]), ops[1..])
  }

  /** The operations of the programming loop, for pages of p bytes. */
  function LoopOps(p: nat, a: nat, ps: nat, k: nat, m: nat, data: seq<byte>): seq<PageOp>
    requires Mod(|data|, 2) == 0 && |data| <= m
    decreases |data|
  {
    if data == [] then []
    else
      var k' := if k + 2 == 0x200 then 0 else k + 2;
      [FillOp(a, data[0], data[1])]
      + if m == 2 then [WriteOp(ps)]
        else if k' == p then [WriteOp(ps), EraseOp(a + 2)] + LoopOps(p, a + 2, a + 2, 0, m - 2, data[2..])
        else LoopOps(p, a + 2, ps, k', m - 2, data[2..])
  }

  lemma {:induction false} ApplyAppend(f: Flash, a: seq<PageOp>, b: seq<PageOp>)
    ensures ApplyAll(f, a + b) == ApplyAll(ApplyAll(f, a), b)
    decreases |a|
  {
    hide Apply;
    if a == [] {
      assert a + b == b;
    } else {
      ApplyAppend(Apply(f, a[0]), a[1..], b);
      assert (a + b)[1..] == a[1..] + b;
    }
  }

  lemma ApplyOne(f: Flash, op: PageOp)
    ensures ApplyAll(f, [op]) == Apply(f, op)
  {
    hide Apply;
    assert ApplyAll(f, [op]) == ApplyAll(Apply(f, op), []);
  }

  lemma ApplyTwo(f: Flash, a: PageOp, b: PageOp)
    ensures ApplyAll(f, [a, b]) == Apply(Apply(f, a), b)
  {
    hide Apply;
    assert [a, b] == [a] + [b];
    ApplyAppend(f, [a], [b]);
    ApplyOne(f, a);
    ApplyOne(Apply(f, a), b);
  }

  /** They are what the loop does. */
  lemma {:induction false} LoopIsOps(f: Flash, a: nat, ps: nat, k: nat, m: nat, data: seq<byte>)
    requires Mod(|data|, 2) == 0 && |data| <= m
    ensures ApplyAll(f, LoopOps(|f.buf|, a, ps, k, m, data)) == ProgramWords(f, a, ps, k, m, data)
    decreases |data|
  {
    hide Erase, Fill, WritePage, ApplyAll;
    if data == [] {
      assert ApplyAll(f, []) == f by { ApplyNone(f); }
    } else {
      var g, p := Fill(f, a, data[0], data[1]), |f.buf|;
      var fill := [FillOp(a, data[0], data[1])];
      var k' := if k + 2 == 0x200 then 0 else k + 2;
      ApplyOne(f, fill[0]);
      if m == 2 {
        ApplyAppend(f, fill, [WriteOp(ps)]);
        ApplyOne(g, WriteOp(ps));
      } else if k' == p {
        var turn := [WriteOp(ps), EraseOp(a + 2)];
        var rest := LoopOps(p, a + 2, a + 2, 0, m - 2, data[2..]);
        ApplyAppend(f, fill, turn + rest);
        ApplyAppend(g, turn, rest);
        ApplyTwo(g, turn[0], turn[1]);
        LoopIsOps(Erase(WritePage(g, ps), a + 2), a + 2, a + 2, 0, m - 2, data[2..]);
      } else {
        ApplyAppend(f, fill, LoopOps(p, a + 2, ps, k', m - 2, data[2..]));
        LoopIsOps(g, a + 2, ps, k', m - 2, data[2..]);
      }
    }
  }

  lemma ApplyNone(f: Flash)
    ensures ApplyAll(f, []) == f
  {}

  // ---- Erase before write ----

  /** The write at position i comes after an erase of its page, with nothing but
      fills between. */
  predicate ErasedBefore(ops: seq<PageOp>, i: nat)
    requires i < |ops| && ops[i].WriteOp?
  {
    exists j :: 0 <= j < i && ops[j] == EraseOp(ops[i].a) && OnlyFills(ops, j + 1, i)
  }

  predicate OnlyFills(ops: seq<PageOp>, from: nat, to: nat)
    requires to <= |ops|
  {
    forall k :: from <= k < to ==> ops[k].FillOp?
  }

  predicate EraseBeforeWrite(ops: seq<PageOp>) {
    forall i :: 0 <= i < |ops| && ops[i].WriteOp? ==> ErasedBefore(ops, i)
  }

  lemma EraseBeforeWriteAppend(a: seq<PageOp>, b: seq<PageOp>)
    requires EraseBeforeWrite(a) && EraseBeforeWrite(b)
    ensures EraseBeforeWrite(a + b)
  {
    var c := a + b;
    forall i | 0 <= i < |c| && c[i].WriteOp? ensures ErasedBefore(c, i) {
      if i < |a| {
        assert ErasedBefore(a, i);
        var j :| 0 <= j < i && a[j] == EraseOp(a[i].a) && OnlyFills(a, j + 1, i);
        assert c[j] == a[j] && OnlyFills(c, j + 1, i);
      } else {
        assert ErasedBefore(b, i - |a|);
        var j :| 0 <= j < i - |a| && b[j] == EraseOp(b[i - |a|].a) && OnlyFills(b, j + 1, i - |a|);
        ShiftFills(a, b, j + 1, i - |a|);
        assert c[|a| + j] == b[j];
      }
    }
  }

  lemma ShiftFills(a: seq<PageOp>, b: seq<PageOp>, from: nat, to: nat)
    requires to <= |b| && OnlyFills(b, from, to)
    ensures OnlyFills(a + b, |a| + from, |a| + to)
  {
    forall k | |a| + from <= k < |a| + to ensures (a + b)[k].FillOp? {
      assert (a + b)[k] == b[k - |a|];
    }
  }

  lemma PageWritten(ps: nat, fills: seq<PageOp>)
    requires OnlyFills(fills, 0, |fills|)
    ensures EraseBeforeWrite([EraseOp(ps)] + fills + [WriteOp(ps)])
  {
    var ops := [EraseOp(ps)] + fills + [WriteOp(ps)];
    var last := |ops| - 1;
    forall k | 1 <= k < last ensures ops[k].FillOp? {
      assert ops[k] == fills[k - 1];
    }
    assert ops[0] == EraseOp(ps) && OnlyFills(ops, 0 + 1, last);
    assert ErasedBefore(ops, last);
  }

  lemma OnlyErased(ps: nat, fills: seq<PageOp>)
    requires OnlyFills(fills, 0, |fills|)
    ensures EraseBeforeWrite([EraseOp(ps)] + fills + [])
  {
    var ops := [EraseOp(ps)] + fills + [];
    forall i | 0 <= i < |ops| ensures !ops[i].WriteOp? {
      if i > 0 {
        assert ops[i] == fills[i - 1];
      }
    }
  }

  lemma Regroup(a: seq<PageOp>, fills: seq<PageOp>, fill: PageOp, rest: seq<PageOp>)
    ensures a + fills + ([fill] + rest) == a + (fills + [fill]) + rest
  {}

  lemma RegroupTurn(a: seq<PageOp>, w: PageOp, e: PageOp, rest: seq<PageOp>)
    ensures a + ([w, e] + rest) == (a + [w]) + ([e] + [] + rest)
  {}

  lemma MoreFills(fills: seq<PageOp>, fill: PageOp)
    requires OnlyFills(fills, 0, |fills|) && fill.FillOp?
    ensures OnlyFills(fills + [fill], 0, |fills + [fill]|)
  {}

  /** From the erase of a page on, the loop writes only pages it has just erased. */
  lemma {:induction false} LoopErases(p: nat, a: nat, ps: nat, k: nat, m: nat, data: seq<byte>, fills: seq<PageOp>)
    requires Mod(|data|, 2) == 0 && |data| <= m && OnlyFills(fills, 0, |fills|)
    ensures EraseBeforeWrite([EraseOp(ps)] + fills + LoopOps(p, a, ps, k, m, data))
    decreases |data|
  {
    hide EraseBeforeWrite, OnlyFills;
    if data == [] {
      OnlyErased(ps, fills);
    } else {
      var fill, erase := FillOp(a, data[0], data[1]), [EraseOp(ps)];
      var more := fills + [fill];
      MoreFills(fills, fill);
      var k' := if k + 2 == 0x200 then 0 else k + 2;
      if m == 2 {
        PageWritten(ps, more);
        Regroup(erase, fills, fill, [WriteOp(ps)]);
      } else if k' == p {
        NextPageErases(p, a, ps, m, data, fills);
      } else {
        LoopErases(p, a + 2, ps, k', m - 2, data[2..], more);
        Regroup(erase, fills, fill, LoopOps(p, a + 2, ps, k', m - 2, data[2..]));
      }
    }
  }

  lemma {:induction false} NextPageErases(p: nat, a: nat, ps: nat, m: nat, data: seq<byte>, fills: seq<PageOp>)
    requires Mod(|data|, 2) == 0 && 2 <= |data| <= m && m > 2 && OnlyFills(fills, 0, |fills|)
    ensures EraseBeforeWrite([EraseOp(ps)] + fills
                             + ([FillOp(a, data[0], data[1])]
                                + ([WriteOp(ps), EraseOp(a + 2)] + LoopOps(p, a + 2, a + 2, 0, m - 2, data[2..]))))
    decreases |data| - 1
  {
    hide EraseBeforeWrite, OnlyFills, LoopOps;
    var fill, erase := FillOp(a, data[0], data[1]), [EraseOp(ps)];
    var rest := LoopOps(p, a + 2, a + 2, 0, m - 2, data[2..]);
    var more := fills + [fill];
    MoreFills(fills, fill);
    PageWritten(ps, more);
    assert OnlyFills([], 0, 0) by { NoFills(); }
    LoopErases(p, a + 2, a + 2, 0, m - 2, data[2..], []);
    EraseBeforeWriteAppend(erase + more + [WriteOp(ps)], [EraseOp(a + 2)] + [] + rest);
    Regroup(erase, fills, fill, [WriteOp(ps), EraseOp(a + 2)] + rest);
    RegroupTurn(erase + more, WriteOp(ps), EraseOp(a + 2), rest);
  }

  lemma NoFills()
    ensures OnlyFills([], 0, 0)
  {}

  // ---- A whole download ----

  /** The erase by the command, and then the loop on what it gets of n bytes. */
  function DownloadOps(p: nat, a: nat, n: nat, data: seq<byte>): seq<PageOp>
    requires Mod(|data|, 2) == 0 && |data| <= n
  {
    [EraseOp(a)] + LoopOps(p, a, a, 0, n, data)
  }

  lemma OpsAreProgrammed(f: Flash, a: nat, n: nat, data: seq<byte>)
    requires Mod(|data|, 2) == 0 && |data| <= n
    ensures var g := ApplyAll(f, DownloadOps(|f.buf|, a, n, data));
            ProgrammedFlash(Erase(f, a), a, n, data) == if |data| == n then RwwEnable(g) else g
  {
    hide Erase, ProgramWords, RwwEnable, Mod, LoopOps, ApplyAll;
    ApplyAppend(f, [EraseOp(a)], LoopOps(|f.buf|, a, a, 0, n, data));
    ApplyOne(f, EraseOp(a));
    LoopIsOps(Erase(f, a), a, a, 0, n, data);
  }

  lemma OpsErase(p: nat, a: nat, n: nat, data: seq<byte>)
    requires Mod(|data|, 2) == 0 && |data| <= n
    ensures EraseBeforeWrite(DownloadOps(p, a, n, data))
  {
    hide EraseBeforeWrite, LoopOps, Mod;
    LoopErases(p, a, a, 0, n, data, []);
    assert [EraseOp(a)] + [] == [EraseOp(a)];
  }

  /** Every download to flash, whatever its range, its packets and where it ends: the
      flash is the outcome of a sequence of page operations, in which every write of
      a page comes after an erase of that page with nothing but fills between. */
  lemma DownloadErasesBeforeWrite(part: Part, d: Dfu, r: Request, rg: Range) returns (data: seq<byte>)
    requires part.epSize > 0 && !d.waitForExit && !d.isSecure
    requires CarriesRange(r, COMMAND_PROG_START, rg) && r.wLength != 6
    ensures Mod(|data|, 2) == 0 && |data| <= rg.Length()
    ensures data == Take(Remainder(part, r, rg), rg.Length(), 2).data
    ensures var ops := DownloadOps(|d.flash.buf|, rg.Start() + 0x1_0000 * d.flash64KBPage, rg.Length(), data);
            var g := ApplyAll(d.flash, ops);
            && EraseBeforeWrite(ops)
            && Step(part, d, r).d.flash == if |data| == rg.Length() then RwwEnable(g) else g
  {
    hide Step, Erase, RwwEnable, Take, Remainder, WordByteCount, Mod, EraseBeforeWrite, DownloadOps, ApplyAll,
         ProgrammedFlash;
    var a := rg.Start() + 0x1_0000 * d.flash64KBPage;
    data := Take(Remainder(part, r, rg), rg.Length(), 2).data;
    FlashAfterRequest(part, d, r, rg);
    OpsErase(|d.flash.buf|, a, rg.Length(), data);
    OpsAreProgrammed(d.flash, a, rg.Length(), data);
  }
}
