/** Downloads that start inside a page of flash: the programming loop of the DFU
    boot loader counts the words of a page from the start of the range, not from
    the start of the page. */
module DfuUnaligned {
  import opened Bytes
  import opened FlashMemory
  import opened DfuSpec
  import opened DfuMemory

  /** After the download the range holds the data. */
  predicate Receives(f: Flash, a: nat, data: seq<byte>)
    requires Mod(|data|, 2) == 0 && a + |data| <= |f.mem|
  {
    forall i :: 0 <= i < |data| ==> ProgramWords(Erase(f, a), a, a, 0, |data|, data).mem[a + i] == data[i]
  }

  predicate AllErased(s: seq<byte>) {
    forall i :: 0 <= i < |s| ==> s[i] == 0xFF
  }

  lemma WriteEmptyBuffer(f: Flash, a: nat, x: nat)
    requires AllErased(f.buf) && x < |f.mem|
    ensures WritePage(f, a).mem[x] == f.mem[x]
  {
    AndFull(f.mem[x]);
  }

  lemma EraseCell(f: Flash, a: nat, x: nat)
    requires x < |f.mem|
    ensures Erase(f, a).mem[x] == f.mem[x] || Erase(f, a).mem[x] == 0xFF
  {}

  /** Programming 0xFF bytes through an empty buffer changes no cell but to 0xFF. */
  lemma {:induction false} ErasedDataKeeps(f: Flash, a: nat, ps: nat, k: nat, m: nat, data: seq<byte>, x: nat)
    requires Mod(|data|, 2) == 0 && |data| <= m && x < |f.mem| && AllErased(f.buf) && AllErased(data)
    ensures var c := ProgramWords(f, a, ps, k, m, data).mem[x]; c == f.mem[x] || c == 0xFF
    decreases |data|
  {
    hide WritePage, Erase;
    if data != [] {
      var g := Fill(f, a, data[0], data[1]);
      assert AllErased(g.buf);
      var k' := if k + 2 == 0x200 then 0 else k + 2;
      WriteEmptyBuffer(g, ps, x);
      if m == 2 {
      } else if k' == |f.buf| {
        var w := WritePage(g, ps);
        EraseCell(w, a + 2, x);
        BufferEmptied(g, ps, a + 2);
        ErasedDataKeeps(Erase(w, a + 2), a + 2, a + 2, 0, m - 2, data[2..], x);
      } else {
        ErasedDataKeeps(g, a + 2, ps, k', m - 2, data[2..], x);
      }
    }
  }

  lemma BufferEmptied(f: Flash, ps: nat, a: nat)
    ensures AllErased(Erase(WritePage(f, ps), a).buf)
  {}

  lemma OtherPage(f: Flash, a: nat, x: nat)
    requires x < |f.mem| && !(PageBase(f, a) <= x < PageBase(f, a) + |f.buf|)
    ensures WritePage(f, a).mem[x] == f.mem[x] && Erase(f, a).mem[x] == f.mem[x]
  {}

  /** The words counted for the page of ps go to that page only; when what follows
      them is all 0xFF, any other cell keeps its value or is erased. */
  lemma {:induction false} FirstPageOnly(f: Flash, a: nat, ps: nat, k: nat, m: nat, data: seq<byte>, x: nat)
    requires Mod(|data|, 2) == 0 && |data| <= m && x < |f.mem| && |f.buf| <= 0x100
    requires k < |f.buf| && Mod(k, 2) == 0
    requires !(PageBase(f, ps) <= x < PageBase(f, ps) + |f.buf|)
    requires forall i :: |f.buf| - k <= i < |data| ==> data[i] == 0xFF
    ensures var c := ProgramWords(f, a, ps, k, m, data).mem[x]; c == f.mem[x] || c == 0xFF
    decreases |data|
  {
    hide WritePage, Erase;
    if data != [] {
      var g := Fill(f, a, data[0], data[1]);
      ModRoom(k, |f.buf|, 2);
      assert PageBase(g, ps) == PageBase(f, ps);
      OtherPage(g, ps, x);
      if m == 2 {
      } else if k + 2 == |f.buf| {
        var w := WritePage(g, ps);
        EraseCell(w, a + 2, x);
        BufferEmptied(g, ps, a + 2);
        assert AllErased(data[2..]);
        ErasedDataKeeps(Erase(w, a + 2), a + 2, a + 2, 0, m - 2, data[2..], x);
      } else {
        UnitsOfTwo(k);
        FirstPageOnly(g, a + 2, ps, k + 2, m - 2, data[2..], x);
      }
    }
  }

  lemma UnitsOfTwo(k: nat)
    requires Mod(k, 2) == 0
    ensures Mod(k + 2, 2) == 0
  {
    ModTwo(k);
    ModTwo(k + 2);
  }

  /** A range of whole words that leaves the page it starts in: the first byte
      beyond the page is not where it should be. */
  lemma CrossingFails(f: Flash, a: nat, n: nat) returns (data: seq<byte>)
    requires |f.buf| <= 0x100 && Mod(n, 2) == 0 && a + n <= |f.mem|
    requires Mod(a, |f.buf|) > 0 && Mod(a, |f.buf|) + n > |f.buf|
    ensures |data| == n && !Receives(f, a, data)
  {
    hide ProgramWords, Erase, PageBase, Mod;
    var p, off := |f.buf|, Mod(a, |f.buf|);
    var base, j := a - off, p - off;
    var x := base + p;
    BaseOf(f, a);
    var v: byte := if f.mem[x] == 0 then 1 else 0;
    data := seq<byte>(n, i requires 0 <= i < n => if i == j then v else 0xFF);
    OtherPage(f, a, x);
    var e := Erase(f, a);
    BaseOf(e, a);
    ModTwo(0);
    FirstPageOnly(e, a, a, 0, n, data, x);
    assert data[j] == v;
    assert ProgramWords(e, a, a, 0, n, data).mem[a + j] != data[j];
  }

  /** The cell and its place in the buffer are erased. */
  predicate ErasedPlace(f: Flash, x: nat) {
    x < |f.mem| && f.mem[x] == 0xFF && f.buf[Mod(x, |f.buf|)] == 0xFF
  }

  lemma WriteKeepsPlace(f: Flash, a: nat, x: nat)
    requires ErasedPlace(f, x)
    ensures ErasedPlace(WritePage(f, a), x)
  {
    var b := PageBase(f, a);
    if b <= x < b + |f.buf| {
      PageAbove(b, x, |f.buf|);
      AndFull(0xFF);
    }
  }

  lemma EraseKeepsPlace(f: Flash, a: nat, x: nat)
    requires ErasedPlace(f, x)
    ensures ErasedPlace(Erase(f, a), x)
  {}

  lemma {:induction false} PlaceStaysErased(f: Flash, a: nat, ps: nat, k: nat, m: nat, data: seq<byte>, x: nat)
    requires Mod(|data|, 2) == 0 && |data| <= m && ErasedPlace(f, x) && AllErased(data)
    ensures ErasedPlace(ProgramWords(f, a, ps, k, m, data), x)
    decreases |data|
  {
    hide WritePage, Erase;
    if data != [] {
      WordKeepsPlace(f, Fill(f, a, data[0], data[1]), a, ps, k, m, data, x);
    }
  }

  /** One turn of the loop, if its word leaves the place erased. */
  lemma {:induction false} WordKeepsPlace(f: Flash, g: Flash, a: nat, ps: nat, k: nat, m: nat, data: seq<byte>, x: nat)
    requires Mod(|data|, 2) == 0 && 2 <= |data| <= m && g == Fill(f, a, data[0], data[1])
    requires ErasedPlace(g, x) && AllErased(data[2..])
    ensures ErasedPlace(ProgramWords(f, a, ps, k, m, data), x)
    decreases |data| - 1
  {
    hide WritePage, Erase, ErasedPlace;
    var k' := if k + 2 == 0x200 then 0 else k + 2;
    WriteKeepsPlace(g, ps, x);
    if m == 2 {
    } else if k' == |f.buf| {
      EraseKeepsPlace(WritePage(g, ps), a + 2, x);
      PlaceStaysErased(Erase(WritePage(g, ps), a + 2), a + 2, a + 2, 0, m - 2, data[2..], x);
    } else {
      PlaceStaysErased(g, a + 2, ps, k', m - 2, data[2..], x);
    }
  }

  /** A range that starts at an odd address: its first byte ends up before it. */
  lemma OddStartFails(f: Flash, a: nat, n: nat) returns (data: seq<byte>)
    requires Holds(f.buf, []) && Mod(n, 2) == 0 && 0 < n && a + n <= |f.mem| && Mod(a, 2) != 0
    ensures |data| == n && !Receives(f, a, data)
  {
    hide ProgramWords, Erase, Fill;
    var e := Erase(f, a);
    data := seq<byte>(n, i requires 0 <= i < n => if i == 0 then 0 else 0xFF);
    ErasedHere(f, a);
    ModRoom(0, n, 2);
    var g := Fill(e, a, data[0], data[1]);
    OddFill(e, a, data[0]);
    assert AllErased(data[2..]);
    WordKeepsPlace(e, g, a, a, 0, n, data, a);
    assert ProgramWords(e, a, a, 0, n, data).mem[a + 0] != data[0];
  }

  lemma ErasedHere(f: Flash, a: nat)
    requires a < |f.mem| && Holds(f.buf, [])
    ensures ErasedPlace(Erase(f, a), a)
  {}

  lemma OddFill(f: Flash, a: nat, lo: byte)
    requires ErasedPlace(f, a) && Mod(a, 2) != 0
    ensures ErasedPlace(Fill(f, a, lo, 0xFF), a)
  {
    OddPlace(a, |f.buf|);
    ModTwo(Mod(a, |f.buf|));
  }

  lemma {:induction false} OddPlace(a: nat, p: nat)
    requires p > 0 && Mod(p, 2) == 0 && Mod(a, 2) != 0
    ensures Mod(Mod(a, p), 2) != 0
    decreases a
  {
    if a >= p {
      ModTwo(a);
      ModTwo(p);
      ModTwo(a - p);
      OddPlace(a - p, p);
    }
  }

  lemma StayingReceives(f: Flash, a: nat, data: seq<byte>)
    requires |f.buf| <= 0x100 && Holds(f.buf, []) && data != [] && Mod(|data|, 2) == 0 && a + |data| <= |f.mem|
    requires StaysInPage(a, |data|, |f.buf|)
    ensures Receives(f, a, data)
  {
    hide ProgramWords, Erase, DownloadedFlash, StaysInPage;
    ProgramErased(f, a, data);
    SliceOfProgrammed(f, a, data);
    var g := DownloadedFlash(f, a, data);
    assert |g.mem| == |f.mem| by { DownloadedSize(f, a, data); }
    forall i | 0 <= i < |data| ensures g.mem[a + i] == data[i] {
      assert FlashSlice(g, a, |data|)[i] == ReadByte(g, a + i);
      assert Mod(a + i, |g.mem|) == a + i;
    }
  }

  lemma DownloadedSize(f: Flash, a: nat, data: seq<byte>)
    ensures |DownloadedFlash(f, a, data).mem| == |f.mem|
  {}

  lemma LoopFails(f: Flash, a: nat, n: nat) returns (data: seq<byte>)
    requires |f.buf| <= 0x100 && Holds(f.buf, []) && 0 < n && Mod(n, 2) == 0 && a + n <= |f.mem|
    requires !StaysInPage(a, n, |f.buf|)
    ensures |data| == n && !Receives(f, a, data)
  {
    hide Receives;
    if Mod(a, 2) != 0 {
      data := OddStartFails(f, a, n);
    } else {
      data := CrossingFails(f, a, n);
    }
  }

  /** The programming loop, given n bytes for address a, is right for all of them if
      and only if a starts a page, or is even and the n bytes do not leave its page. */
  lemma LoopRightExactly(f: Flash, a: nat, n: nat)
    requires |f.buf| <= 0x100 && Holds(f.buf, []) && 0 < n && Mod(n, 2) == 0 && a + n <= |f.mem|
    ensures (forall data :: |data| == n ==> Receives(f, a, data)) <==> StaysInPage(a, n, |f.buf|)
  {
    hide Receives, StaysInPage;
    if StaysInPage(a, n, |f.buf|) {
      forall data: seq<byte> | |data| == n ensures Receives(f, a, data) {
        StayingReceives(f, a, data);
      }
    } else {
      var data := LoopFails(f, a, n);
    }
  }
}
