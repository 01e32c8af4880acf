/** How the DFU boot loader walks over the packets of a data stage: the discard
    loop, which spends a turn on every packet it fetches, and the effect of that
    on what is read afterwards. */
module DfuStream {
  import opened Bytes
  import opened UsbEndpoint
  import opened DfuSpec

  // ---- Discarding ----

  lemma {:induction false} DiscardSum(s: OutStream, a: nat, b: nat)
    ensures Discard(s, a + b) == Discard(Discard(s, a), b)
    decreases a
  {
    if a > 0 {
      if s.bank != [] {
        DiscardSum(s.(bank := s.bank[1..]), a - 1, b);
      } else if s.rest != [] {
        DiscardSum(NextBank(s), a - 1, b);
      }
    }
  }

  /** The bytes that n turns of the discard loop drop. */
  function Dropped(s: OutStream, n: nat): (k: nat)
    decreases n
  {
    if n == 0 then 0
    else if s.bank != [] then 1 + Dropped(s.(bank := s.bank[1..]), n - 1)
    else if s.rest == [] then 0
    else Dropped(NextBank(s), n - 1)
  }

  lemma PendingNext(s: OutStream)
    requires s.bank == [] && s.rest != []
    ensures Pending(NextBank(s)) == Pending(s)
  {}

  lemma PendingTail(s: OutStream)
    requires s.bank != []
    ensures Pending(s) != [] && Pending(s.(bank := s.bank[1..])) == Pending(s)[1..]
  {}

  /** The loop drops bytes from the front, as many as it has turns exactly if they
      are all in the current packet. */
  lemma {:induction false} DiscardDrops(s: OutStream, n: nat)
    ensures Dropped(s, n) <= n && Dropped(s, n) <= |Pending(s)|
    ensures Pending(Discard(s, n)) == Pending(s)[Dropped(s, n)..]
    ensures Dropped(s, n) == n <==> n <= |s.bank|
    decreases n
  {
    hide Pending;
    if n > 0 {
      if s.bank != [] {
        PendingTail(s);
        DiscardDrops(s.(bank := s.bank[1..]), n - 1);
      } else if s.rest != [] {
        PendingNext(s);
        DiscardDrops(NextBank(s), n - 1);
      }
    }
  }

  /** Discarding n bytes discards n bytes if and only if the packet holds them. */
  lemma DiscardExact(s: OutStream, n: nat)
    requires n <= |Pending(s)|
    ensures Pending(Discard(s, n)) == Pending(s)[n..] <==> n <= |s.bank|
  {
    hide Pending, Discard, Dropped;
    DiscardDrops(s, n);
  }

  lemma {:induction false} DiscardInBank(s: OutStream, n: nat)
    requires n <= |s.bank|
    ensures Discard(s, n) == s.(bank := s.bank[n..])
    decreases n
  {
    if n > 0 {
      DiscardInBank(s.(bank := s.bank[1..]), n - 1);
    }
  }

  // ---- What a read depends on ----

  predicate SameShape(s: OutStream, t: OutStream) {
    && |s.bank| == |t.bank| && |s.rest| == |t.rest|
    && forall i :: 0 <= i < |s.rest| ==> |s.rest[i]| == |t.rest[i]|
  }

  /** Packets of the same lengths that agree in the first j bytes. */
  predicate Alike(s: OutStream, t: OutStream, j: nat) {
    SameShape(s, t) && j <= |Pending(s)| == |Pending(t)| && Pending(s)[..j] == Pending(t)[..j]
  }

  lemma AlikeNext(s: OutStream, t: OutStream, j: nat)
    requires Alike(s, t, j) && s.bank == [] && s.rest != []
    ensures Alike(NextBank(s), NextBank(t), j)
  {
    assert Pending(NextBank(s)) == Pending(s) && Pending(NextBank(t)) == Pending(t);
  }

  /** k bytes are taken from the bank. */
  lemma AlikeAfter(s: OutStream, t: OutStream, j: nat, k: nat)
    requires Alike(s, t, j) && k <= |s.bank| && k <= j
    ensures Alike(s.(bank := s.bank[k..]), t.(bank := t.bank[k..]), j - k)
    ensures s.bank[..k] == t.bank[..k]
  {
    var u, v := s.(bank := s.bank[k..]), t.(bank := t.bank[k..]);
    assert Pending(u) == Pending(s)[k..] && Pending(v) == Pending(t)[k..];
    assert Pending(s)[..j][..k] == s.bank[..k] && Pending(t)[..j][..k] == t.bank[..k];
    assert Pending(u)[..j - k] == Pending(s)[..j][k..];
    assert Pending(v)[..j - k] == Pending(t)[..j][k..];
  }

  lemma {:induction false} DiscardAlike(s: OutStream, t: OutStream, j: nat, n: nat)
    requires Alike(s, t, j) && Dropped(s, n) <= j
    ensures Alike(Discard(s, n), Discard(t, n), j - Dropped(s, n))
    decreases n
  {
    hide Pending, Alike;
    AlikeShape(s, t, j);
    if n > 0 {
      if s.bank != [] {
        AlikeAfter(s, t, j, 1);
        DiscardAlike(s.(bank := s.bank[1..]), t.(bank := t.bank[1..]), j - 1, n - 1);
      } else if s.rest != [] {
        AlikeNext(s, t, j);
        DiscardAlike(NextBank(s), NextBank(t), j, n - 1);
      }
    }
  }

  lemma AlikeShape(s: OutStream, t: OutStream, j: nat)
    requires Alike(s, t, j)
    ensures SameShape(s, t)
  {}

  /** How many bytes a unit takes from the bank. */
  function UnitTakes(s: OutStream, k: nat): nat {
    if |s.bank| < k then |s.bank| else k
  }

  lemma UnitAlike(s: OutStream, t: OutStream, j: nat, k: nat)
    requires Alike(s, t, j) && UnitTakes(s, k) <= j
    ensures ReadUnit(s, k) == ReadUnit(t, k)
    ensures Alike(AfterUnit(s, k), AfterUnit(t, k), j - UnitTakes(s, k))
  {
    hide Alike;
    AlikeShape(s, t, j);
    var u := UnitTakes(s, k);
    AlikeAfter(s, t, j, u);
    if |s.bank| < k {
      assert s.bank[..u] == s.bank && t.bank[..u] == t.bank;
      assert s.bank[u..] == [] && t.bank[u..] == [];
    }
  }

  lemma TakeUnit(s: OutStream, b: OutStream, m: nat, k: nat)
    requires k > 0 && Mod(m, k) == 0 && m > 0 && (s.bank != [] || s.rest != [])
    requires b == if s.bank == [] then NextBank(s) else s
    ensures k <= m && Mod(m - k, k) == 0
    ensures Take(s, m, k).data == ReadUnit(b, k) + Take(AfterUnit(b, k), m - k, k).data
  {}

  /** Bytes that are read do not depend on bytes that come later; and when a unit
      of two is cut at the end of the bank, one byte fewer matters. */
  lemma {:induction false} TakeAlike(s: OutStream, t: OutStream, j: nat, m: nat, k: nat)
    requires Alike(s, t, j) && 0 < k <= 2 && Mod(m, k) == 0
    requires m <= j || (m <= j + 1 && k == 2 && |s.bank| % 2 == 1 && |s.bank| < m)
    ensures Take(s, m, k).data == Take(t, m, k).data
    decreases m
  {
    hide Alike, Pending, Take, Mod, ReadUnit, AfterUnit;
    AlikeShape(s, t, j);
    if m == 0 {
      assert Take(s, m, k).data == [] && Take(t, m, k).data == [];
    } else if s.bank != [] || s.rest != [] {
      var b, c := s, t;
      if s.bank == [] {
        AlikeNext(s, t, j);
        b, c := NextBank(s), NextBank(t);
      }
      TakeUnit(s, b, m, k);
      TakeUnit(t, c, m, k);
      UnitAlike(b, c, j, k);
      AfterBank(b, k);
      TakeAlike(AfterUnit(b, k), AfterUnit(c, k), j - UnitTakes(b, k), m - k, k);
    } else {
      TakeNothing(s, m, k);
      TakeNothing(t, m, k);
    }
  }

  lemma AfterBank(s: OutStream, k: nat)
    ensures |AfterUnit(s, k).bank| == |s.bank| - UnitTakes(s, k)
  {}

  lemma TakeNothing(s: OutStream, m: nat, k: nat)
    requires k > 0 && Mod(m, k) == 0 && s.bank == [] && s.rest == []
    ensures Take(s, m, k).data == []
  {}

  // ---- Padding ----

  lemma PadLength(p: seq<byte>, k: nat)
    requires k > 0
    ensures |Padded(p, k)| >= |p| && (|Padded(p, k)| == |p| <==> Mod(|p|, k) == 0)
  {}

  /** Reading in units adds bytes exactly if some packet is empty or no whole number
      of units. */
  lemma {:induction false} FlatLength(packets: seq<seq<byte>>, k: nat)
    requires k > 0
    ensures |PaddedFlat(packets, k)| >= |Flat(packets)|
    ensures |PaddedFlat(packets, k)| == |Flat(packets)| <==> WholeUnits(packets, k)
  {
    hide Padded;
    if packets != [] {
      PadLength(packets[0], k);
      FlatLength(packets[1..], k);
      assert WholeUnits(packets, k) <==> packets[0] != [] && Mod(|packets[0]|, k) == 0 && WholeUnits(packets[1..], k) by {
        WholeUnitsStep(packets, k);
      }
    }
  }

  lemma WholeUnitsStep(packets: seq<seq<byte>>, k: nat)
    requires k > 0 && packets != []
    ensures WholeUnits(packets, k) <==> packets[0] != [] && Mod(|packets[0]|, k) == 0 && WholeUnits(packets[1..], k)
  {
    if WholeUnits(packets[1..], k) && packets[0] != [] && Mod(|packets[0]|, k) == 0 {
      forall i | 0 <= i < |packets| ensures packets[i] != [] && Mod(|packets[i]|, k) == 0 {
        if i > 0 {
          assert packets[i] == packets[1..][i - 1];
        }
      }
    }
    if WholeUnits(packets, k) {
      forall i | 0 <= i < |packets| - 1 ensures packets[1..][i] != [] && Mod(|packets[1..][i]|, k) == 0 {
        assert packets[1..][i] == packets[i + 1];
      }
    }
  }

  lemma PendingLength(s: OutStream, k: nat)
    requires k > 0
    ensures |PaddedPending(s, k)| >= |Pending(s)|
    ensures |PaddedPending(s, k)| == |Pending(s)| <==> Mod(|s.bank|, k) == 0 && WholeUnits(s.rest, k)
    ensures |PaddedPending(s, k)| == |Pending(s)| ==> PaddedPending(s, k) == Pending(s)
  {
    hide WholeUnits;
    PadLength(s.bank, k);
    FlatLength(s.rest, k);
    if |PaddedPending(s, k)| == |Pending(s)| {
      PaddedWhole(s.rest, k);
    }
  }

  // ---- Packets of the endpoint size ----

  /** Data as the host sends them: full packets, and a last one that may be short. */
  function Chunks(data: seq<byte>, ep: nat): seq<seq<byte>>
    requires ep > 0
    decreases |data|
  {
    if data == [] then [] else if |data| <= ep then [data] else [data[..ep]] + Chunks(data[ep..], ep)
  }

  lemma {:induction false} ChunksCarry(data: seq<byte>, ep: nat)
    requires ep > 0
    ensures Flat(Chunks(data, ep)) == data
    ensures forall i :: 0 <= i < |Chunks(data, ep)| ==> 0 < |Chunks(data, ep)[i]| <= ep
    decreases |data|
  {
    if data == [] {
    } else if |data| <= ep {
      assert Flat([data]) == data + Flat([]);
    } else {
      ChunksCarry(data[ep..], ep);
      assert data == data[..ep] + data[ep..];
    }
  }

  lemma {:induction false} ChunksWhole(data: seq<byte>, ep: nat, k: nat)
    requires ep > 0 && k > 0 && Mod(ep, k) == 0 && Mod(|data|, k) == 0
    ensures WholeUnits(Chunks(data, ep), k)
    decreases |data|
  {
    if |data| > ep {
      ModOffset(ep, |data| - ep, k);
      ChunksWhole(data[ep..], ep, k);
    }
  }

  lemma {:induction false} ChunksShape(a: seq<byte>, b: seq<byte>, ep: nat)
    requires ep > 0 && |a| == |b|
    ensures |Chunks(a, ep)| == |Chunks(b, ep)|
    ensures forall i :: 0 <= i < |Chunks(a, ep)| ==> |Chunks(a, ep)[i]| == |Chunks(b, ep)[i]|
    decreases |a|
  {
    if |a| > ep {
      ChunksShape(a[ep..], b[ep..], ep);
    }
  }

  /** The stream behind the six bytes of a command at the front of such data. */
  function Behind(data: seq<byte>, ep: nat): OutStream
    requires 6 <= |data| && 6 <= ep
  {
    var c := Chunks(data, ep);
    OutStream(c[0][6..], c[1..])
  }

  lemma BehindExact(data: seq<byte>, ep: nat)
    requires 6 <= |data| && 6 <= ep
    ensures Chunks(data, ep)[0][..6] == data[..6]
    ensures Pending(Behind(data, ep)) == data[6..]
    ensures |Behind(data, ep).bank| == (if |data| <= ep then |data| else ep) - 6
  {
    var c := Chunks(data, ep);
    ChunksCarry(data, ep);
    assert Flat(c) == c[0] + Flat(c[1..]);
    assert data == c[0] + Flat(c[1..]);
    assert data[6..] == c[0][6..] + Flat(c[1..]);
  }

  lemma BehindAlike(a: seq<byte>, b: seq<byte>, ep: nat, j: nat)
    requires 6 <= |a| == |b| && 6 <= ep && 6 <= j <= |a| && a[..j] == b[..j]
    ensures Alike(Behind(a, ep), Behind(b, ep), j - 6)
  {
    hide Chunks, Flat;
    BehindExact(a, ep);
    BehindExact(b, ep);
    ChunksShape(a, b, ep);
    assert a[6..][..j - 6] == a[..j][6..] && b[6..][..j - 6] == b[..j][6..];
  }
}
