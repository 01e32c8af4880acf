/** The two directions of a USB endpoint as firmware sees them: one bank that is
    read or written byte by byte, and the packets on the other side of it. */
module UsbEndpoint {
  import opened Bytes

  /** An OUT pipe: the bank being read, and the packets the host has yet to
      deliver. When none is left the device is taken to be detached. */
  datatype OutStream = OutStream(bank: seq<byte>, rest: seq<seq<byte>>)

  function Flat<T>(packets: seq<seq<T>>): seq<T> {
    if packets == [] then [] else packets[0] + Flat(packets[1..])
  }

  lemma {:induction false} FlatAppend<T>(a: seq<seq<T>>, b: seq<seq<T>>)
    ensures Flat(a + b) == Flat(a) + Flat(b)
  {
    if a == [] {
      assert a + b == b;
    } else {
      FlatAppend(a[1..], b);
      assert (a + b)[1..] == a[1..] + b;
      assert Flat(a + b) == a[0] + (Flat(a[1..]) + Flat(b));
    }
  }

  /** The bytes still to be read. */
  function Pending(s: OutStream): seq<byte> {
    s.bank + Flat(s.rest)
  }

  /** Endpoint_ClearOUT and the wait for the next packet. */
  function NextBank(s: OutStream): OutStream {
    if s.rest == [] then OutStream([], []) else OutStream(s.rest[0], s.rest[1..])
  }

  /** k consecutive Endpoint_Read_8 calls; reading an empty bank gives 0. */
  function ReadUnit(s: OutStream, k: nat): (r: seq<byte>)
    ensures |r| == k
  {
    if k <= |s.bank| then s.bank[..k] else s.bank + seq(k - |s.bank|, _ => 0)
  }

  function AfterUnit(s: OutStream, k: nat): OutStream {
    s.(bank := if k <= |s.bank| then s.bank[k..] else [])
  }

  datatype Taken = Taken(data: seq<byte>, left: OutStream, complete: bool)

  /** Reads m bytes in units of k, moving to the next packet only when the bank
      is empty before a unit; stops early when the device is detached. */
  function Take(s: OutStream, m: nat, k: nat): (t: Taken)
    requires k > 0 && Mod(m, k) == 0
    ensures |t.data| <= m && (t.complete <==> |t.data| == m)
    ensures Mod(|t.data|, k) == 0
    decreases m
  {
    if m == 0 then Taken([], s, true)
    else if s.bank == [] && s.rest == [] then Taken([], s, false)
    else
      var b := if s.bank == [] then NextBank(s) else s;
      var t := Take(AfterUnit(b, k), m - k, k);
      UnitsJoin(|t.data|, k);
      Taken(ReadUnit(b, k) + t.data, t.left, t.complete)
  }

  lemma UnitsJoin(m: nat, k: nat)
    requires k > 0 && Mod(m, k) == 0
    ensures Mod(k + m, k) == 0
  {}

  /** Every packet is non-empty and holds whole units. */
  predicate WholeUnits(packets: seq<seq<byte>>, k: nat)
    requires k > 0
  {
    forall i :: 0 <= i < |packets| ==> packets[i] != [] && Mod(|packets[i]|, k) == 0
  }

  /** Reading does not depend on how the bytes were cut into packets, as long as
      each packet is non-empty and no unit is cut in two. */
  lemma {:induction false} TakeExact(s: OutStream, m: nat, k: nat)
    requires k > 0 && Mod(m, k) == 0
    requires Mod(|s.bank|, k) == 0 && WholeUnits(s.rest, k)
    requires m <= |Pending(s)|
    ensures Take(s, m, k).complete
    ensures Take(s, m, k).data == Pending(s)[..m]
    ensures Pending(Take(s, m, k).left) == Pending(s)[m..]
    decreases m
  {
    if m > 0 {
      var b := if s.bank == [] then NextBank(s) else s;
      var u := AfterUnit(b, k);
      UnitRead(b, k);
      assert Pending(b) == Pending(s);
      TakeExact(u, m - k, k);
      SplitAt(Pending(s), k, m);
      assert Take(s, m, k).data == ReadUnit(b, k) + Take(u, m - k, k).data;
    }
  }

  lemma UnitRead(s: OutStream, k: nat)
    requires k <= |s.bank|
    ensures ReadUnit(s, k) == Pending(s)[..k]
    ensures Pending(AfterUnit(s, k)) == Pending(s)[k..]
  {}

  // ---- Any packets at all ----

  function Zeros(n: nat): (z: seq<byte>)
    ensures |z| == n
  {
    seq(n, _ => 0)
  }

  /** Bytes filled up to whole units. */
  function Padded(p: seq<byte>, k: nat): (r: seq<byte>)
    requires k > 0
    ensures Mod(|p|, k) == 0 ==> r == p
  {
    if Mod(|p|, k) == 0 then p else p + Zeros(k - Mod(|p|, k))
  }

  /** What packets yield when they are read in units: each is filled up with zeros,
      and an empty one, whose bank is read without a further test, is a unit of
      zeros. */
  function PaddedFlat(packets: seq<seq<byte>>, k: nat): seq<byte>
    requires k > 0
  {
    if packets == [] then []
    else (if packets[0] == [] then Zeros(k) else Padded(packets[0], k)) + PaddedFlat(packets[1..], k)
  }

  function PaddedPending(s: OutStream, k: nat): seq<byte>
    requires k > 0
  {
    Padded(s.bank, k) + PaddedFlat(s.rest, k)
  }

  lemma PaddedSplit(p: seq<byte>, k: nat)
    requires 0 < k <= |p|
    ensures Padded(p, k) == p[..k] + Padded(p[k..], k)
  {
    assert p == p[..k] + p[k..];
  }

  lemma PaddedShort(p: seq<byte>, k: nat)
    requires 0 < |p| < k
    ensures Padded(p, k) == p + Zeros(k - |p|) && Padded([], k) == []
  {}

  /** The unit at the front of a bank that is not empty. */
  lemma PaddedUnit(s: OutStream, k: nat)
    requires k > 0 && s.bank != []
    ensures ReadUnit(s, k) + PaddedPending(AfterUnit(s, k), k) == PaddedPending(s, k)
  {
    hide Padded, PaddedFlat;
    if |s.bank| < k {
      PaddedShort(s.bank, k);
      assert ReadUnit(s, k) == s.bank + Zeros(k - |s.bank|);
    } else {
      PaddedSplit(s.bank, k);
    }
  }

  lemma EmptyPacketUnit(s: OutStream, k: nat)
    requires k > 0 && s.bank == [] && s.rest != [] && s.rest[0] == []
    ensures ReadUnit(NextBank(s), k) + PaddedPending(AfterUnit(NextBank(s), k), k) == PaddedPending(s, k)
  {
    assert ReadUnit(NextBank(s), k) == Zeros(k);
  }

  lemma NextPacket(s: OutStream, k: nat)
    requires k > 0 && s.bank == [] && s.rest != [] && s.rest[0] != []
    ensures PaddedPending(NextBank(s), k) == PaddedPending(s, k)
  {
    assert Padded(s.bank, k) == [];
  }

  /** Reading in units, for every packetisation: the host's bytes with every packet
      filled up, as far as they go. */
  lemma {:induction false} TakePadded(s: OutStream, m: nat, k: nat)
    requires k > 0 && Mod(m, k) == 0
    ensures var t, all := Take(s, m, k), PaddedPending(s, k);
            && (t.complete <==> m <= |all|)
            && t.data == if m <= |all| then all[..m] else all
    decreases m
  {
    hide PaddedPending, AfterUnit, ReadUnit, NextBank;
    if m > 0 {
      if s.bank == [] && s.rest == [] {
        NothingPadded(s, k);
      } else {
        var b := if s.bank == [] then NextBank(s) else s;
        UnitInFront(s, b, k);
        TakePadded(AfterUnit(b, k), m - k, k);
        var all, rest := PaddedPending(s, k), PaddedPending(AfterUnit(b, k), k);
        assert all == ReadUnit(b, k) + rest;
        if m <= |all| {
          assert all[..m] == ReadUnit(b, k) + rest[..m - k];
        }
      }
    }
  }

  lemma NothingPadded(s: OutStream, k: nat)
    requires k > 0 && s.bank == [] && s.rest == []
    ensures PaddedPending(s, k) == []
  {}

  lemma UnitInFront(s: OutStream, b: OutStream, k: nat)
    requires k > 0 && (s.bank != [] || s.rest != []) && b == if s.bank == [] then NextBank(s) else s
    ensures ReadUnit(b, k) + PaddedPending(AfterUnit(b, k), k) == PaddedPending(s, k)
  {
    hide PaddedPending, AfterUnit, ReadUnit;
    if s.bank == [] {
      if s.rest[0] == [] {
        EmptyPacketUnit(s, k);
      } else {
        NextPacket(s, k);
        PaddedUnit(b, k);
      }
    } else {
      PaddedUnit(b, k);
    }
  }

  /** Packets of whole units are read as they are. */
  lemma {:induction false} PaddedWhole(packets: seq<seq<byte>>, k: nat)
    requires k > 0 && WholeUnits(packets, k)
    ensures PaddedFlat(packets, k) == Flat(packets)
  {
    if packets != [] {
      PaddedWhole(packets[1..], k);
    }
  }

  lemma {:induction false} PaddedUnits(packets: seq<seq<byte>>, k: nat)
    requires k > 0
    ensures Mod(|PaddedFlat(packets, k)|, k) == 0
  {
    if packets != [] {
      PaddedUnits(packets[1..], k);
      var p := if packets[0] == [] then Zeros(k) else Padded(packets[0], k);
      assert Mod(|p|, k) == 0 by { PaddedLength(packets[0], k); }
      ModOffset(|p|, |PaddedFlat(packets[1..], k)|, k);
    }
  }

  lemma PaddedLength(p: seq<byte>, k: nat)
    requires k > 0
    ensures Mod(|Padded(p, k)|, k) == 0 && Mod(k, k) == 0
  {
    if Mod(|p|, k) != 0 {
      var base := |p| - Mod(|p|, k);
      ModBase(|p|, k);
      ModOffset(base, k, k);
    }
  }
}
