/** The IN side of the CDC interface of the Adelino boot loader (usb_write_byte
    and usb_flush): a bank that is handed to the host when it is full and when it
    is flushed, and that may still be with the host when it is written again. */
module UsbTransfer {
  import opened UsbEndpoint

  const CDC_TXRX_EPSIZE: nat := 16

  /** `busy`: the host has yet to take the last packet. `waits`: how the coming
      waits for a free bank end, true for a bank that is free in time, false for a
      wait given up because Timeout is 0 or the device is detached; beyond its end
      every bank is free in time. `lost` counts bytes written to a bank that was
      not free. */
  datatype InPipe<T> = InPipe(bank: seq<T>, packets: seq<seq<T>>, busy: bool, waits: seq<bool>, lost: nat)

  function NewPipe<T>(waits: seq<bool>): InPipe<T> {
    InPipe([], [], false, waits, 0)
  }

  /** The next wait for a free bank. */
  function Wait<T>(p: InPipe<T>): InPipe<T> {
    if p.waits == [] then p.(busy := false) else p.(busy := !p.waits[0], waits := p.waits[1..])
  }

  /** Endpoint_ClearIN, which has no effect on a bank the host still has. */
  function ClearIN<T>(p: InPipe<T>): InPipe<T> {
    if p.busy then p else p.(bank := [], packets := p.packets + [p.bank], busy := true)
  }

  function SendBank<T>(p: InPipe<T>): InPipe<T> {
    Wait(ClearIN(p))
  }

  /** Endpoint_IsReadWriteAllowed. */
  predicate Writable<T>(p: InPipe<T>) {
    !p.busy && |p.bank| < CDC_TXRX_EPSIZE
  }

  /** Endpoint_Write_8. */
  function Write<T>(p: InPipe<T>, b: T): InPipe<T> {
    if p.busy then p.(lost := p.lost + 1) else p.(bank := p.bank + [b])
  }

  function Put<T>(p: InPipe<T>, b: T): InPipe<T> {
    Write(if Writable(p) then p else SendBank(p), b)
  }

  function PutAll<T>(p: InPipe<T>, data: seq<T>): InPipe<T>
    decreases |data|
  {
    if data == [] then p else PutAll(Put(p, data[0]), data[1..])
  }

  /** Endpoint_BytesInEndpoint is not zero: a packet still to be taken counts. */
  predicate Loaded<T>(p: InPipe<T>) {
    if p.busy then p.packets != [] && p.packets[|p.packets| - 1] != [] else p.bank != []
  }

  /** An empty bank is not sent; a full one is followed by an empty packet. */
  function Flush<T>(p: InPipe<T>): InPipe<T> {
    if !Loaded(p) then p else SendBank(if Writable(p) then p else SendBank(p))
  }

  // ---- What reaches the host ----

  predicate Regular<T>(p: InPipe<T>) {
    |p.bank| <= CDC_TXRX_EPSIZE && (p.busy ==> p.bank == [])
  }

  /** Everything written and not lost. */
  function Sent<T>(p: InPipe<T>): seq<T> {
    Flat(p.packets) + p.bank
  }

  /** The host takes every packet in time. */
  predicate Served<T>(p: InPipe<T>) {
    !p.busy && forall i :: 0 <= i < |p.waits| ==> p.waits[i]
  }

  lemma ClearINCarries<T>(p: InPipe<T>)
    requires Regular(p)
    ensures var q := ClearIN(p); Regular(q) && Sent(q) == Sent(p) && q.bank == [] && q.busy && q.lost == p.lost
  {
    if !p.busy {
      FlatAppend(p.packets, [p.bank]);
      assert Flat([p.bank]) == p.bank + Flat([]);
    }
  }

  lemma SendBankCarries<T>(p: InPipe<T>)
    requires Regular(p)
    ensures var q := SendBank(p); Regular(q) && Sent(q) == Sent(p) && q.bank == [] && q.lost == p.lost
    ensures Served(p) ==> Served(SendBank(p))
  {
    hide Flat;
    ClearINCarries(p);
  }

  /** A byte is lost exactly when the bank is not writable and the wait for it is
      given up; any other byte follows everything sent before. */
  lemma PutExact<T>(p: InPipe<T>, b: T)
    requires Regular(p)
    ensures var q := Put(p, b);
            && Regular(q)
            && (if !Writable(p) && p.waits != [] && !p.waits[0] then Sent(q) == Sent(p) && q.lost == p.lost + 1
                else Sent(q) == Sent(p) + [b] && q.lost == p.lost)
    ensures Served(p) ==> Served(Put(p, b)) && Put(p, b).lost == p.lost
  {
    hide Flat;
    SendBankCarries(p);
  }

  /** Nothing is lost exactly when the bytes, whole and in order, follow everything
      sent before; and nothing is lost while the host takes every packet in time. */
  lemma {:induction false} PutAllExact<T>(p: InPipe<T>, data: seq<T>)
    requires Regular(p)
    ensures var q := PutAll(p, data);
            && Regular(q) && q.lost >= p.lost
            && |Sent(q)| + q.lost == |Sent(p)| + p.lost + |data|
            && (q.lost == p.lost <==> Sent(q) == Sent(p) + data)
            && (Served(p) ==> Served(q) && q.lost == p.lost)
    decreases |data|
  {
    hide Put, Sent, Served, Regular;
    if data == [] {
      assert Sent(p) + data == Sent(p);
    } else {
      PutExact(p, data[0]);
      var r := Put(p, data[0]);
      PutAllExact(r, data[1..]);
      assert Sent(p) + data == (Sent(p) + [data[0]]) + data[1..];
    }
  }

  lemma FlushCarries<T>(p: InPipe<T>)
    requires Regular(p)
    ensures var q := Flush(p); Regular(q) && Sent(q) == Sent(p) && q.bank == [] && q.lost == p.lost
    ensures Served(p) ==> Served(Flush(p))
  {
    hide SendBank, Sent, Served;
    SendBankCarries(p);
    SendBankCarries(SendBank(p));
  }

  // ---- Transfers ----

  /** A bulk transfer as USB 2.0, section 5.8.3, has it: full packets, ended by a shorter one. */
  function Transfer<T>(data: seq<T>): (t: seq<seq<T>>)
    ensures |t| == |data| / CDC_TXRX_EPSIZE + 1
    ensures forall i :: 0 <= i < |t| - 1 ==> |t[i]| == CDC_TXRX_EPSIZE
    ensures |t[|t| - 1]| == |data| % CDC_TXRX_EPSIZE
  {
    if |data| < CDC_TXRX_EPSIZE then [data]
    else [data[..CDC_TXRX_EPSIZE]] + Transfer(data[CDC_TXRX_EPSIZE..])
  }

  lemma {:induction false} TransferCarries<T>(data: seq<T>)
    ensures Flat(Transfer(data)) == data
  {
    if |data| < CDC_TXRX_EPSIZE {
      assert Flat([data]) == data + Flat([]);
    } else {
      TransferCarries(data[CDC_TXRX_EPSIZE..]);
      assert data == data[..CDC_TXRX_EPSIZE] + data[CDC_TXRX_EPSIZE..];
    }
  }

  lemma {:induction false} PutAllFits<T>(p: InPipe<T>, data: seq<T>)
    requires !p.busy && |p.bank| + |data| <= CDC_TXRX_EPSIZE
    ensures PutAll(p, data) == p.(bank := p.bank + data)
    decreases |data|
  {
    if data == [] {
      assert p.bank + data == p.bank;
    } else {
      PutAllFits(Put(p, data[0]), data[1..]);
      assert (p.bank + [data[0]]) + data[1..] == p.bank + data;
    }
  }

  lemma {:induction false} PutAllAppend<T>(p: InPipe<T>, a: seq<T>, b: seq<T>)
    ensures PutAll(p, a + b) == PutAll(PutAll(p, a), b)
    decreases |a|
  {
    if a == [] {
      assert a + b == b;
    } else {
      PutAllAppend(Put(p, a[0]), a[1..], b);
      assert (a + b)[1..] == a[1..] + b;
    }
  }

  /** A bank whose packet the host takes in time. */
  lemma SendServed<T>(p: InPipe<T>)
    requires Served(p)
    ensures var q := SendBank(p);
            Served(q) && q.bank == [] && q.packets == p.packets + [p.bank] && q.lost == p.lost
  {}

  /** A full bank is sent before the next byte. */
  lemma PutOnFullBank<T>(p: InPipe<T>, b: T)
    requires Served(p) && |p.bank| == CDC_TXRX_EPSIZE
    ensures Put(p, b) == Put(SendBank(p), b)
  {}

  /** At most one bank: its packet, and an empty one after a full packet. */
  lemma FlushedBank<T>(p: InPipe<T>)
    requires Served(p) && |p.bank| <= CDC_TXRX_EPSIZE
    ensures var q := Flush(p);
            && Served(q) && q.bank == [] && q.lost == p.lost
            && q.packets == p.packets + if p.bank == [] then [] else Transfer(p.bank)
  {
    hide SendBank, Transfer;
    SendServed(p);
    SendServed(SendBank(p));
    TransferOfBank(p.packets, p.bank);
  }

  lemma TransferOfBank<T>(packets: seq<seq<T>>, data: seq<T>)
    requires |data| <= CDC_TXRX_EPSIZE
    ensures packets + Transfer(data)
         == if |data| < CDC_TXRX_EPSIZE then packets + [data] else packets + [data] + [[]]
  {
    if |data| == CDC_TXRX_EPSIZE {
      assert data[..CDC_TXRX_EPSIZE] == data && data[CDC_TXRX_EPSIZE..] == [];
      assert Transfer(data) == [data] + [[]];
    }
  }

  /** Bytes written between two flushes leave as one transfer if the host takes
      every packet in time: full packets and exactly one shorter packet at the end,
      possibly empty. */
  lemma {:induction false} FlushedBytesAreOneTransfer<T>(p: InPipe<T>, data: seq<T>)
    requires Served(p) && p.bank == []
    ensures var q := Flush(PutAll(p, data));
            && Served(q) && q.bank == [] && q.lost == p.lost
            && q.packets == p.packets + if data == [] then [] else Transfer(data)
    decreases |data|
  {
    hide Flush, SendBank;
    if |data| <= CDC_TXRX_EPSIZE {
      PutAllFits(p, data);
      assert [] + data == data;
      FlushedBank(p.(bank := data));
    } else {
      var first, rest := data[..CDC_TXRX_EPSIZE], data[CDC_TXRX_EPSIZE..];
      assert data == first + rest;
      PutAllAppend(p, first, rest);
      PutAllFits(p, first);
      assert [] + first == first;
      var full := p.(bank := first);
      PutOnFullBank(full, rest[0]);
      var r := SendBank(full);
      assert PutAll(full, rest) == PutAll(r, rest);
      SendServed(full);
      FlushedBytesAreOneTransfer(r, rest);
      assert (p.packets + [first]) + Transfer(rest) == p.packets + Transfer(data);
    }
  }

  // ---- Writing byte by byte ----

  lemma PutAllNone<T>(p: InPipe<T>)
    ensures PutAll(p, []) == p
  {}

  lemma PutAllOne<T>(p: InPipe<T>, b: T)
    ensures PutAll(p, [b]) == Put(p, b)
  {
    hide Put;
    assert PutAll(p, [b]) == PutAll(Put(p, b), []);
  }

  lemma PutAllSnoc<T>(p: InPipe<T>, data: seq<T>, b: T)
    ensures PutAll(p, data + [b]) == Put(PutAll(p, data), b)
  {
    hide Put;
    PutAllAppend(p, data, [b]);
    PutAllOne(PutAll(p, data), b);
  }

  lemma PutAllNext<T>(p: InPipe<T>, data: seq<T>, i: nat)
    requires i < |data|
    ensures PutAll(p, data[..i + 1]) == Put(PutAll(p, data[..i]), data[i])
  {
    hide Put;
    assert data[..i + 1] == data[..i] + [data[i]];
    PutAllSnoc(p, data[..i], data[i]);
  }

  // ---- A host that is slow ----

  /** A flush while the host has yet to take a packet with data waits for that, and
      then sends an empty packet. */
  lemma FlushWhileBusy<T>(p: InPipe<T>)
    requires p.busy && p.bank == [] && p.packets != [] && p.packets[|p.packets| - 1] != []
    requires p.waits == [true, true]
    ensures Flush(p) == p.(packets := p.packets + [[]], busy := false, waits := [])
  {
    assert [true, true][1..] == [true] && [true][1..] == [];
  }

  /** A wait that is given up sends nothing more: the bank stays with the host, and the
      next byte is lost. */
  lemma GivenUpWait<T>(p: InPipe<T>, b: T, c: T)
    requires !p.busy && |p.bank| == CDC_TXRX_EPSIZE && p.waits == [false, false]
    ensures Put(p, b) == p.(bank := [], packets := p.packets + [p.bank], busy := true, waits := [false], lost := p.lost + 1)
    ensures Put(Put(p, b), c)
         == p.(bank := [], packets := p.packets + [p.bank], busy := true, waits := [], lost := p.lost + 2)
  {
    assert [false, false][1..] == [false] && [false][1..] == [];
  }

  /** An endpoint of the CDC interface has 16 bytes: the seventeenth byte starts a new
      packet. */
  lemma SixteenBytes<T>(p: InPipe<T>, data: seq<T>, b: T)
    requires Served(p) && p.bank == [] && |data| == 16
    ensures PutAll(p, data).packets == p.packets && PutAll(p, data + [b]).packets == p.packets + [data]
  {
    hide Put;
    PutAllFits(p, data);
    assert [] + data == data;
    PutAllSnoc(p, data, b);
    SeventeenthByte(p.(bank := data), b);
  }

  lemma SeventeenthByte<T>(p: InPipe<T>, b: T)
    requires Served(p) && |p.bank| == 16
    ensures Put(p, b).packets == p.packets + [p.bank]
  {}
}
