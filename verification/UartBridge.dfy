/** The path from the UART of the Adelino board to its USB interface: an
    interrupt fills a ring of 256 bytes with eight-bit indices, and the main
    program moves bytes from the ring to the IN endpoint, in CDC_Task and in the
    ESP8266 bridge, in every interleaving of the two with the host and with the
    timer. The main program also writes bytes of its own to the same endpoint: the
    answer to a Ctrl-D and the replies of the AVR109 programmer. */
module UartBridge {
  import opened Bytes
  import opened UsbEndpoint
  import opened UsbTransfer

  const SLIP_END: byte := 0xC0

  /** A byte for the host, with its origin. */
  datatype Item = Uart(b: byte) | Own(b: byte)

  type Buffer = s: seq<byte> | |s| == 0x100 witness seq(0x100, _ => 0)

  datatype Ring = Ring(buffer: Buffer, inp: byte, out: byte)

  /** What became of a byte that the interrupt stored: it went to the bank, it was
      written while the bank was not free, or it was thrown away when the ring was
      cleared. */
  datatype Fate = Delivered | Lost | Discarded

  /** Where the main program is. `ch = buffer[buffer_out++]` may be compiled either
      way: Fetched has loaded the byte and has yet to store the incremented index;
      Bumped has stored the index and has yet to load the byte from the slot it
      left. In usb_write_byte, Holding has the byte, Waiting waits for a free bank,
      and Writing is about to write. In usb_flush, FlushDue is about to start,
      Between waits after sending a full bank, Again is about to send once more,
      and Ending waits for the last time. When the ESP8266 is reset or its bridge
      starts, the ring is cleared: Cleared has cleared buffer_out and has yet to
      clear buffer_in, and Emptying goes on clearing it until the ESP8266 is
      silent. */
  datatype Main =
    | Polling | Fetched(ch: byte) | Bumped(slot: byte)
    | Holding(item: Item) | Waiting(item: Item) | Writing(item: Item)
    | FlushDue | Between | Again | Ending
    | Cleared | Emptying

  /** `esp`: the ESP8266 bridge is running. `running`: Timeout is not 0. `accepted`
      records the bytes the interrupt has stored, and `fates` what became of those
      that are no longer under way. */
  datatype Bridge = Bridge(
    ring: Ring, main: Main, esp: bool, pipe: InPipe<Item>, running: bool, accepted: seq<byte>, fates: seq<Fate>)

  datatype Action =
    | Receive(ch: byte)
    | HostTakes | SetTimeout(running: bool)
    | FetchByte | BumpIndex | StoreIndex | LoadByte | OwnByte(b: byte)
    | TestBank | WaitOver | WriteByte | Flush | SendAgain
    | StartEsp | ResetEsp | EmptyRing | ServeEsp

  function Inc8(x: byte): byte {
    if x == 0xFF then 0 else x + 1
  }

  function Initial(buffer: Buffer): Bridge {
    Bridge(Ring(buffer, 0, 0), Polling, false, NewPipe([]), true, [], [])
  }

  /** The receive interrupt stores a byte unless only one slot is free. */
  predicate Accepts(r: Ring) {
    Inc8(r.inp) != r.out
  }

  function Stored(r: Ring, ch: byte): Ring {
    r.(buffer := r.buffer[r.inp := ch], inp := Inc8(r.inp))
  }

  function Removed(r: Ring): Ring {
    r.(out := Inc8(r.out))
  }

  function Discards(n: nat): (s: seq<Fate>)
    ensures |s| == n
  {
    seq(n, _ => Discarded)
  }

  function Step(b: Bridge, a: Action): Bridge {
    match a
    case Receive(ch) =>
      if !Accepts(b.ring) then b
      else b.(ring := Stored(b.ring, ch), accepted := b.accepted + [ch],
              fates := if b.main.Cleared? then b.fates + [Discarded] else b.fates)
    case HostTakes => b.(pipe := b.pipe.(busy := false))
    case SetTimeout(running) => b.(running := running)
    case FetchByte =>
      if b.main.Polling? && b.ring.inp != b.ring.out then b.(main := Fetched(b.ring.buffer[b.ring.out])) else b
    case BumpIndex =>
      if b.main.Polling? && b.ring.inp != b.ring.out then b.(ring := Removed(b.ring), main := Bumped(b.ring.out)) else b
    case StoreIndex => if b.main.Fetched? then b.(ring := Removed(b.ring), main := Holding(Uart(b.main.ch))) else b
    case LoadByte => if b.main.Bumped? then b.(main := Holding(Uart(b.ring.buffer[b.main.slot]))) else b
    case OwnByte(ch) => if b.main.Polling? && !b.esp then b.(main := Holding(Own(ch))) else b
    case TestBank =>
      if !b.main.Holding? then b
      else if Writable(b.pipe) then b.(main := Writing(b.main.item))
      else b.(pipe := ClearIN(b.pipe), main := Waiting(b.main.item))
    // The wait of _usb_flush_endpoint ends with a free bank, or when Timeout is 0.
    case WaitOver =>
      if b.pipe.busy && b.running then b
      else if b.main.Waiting? then b.(main := Writing(b.main.item))
      else if b.main.Between? then b.(main := Again)
      else if b.main.Ending? then b.(main := Polling)
      else b
    case WriteByte =>
      if !b.main.Writing? then b
      else
        var fate := if b.pipe.busy then Lost else Delivered;
        b.(pipe := Write(b.pipe, b.main.item),
           fates := if b.main.item.Uart? then b.fates + [fate] else b.fates,
           main := if b.esp && b.main.item == Uart(SLIP_END) then FlushDue else Polling)
    case Flush =>
      if !(b.main.FlushDue? || (b.main.Polling? && !b.esp)) then b
      else if !Loaded(b.pipe) then b.(main := Polling)
      else b.(pipe := ClearIN(b.pipe), main := if Writable(b.pipe) then Ending else Between)
    case SendAgain => if b.main.Again? then b.(pipe := ClearIN(b.pipe), main := Ending) else b
    // CDC_Task has flushed the bank when it starts the ESP8266 bridge.
    case StartEsp => if b.main.Polling? && !b.esp && b.pipe.bank == [] then ClearOut(b).(esp := true) else b
    case ResetEsp => if b.main.Polling? then ClearOut(b).(esp := false) else b
    case EmptyRing =>
      if b.main.Cleared? then b.(ring := b.ring.(inp := 0), main := if b.esp then Emptying else Polling)
      else if b.main.Emptying? then
        b.(ring := b.ring.(inp := 0), fates := b.fates + Discards(Queued(b.ring)))
      else b
    case ServeEsp => if b.main.Emptying? then b.(main := Polling) else b
  }

  function ClearOut(b: Bridge): Bridge {
    b.(ring := b.ring.(out := 0), main := Cleared, fates := b.fates + Discards(Queued(b.ring)))
  }

  function Run(b: Bridge, schedule: seq<Action>): Bridge {
    if schedule == [] then b
    else Step(Run(b, schedule[..|schedule| - 1]), schedule[|schedule| - 1])
  }

  // ---- The ring ----

  function Queued(r: Ring): (n: byte) {
    if r.inp >= r.out then r.inp - r.out else r.inp - r.out + 0x100
  }

  function Slot(r: Ring, i: byte): byte {
    if r.out + i < 0x100 then r.out + i else r.out + i - 0x100
  }

  /** The bytes in the ring, oldest first. */
  function Contents(r: Ring): (s: seq<byte>)
    ensures |s| == Queued(r)
  {
    seq<byte>(Queued(r), i requires 0 <= i < Queued(r) => r.buffer[Slot(r, i)])
  }

  /** A byte is refused exactly when 255 bytes are queued, and else it joins the queue. */
  lemma ReceiveExact(r: Ring, ch: byte)
    ensures Accepts(r) <==> Queued(r) < 0xFF
    ensures Accepts(r) ==> Contents(Stored(r, ch)) == Contents(r) + [ch]
  {
    if Accepts(r) {
      var c := Stored(r, ch);
      assert Queued(c) == Queued(r) + 1;
      forall i | 0 <= i < Queued(c) ensures Contents(c)[i] == (Contents(r) + [ch])[i] {
        assert Slot(c, i) == Slot(r, i);
      }
    }
  }

  /** Taking the oldest byte out of the ring. */
  lemma RemoveExact(r: Ring)
    requires r.inp != r.out
    ensures Contents(r) == [r.buffer[r.out]] + Contents(Removed(r))
  {
    var c := Removed(r);
    assert Queued(r) == Queued(c) + 1;
    forall i | 0 <= i < Queued(r) ensures Contents(r)[i] == ([r.buffer[r.out]] + Contents(c))[i] {
      if i > 0 {
        assert Slot(c, i - 1) == Slot(r, i);
      }
    }
  }

  /** The reserved slot: no number of interrupts can write over a byte whose index
      has been stored but which has not been loaded yet. */
  lemma {:induction false} PendingSlotSafe(b: Bridge, received: seq<byte>)
    requires b.main.Bumped? && Inc8(b.main.slot) == b.ring.out
    ensures var c := Interrupts(b, received);
            && c.main == b.main && c.ring.out == b.ring.out
            && c.ring.buffer[c.main.slot] == b.ring.buffer[b.main.slot]
  {
    if received != [] {
      PendingSlotSafe(b, received[..|received| - 1]);
    }
  }

  /** The receive interrupt, firing once for each of the bytes. */
  function Interrupts(b: Bridge, received: seq<byte>): Bridge {
    if received == [] then b
    else Step(Interrupts(b, received[..|received| - 1]), Receive(received[|received| - 1]))
  }

  // ---- Accounting ----

  /** The UART bytes among the items, in order. */
  function UartOf(items: seq<Item>): seq<byte> {
    if items == [] then []
    else
      var n := |items| - 1;
      UartOf(items[..n]) + if items[n].Uart? then [items[n].b] else []
  }

  /** The bytes that were delivered, in order. */
  function Kept(bytes: seq<byte>, fates: seq<Fate>): seq<byte>
    requires |bytes| == |fates|
  {
    if bytes == [] then []
    else
      var n := |bytes| - 1;
      Kept(bytes[..n], fates[..n]) + if fates[n].Delivered? then [bytes[n]] else []
  }

  /** The accepted bytes are those with a fate, followed by those under way; the
      delivered ones are, in order, the UART bytes of the pipe. */
  predicate Ledger(accepted: seq<byte>, fates: seq<Fate>, sent: seq<Item>, underWay: seq<byte>) {
    && |fates| <= |accepted|
    && accepted[|fates|..] == underWay
    && Kept(accepted[..|fates|], fates) == UartOf(sent)
  }

  lemma UartOfSnoc(items: seq<Item>, x: Item)
    ensures UartOf(items + [x]) == UartOf(items) + if x.Uart? then [x.b] else []
  {
    assert (items + [x])[..|items|] == items;
  }

  lemma KeptSnoc(bytes: seq<byte>, fates: seq<Fate>, ch: byte, fate: Fate)
    requires |bytes| == |fates|
    ensures Kept(bytes + [ch], fates + [fate]) == Kept(bytes, fates) + if fate.Delivered? then [ch] else []
  {
    assert (bytes + [ch])[..|bytes|] == bytes && (fates + [fate])[..|fates|] == fates;
  }

  /** A byte is accepted. */
  lemma LedgerReceive(accepted: seq<byte>, fates: seq<Fate>, sent: seq<Item>, underWay: seq<byte>, ch: byte)
    requires Ledger(accepted, fates, sent, underWay)
    ensures Ledger(accepted + [ch], fates, sent, underWay + [ch])
  {
    assert (accepted + [ch])[..|fates|] == accepted[..|fates|];
  }

  /** The oldest byte under way meets its fate. */
  lemma LedgerFate(accepted: seq<byte>, fates: seq<Fate>, sent: seq<Item>, ch: byte, rest: seq<byte>, fate: Fate)
    requires Ledger(accepted, fates, sent, [ch] + rest)
    ensures Ledger(accepted, fates + [fate], if fate.Delivered? then sent + [Uart(ch)] else sent, rest)
  {
    var n := |fates|;
    assert accepted[n..][0] == ch && accepted[n..][1..] == rest;
    assert accepted[..n + 1] == accepted[..n] + [ch];
    KeptSnoc(accepted[..n], fates, ch, fate);
    UartOfSnoc(sent, Uart(ch));
  }

  lemma LedgerOwn(accepted: seq<byte>, fates: seq<Fate>, sent: seq<Item>, underWay: seq<byte>, ch: byte)
    requires Ledger(accepted, fates, sent, underWay)
    ensures Ledger(accepted, fates, sent + [Own(ch)], underWay)
  {
    UartOfSnoc(sent, Own(ch));
    assert UartOf(sent) + [] == UartOf(sent);
  }

  /** Everything under way is thrown away. */
  lemma {:induction false} LedgerDiscard(accepted: seq<byte>, fates: seq<Fate>, sent: seq<Item>, underWay: seq<byte>)
    requires Ledger(accepted, fates, sent, underWay)
    ensures Ledger(accepted, fates + Discards(|underWay|), sent, [])
    decreases |underWay|
  {
    hide Ledger;
    if underWay == [] {
      assert fates + Discards(0) == fates;
    } else {
      assert underWay == [underWay[0]] + underWay[1..];
      LedgerFate(accepted, fates, sent, underWay[0], underWay[1..], Discarded);
      LedgerDiscard(accepted, fates + [Discarded], sent, underWay[1..]);
      assert (fates + [Discarded]) + Discards(|underWay| - 1) == fates + Discards(|underWay|);
    }
  }

  // ---- The invariant ----

  /** The UART byte that has left the ring and has no fate yet. */
  function InFlight(b: Bridge): seq<byte> {
    match b.main
    case Bumped(slot) => [b.ring.buffer[slot]]
    case Holding(item) => UartByte(item)
    case Waiting(item) => UartByte(item)
    case Writing(item) => UartByte(item)
    case _ => []
  }

  function UartByte(item: Item): seq<byte> {
    if item.Uart? then [item.b] else []
  }

  /** The bytes under way: the one in flight and those in the ring, which counts
      for nothing while only one of its indices is cleared. */
  function UnderWay(b: Bridge): seq<byte> {
    if b.main.Cleared? then [] else InFlight(b) + Contents(b.ring)
  }

  /** What the place of the main program says about ring and bank. */
  predicate Placed(b: Bridge) {
    && (b.main.Fetched? ==> b.ring.inp != b.ring.out && b.main.ch == b.ring.buffer[b.ring.out])
    && (b.main.Bumped? ==> Inc8(b.main.slot) == b.ring.out)
    && (b.main.Waiting? || b.main.Between? || b.main.Again? || b.main.Ending? ==> b.pipe.bank == [])
    && (b.main.Writing? ==> |b.pipe.bank| < CDC_TXRX_EPSIZE)
    && (b.main.Cleared? || b.main.Emptying? ==> b.ring.out == 0)
  }

  /** While the ESP8266 bridge runs, the bank holds no SLIP END that is not about
      to be flushed. */
  predicate SlipFlushed(b: Bridge) {
    b.esp && !b.main.FlushDue? ==> Uart(SLIP_END) !in b.pipe.bank
  }

  predicate Accounted(b: Bridge) {
    Ledger(b.accepted, b.fates, Sent(b.pipe), UnderWay(b))
  }

  predicate Inv(b: Bridge) {
    Regular(b.pipe) && Placed(b) && SlipFlushed(b) && Accounted(b)
  }

  lemma ReceiveKeepsInv(b: Bridge, ch: byte)
    requires Inv(b)
    ensures Inv(Step(b, Receive(ch)))
  {
    hide Ledger, Contents, Sent, Queued;
    var c := Step(b, Receive(ch));
    ReceiveExact(b.ring, ch);
    if Accepts(b.ring) {
      LedgerReceive(b.accepted, b.fates, Sent(b.pipe), UnderWay(b), ch);
      if b.main.Cleared? {
        assert UnderWay(b) + [ch] == [ch] + [];
        LedgerFate(c.accepted, b.fates, Sent(b.pipe), ch, [], Discarded);
      } else {
        assert InFlight(c) == InFlight(b);
        assert InFlight(b) + (Contents(b.ring) + [ch]) == (InFlight(b) + Contents(b.ring)) + [ch];
      }
    }
  }

  /** A byte leaves the ring, or one of the program's own comes up. */
  lemma TakeKeepsInv(b: Bridge, a: Action)
    requires Inv(b) && (a.FetchByte? || a.BumpIndex? || a.StoreIndex? || a.LoadByte? || a.OwnByte?)
    ensures Inv(Step(b, a))
  {
    hide Ledger, Contents, Sent;
    var c := Step(b, a);
    if c.ring != b.ring {
      RemoveExact(b.ring);
      assert [] + ([b.ring.buffer[b.ring.out]] + Contents(c.ring)) == [b.ring.buffer[b.ring.out]] + Contents(c.ring);
    }
    assert UnderWay(c) == UnderWay(b);
  }

  /** A bank that is handed over, with the main program at a place that says nothing
      but that the bank is empty. */
  lemma HandOverKeepsInv(b: Bridge, next: Main)
    requires Inv(b) && (next.Waiting? || next.Between? || next.Ending?)
    requires UnderWay(b.(main := next)) == UnderWay(b)
    ensures Inv(b.(pipe := ClearIN(b.pipe), main := next))
  {
    hide Ledger, UnderWay, Sent, ClearIN;
    ClearINCarries(b.pipe);
    var c := b.(pipe := ClearIN(b.pipe), main := next);
    assert UnderWay(c) == UnderWay(b) by { SameUnderWay(c, b.(main := next)); }
  }

  lemma SameUnderWay(b: Bridge, c: Bridge)
    requires b.ring == c.ring && b.main == c.main
    ensures UnderWay(b) == UnderWay(c)
  {
    hide Contents;
  }

  lemma MainMoves(b: Bridge, next: Main)
    requires InFlight(b.(main := next)) == InFlight(b) && !b.main.Cleared? && !next.Cleared?
    ensures UnderWay(b.(main := next)) == UnderWay(b)
  {
    hide Contents;
  }

  /** Before a byte is written the bank is tested. */
  lemma TestKeepsInv(b: Bridge)
    requires Inv(b)
    ensures Inv(Step(b, TestBank))
  {
    hide Ledger, UnderWay, Sent, ClearIN;
    if b.main.Holding? {
      MainMoves(b, Waiting(b.main.item));
      MainMoves(b, Writing(b.main.item));
      if !Writable(b.pipe) {
        HandOverKeepsInv(b, Waiting(b.main.item));
      }
    }
  }

  lemma FlushKeepsInv(b: Bridge)
    requires Inv(b)
    ensures Inv(Step(b, Action.Flush))
  {
    hide Ledger, UnderWay, Sent, ClearIN;
    if b.main.FlushDue? || b.main.Polling? {
      MainMoves(b, Polling);
      MainMoves(b, Between);
      MainMoves(b, Ending);
      if Loaded(b.pipe) {
        HandOverKeepsInv(b, if Writable(b.pipe) then Ending else Between);
      } else {
        NotLoaded(b);
      }
    }
  }

  lemma NotLoaded(b: Bridge)
    requires Regular(b.pipe) && !Loaded(b.pipe)
    ensures b.pipe.bank == []
  {}

  lemma AgainKeepsInv(b: Bridge)
    requires Inv(b)
    ensures Inv(Step(b, SendAgain))
  {
    hide Ledger, UnderWay, Sent, ClearIN;
    if b.main.Again? {
      MainMoves(b, Ending);
      HandOverKeepsInv(b, Ending);
    }
  }

  /** The host takes the bank, the timer fires, or a wait ends. */
  lemma WaitKeepsInv(b: Bridge, a: Action)
    requires Inv(b) && (a.WaitOver? || a.HostTakes? || a.SetTimeout? || a.ServeEsp?)
    ensures Inv(Step(b, a))
  {
    hide Ledger, Contents, Flat;
    assert UnderWay(Step(b, a)) == UnderWay(b);
  }

  lemma WriteKeepsInv(b: Bridge)
    requires Inv(b)
    ensures Inv(Step(b, WriteByte))
  {
    hide Ledger, Contents, Flat;
    var c := Step(b, WriteByte);
    if b.main.Writing? {
      var ch, rest := b.main.item.b, Contents(b.ring);
      if b.main.item.Uart? {
        LedgerFate(b.accepted, b.fates, Sent(b.pipe), ch, rest, if b.pipe.busy then Lost else Delivered);
      } else {
        LedgerOwn(b.accepted, b.fates, Sent(b.pipe), UnderWay(b), ch);
      }
      assert UnderWay(c) == rest && [] + rest == rest;
      if !b.pipe.busy {
        assert Sent(c.pipe) == Sent(b.pipe) + [b.main.item];
      }
    }
  }

  lemma EspKeepsInv(b: Bridge, a: Action)
    requires Inv(b) && (a.StartEsp? || a.ResetEsp? || a.EmptyRing?)
    ensures Inv(Step(b, a))
  {
    hide Ledger, Flat;
    var c := Step(b, a);
    if c != b {
      assert [] + Contents(b.ring) == Contents(b.ring);
      if !b.main.Cleared? {
        LedgerDiscard(b.accepted, b.fates, Sent(b.pipe), Contents(b.ring));
      }
      assert UnderWay(c) == [];
    }
  }

  /** Under every schedule of interrupts, host, timer and main program, at every
      point: the bytes the interrupt accepted are, in order, those with a fate and
      those under way, and of the former exactly the delivered ones are, in order,
      the UART bytes in the sent packets and the bank. */
  lemma {:induction false} ConservationUnderEverySchedule(buffer: Buffer, schedule: seq<Action>)
    ensures Inv(Run(Initial(buffer), schedule))
  {
    hide Inv, Step;
    if schedule != [] {
      var prev, a := schedule[..|schedule| - 1], schedule[|schedule| - 1];
      ConservationUnderEverySchedule(buffer, prev);
      StepKeepsInv(Run(Initial(buffer), prev), a);
    } else {
      InitialInv(buffer);
    }
  }

  lemma InitialInv(buffer: Buffer)
    ensures Inv(Initial(buffer))
  {
    assert Contents(Initial(buffer).ring) == [];
    assert Sent(Initial(buffer).pipe) == [];
  }

  lemma StepKeepsInv(b: Bridge, a: Action)
    requires Inv(b)
    ensures Inv(Step(b, a))
  {
    hide Inv, Step;
    match a {
      case Receive(ch) => ReceiveKeepsInv(b, ch);
      case WriteByte => WriteKeepsInv(b);
      case StartEsp => EspKeepsInv(b, a);
      case ResetEsp => EspKeepsInv(b, a);
      case EmptyRing => EspKeepsInv(b, a);
      case FetchByte => TakeKeepsInv(b, a);
      case BumpIndex => TakeKeepsInv(b, a);
      case StoreIndex => TakeKeepsInv(b, a);
      case LoadByte => TakeKeepsInv(b, a);
      case OwnByte(_) => TakeKeepsInv(b, a);
      case TestBank => TestKeepsInv(b);
      case Flush => FlushKeepsInv(b);
      case SendAgain => AgainKeepsInv(b);
      case _ => WaitKeepsInv(b, a);
    }
  }

  // ---- What the host gets ----

  predicate AllDelivered(fates: seq<Fate>) {
    forall i :: 0 <= i < |fates| ==> fates[i].Delivered?
  }

  lemma {:induction false} KeptAll(bytes: seq<byte>, fates: seq<Fate>)
    requires |bytes| == |fates|
    ensures |Kept(bytes, fates)| <= |bytes|
    ensures AllDelivered(fates) <==> Kept(bytes, fates) == bytes
    ensures AllDelivered(fates) <==> |Kept(bytes, fates)| == |bytes|
  {
    if bytes != [] {
      var n := |bytes| - 1;
      KeptAll(bytes[..n], fates[..n]);
      assert bytes == bytes[..n] + [bytes[n]];
      assert fates == fates[..n] + [fates[n]];
    }
  }

  /** Nothing is lost, repeated or reordered between the UART and the host, the
      bytes of the program's own set aside, exactly when every byte that is no
      longer under way was delivered. */
  lemma ConservedExactly(b: Bridge)
    requires Inv(b)
    ensures b.accepted == UartOf(Sent(b.pipe)) + UnderWay(b) <==> AllDelivered(b.fates)
  {
    hide Sent, UnderWay;
    var n := |b.fates|;
    KeptAll(b.accepted[..n], b.fates);
    assert b.accepted == b.accepted[..n] + b.accepted[n..];
    if b.accepted == UartOf(Sent(b.pipe)) + UnderWay(b) {
      assert |UartOf(Sent(b.pipe))| == n;
    }
  }

  function Raw(items: seq<Item>): (r: seq<byte>)
    ensures |r| == |items|
  {
    seq<byte>(|items|, i requires 0 <= i < |items| => items[i].b)
  }

  lemma {:induction false} UartOnly(items: seq<Item>)
    ensures |UartOf(items)| <= |items|
    ensures |UartOf(items)| == |items| <==> forall i :: 0 <= i < |items| ==> items[i].Uart?
    ensures |UartOf(items)| == |items| ==> UartOf(items) == Raw(items)
  {
    if items != [] {
      var n := |items| - 1;
      UartOnly(items[..n]);
      assert items == items[..n] + [items[n]];
      if |UartOf(items)| == |items| {
        assert Raw(items) == Raw(items[..n]) + [items[n].b];
      }
    }
  }

  /** The bytes the host sees, without their origin, are the accepted ones exactly
      when the program has written none of its own. */
  lemma UntaggedExactly(b: Bridge)
    requires Inv(b) && AllDelivered(b.fates)
    ensures b.accepted == Raw(Sent(b.pipe)) + UnderWay(b)
       <==> forall i :: 0 <= i < |Sent(b.pipe)| ==> Sent(b.pipe)[i].Uart?
  {
    hide Inv, UnderWay;
    ConservedExactly(b);
    UartOnly(Sent(b.pipe));
    if b.accepted == Raw(Sent(b.pipe)) + UnderWay(b) {
      assert |Raw(Sent(b.pipe))| == |UartOf(Sent(b.pipe))|;
    }
  }

  /** Once the ring is drained and flushed the host has every byte that was not
      lost or discarded. */
  lemma DrainedMeansDelivered(b: Bridge)
    requires Inv(b) && b.main.Polling? && b.ring.inp == b.ring.out && b.pipe.bank == []
    ensures |b.fates| == |b.accepted| && Kept(b.accepted, b.fates) == UartOf(Flat(b.pipe.packets))
    ensures AllDelivered(b.fates) ==> UartOf(Flat(b.pipe.packets)) == b.accepted
  {
    assert UnderWay(b) == [];
    assert Sent(b.pipe) == Flat(b.pipe.packets);
    assert b.accepted[..|b.fates|] == b.accepted;
    KeptAll(b.accepted, b.fates);
  }

  /** A byte is lost exactly when it is written to a bank that is not free, which
      the main program does only after a wait that ended because Timeout was 0. */
  lemma LossExactly(b: Bridge, a: Action)
    ensures Step(b, a).pipe.lost > b.pipe.lost <==> a.WriteByte? && b.main.Writing? && b.pipe.busy
    ensures (Step(b, a).main.Writing? && Step(b, a).pipe.busy && !(b.main.Writing? && b.pipe.busy))
       <==> a.WaitOver? && b.main.Waiting? && b.pipe.busy && !b.running
  {}

  /** As long as Timeout does not run out nothing is lost, and as long as the ring
      is not cleared nothing is thrown away: then every accepted byte reaches the
      host or is under way to it. */
  lemma {:induction false} DeliveredWhileTimeoutRuns(buffer: Buffer, schedule: seq<Action>)
    requires forall i :: 0 <= i < |schedule| ==> schedule[i] != SetTimeout(false)
    ensures var b := Run(Initial(buffer), schedule);
            && Lossless(b)
            && ((forall i :: 0 <= i < |schedule| ==> !schedule[i].StartEsp? && !schedule[i].ResetEsp?) ==>
                  Undisturbed(b) && b.accepted == UartOf(Sent(b.pipe)) + UnderWay(b))
  {
    hide Step, Inv, Sent, UnderWay, Lossless, Undisturbed;
    var b := Run(Initial(buffer), schedule);
    if schedule != [] {
      var prev := schedule[..|schedule| - 1];
      DeliveredWhileTimeoutRuns(buffer, prev);
      StepDelivers(Run(Initial(buffer), prev), schedule[|schedule| - 1]);
    } else {
      InitialLossless(buffer);
    }
    ConservationUnderEverySchedule(buffer, schedule);
    if Undisturbed(b) {
      UndisturbedDelivers(b);
      ConservedExactly(b);
    }
  }

  predicate Lossless(b: Bridge) {
    b.running && b.pipe.lost == 0 && (b.main.Writing? ==> !b.pipe.busy) && Lost !in b.fates
  }

  predicate Undisturbed(b: Bridge) {
    !b.main.Cleared? && !b.main.Emptying? && AllDelivered(b.fates)
  }

  lemma InitialLossless(buffer: Buffer)
    ensures Lossless(Initial(buffer)) && Undisturbed(Initial(buffer))
  {}

  lemma UndisturbedDelivers(b: Bridge)
    requires Undisturbed(b)
    ensures AllDelivered(b.fates)
  {}

  lemma StepDelivers(b: Bridge, a: Action)
    requires Lossless(b) && a != SetTimeout(false)
    ensures Lossless(Step(b, a))
    ensures Undisturbed(b) && !a.StartEsp? && !a.ResetEsp? ==> Undisturbed(Step(b, a))
  {}

  /** A SLIP END that reached the bank is followed by a flush that leaves nothing in
      the bank: everything kept so far is in packets. */
  lemma SlipEndLeavesNothing(b: Bridge)
    requires Inv(b) && b.main.FlushDue?
    ensures var c := Step(b, Action.Flush);
            && Inv(c) && c.pipe.bank == []
            && Kept(c.accepted[..|c.fates|], c.fates) == UartOf(Flat(c.pipe.packets))
  {
    FlushKeepsInv(b);
    FlushEmpties(b);
    EmptyBankKept(Step(b, Action.Flush));
  }

  lemma FlushEmpties(b: Bridge)
    requires Regular(b.pipe) && b.main.FlushDue?
    ensures Step(b, Action.Flush).pipe.bank == []
  {}

  lemma EmptyBankKept(b: Bridge)
    requires Inv(b) && b.pipe.bank == []
    ensures Kept(b.accepted[..|b.fates|], b.fates) == UartOf(Flat(b.pipe.packets))
  {
    assert Sent(b.pipe) == Flat(b.pipe.packets);
  }

  // ---- What is accepted ----

  /** The interrupt stores the byte it received, and counts it as accepted, unless 255
      bytes are queued. */
  lemma ReceiveStep(b: Bridge, ch: byte)
    ensures var c := Step(b, Receive(ch));
            && c.ring == (if Queued(b.ring) < 0xFF then Stored(b.ring, ch) else b.ring)
            && c.accepted == b.accepted + (if Queued(b.ring) < 0xFF then [ch] else [])
            && c == b.(ring := c.ring, accepted := c.accepted, fates := c.fates)
  {
    ReceiveExact(b.ring, ch);
  }

  /** The bytes received while fewer than 255 were queued. */
  function Received(b: Bridge, schedule: seq<Action>): seq<byte> {
    if schedule == [] then []
    else
      var prev, a := schedule[..|schedule| - 1], schedule[|schedule| - 1];
      Received(b, prev) + if a.Receive? && Queued(Run(b, prev).ring) < 0xFF then [a.ch] else []
  }

  lemma OthersAcceptNothing(b: Bridge, a: Action)
    requires !a.Receive?
    ensures Step(b, a).accepted == b.accepted
  {}

  /** Under every schedule the accepted bytes are those received, in order, without
      those that arrived with 255 queued. */
  lemma {:induction false} AcceptedAreReceived(buffer: Buffer, schedule: seq<Action>)
    ensures Run(Initial(buffer), schedule).accepted == Received(Initial(buffer), schedule)
  {
    hide Step;
    if schedule != [] {
      var prev, a := schedule[..|schedule| - 1], schedule[|schedule| - 1];
      AcceptedAreReceived(buffer, prev);
      var b := Run(Initial(buffer), prev);
      if a.Receive? {
        ReceiveStep(b, a.ch);
      } else {
        OthersAcceptNothing(b, a);
        assert b.accepted + [] == b.accepted;
      }
    }
  }

  // ---- What the steps amount to ----

  /** Either way of taking a byte takes the oldest. */
  lemma TakeIsSteps(b: Bridge)
    requires b.main.Polling? && b.ring.inp != b.ring.out
    ensures var taken := b.(ring := Removed(b.ring), main := Holding(Uart(Contents(b.ring)[0])));
            Step(Step(b, FetchByte), StoreIndex) == taken && Step(Step(b, BumpIndex), LoadByte) == taken
  {
    RemoveExact(b.ring);
  }

  /** The steps of usb_write_byte, with the host taking the packet in time or not. */
  function WriteSteps(b: Bridge, inTime: bool): Bridge {
    var c := Step(b, TestBank);
    var h := if inTime then Step(c, HostTakes) else c;
    Step(Step(h, WaitOver), WriteByte)
  }

  /** After them the byte, of the UART or of the program, has been put into the pipe,
      a byte of the UART has met its fate, and the main program goes on: in the
      ESP8266 bridge, after a SLIP END, with a flush. */
  lemma WriteIsPut(b: Bridge, inTime: bool)
    requires b.main.Holding? && (inTime || !b.running) && b.pipe.waits == []
    ensures var c := WriteSteps(b, inTime);
            && c.pipe == Put(b.pipe.(waits := [inTime]), b.main.item).(waits := [])
            && c.fates == b.fates + (if b.main.item.Own? then [] else [if c.pipe.lost == b.pipe.lost then Delivered else Lost])
            && c.main == (if b.esp && b.main.item == Uart(0xC0) then FlushDue else Polling)
            && c.ring == b.ring && c.accepted == b.accepted && c.esp == b.esp
  {}

  /** A byte of the program's own comes up as it is, and when it is put into a free bank
      the host sees it with its origin. */
  lemma OwnIsSteps(b: Bridge, ch: byte)
    requires b.main.Polling? && !b.esp && Writable(b.pipe) && b.pipe.waits == []
    ensures var c := WriteSteps(Step(b, OwnByte(ch)), true);
            c.main.Polling? && Sent(c.pipe) == Sent(b.pipe) + [Own(ch)] && c.fates == b.fates
  {
    hide Flat;
    WriteIsPut(Step(b, OwnByte(ch)), true);
    assert Flat(b.pipe.packets) + (b.pipe.bank + [Own(ch)]) == (Flat(b.pipe.packets) + b.pipe.bank) + [Own(ch)];
  }

  /** A wait goes on exactly while the host has the bank and Timeout runs; the host
      ends it by taking the packet, and the timer by running out. */
  lemma WaitEnds(b: Bridge)
    requires b.main.Waiting? && b.pipe.busy && b.running
    ensures Step(b, WaitOver) == b
    ensures Step(Step(b, HostTakes), WaitOver).main == Writing(b.main.item)
    ensures Step(Step(b, SetTimeout(false)), WaitOver).main == Writing(b.main.item)
    ensures Step(Step(b, SetTimeout(true)), WaitOver) == b
  {}

  /** The steps of usb_flush. */
  function FlushSteps(b: Bridge, first: bool, second: bool): Bridge {
    var c := Step(b, Action.Flush);
    var d := Step(if first then Step(c, HostTakes) else c, WaitOver);
    var e := Step(d, SendAgain);
    Step(if second && d.main.Again? then Step(e, HostTakes) else e, WaitOver)
  }

  /** Where usb_flush is called: in CDC_Task, and after a SLIP END. */
  predicate Flushes(b: Bridge, first: bool, second: bool) {
    && (b.main.FlushDue? || (b.main.Polling? && !b.esp))
    && ((first && second) || !b.running) && b.pipe.waits == [] && Regular(b.pipe)
  }

  lemma ShortFlush(b: Bridge, first: bool, second: bool)
    requires Flushes(b, first, second) && Loaded(b.pipe) && Writable(b.pipe)
    ensures var c := FlushSteps(b, first, second);
            c == b.(main := Polling, pipe := UsbTransfer.Flush(b.pipe.(waits := [first, second])).(waits := []))
  {}

  lemma LongFlush(b: Bridge, first: bool, second: bool)
    requires Flushes(b, first, second) && Loaded(b.pipe) && !Writable(b.pipe)
    ensures var c := FlushSteps(b, first, second);
            c == b.(main := Polling, pipe := UsbTransfer.Flush(b.pipe.(waits := [first, second])).(waits := []))
  {
    var p := ClearIN(b.pipe).(busy := !first);
    var c := Step(b, Action.Flush);
    var d := Step(if first then Step(c, HostTakes) else c, WaitOver);
    assert d == b.(main := Again, pipe := p);
    var e := Step(d, SendAgain);
    assert e == b.(main := Ending, pipe := ClearIN(p));
    assert [first, second][1..] == [second];
  }

  lemma NoFlush(b: Bridge, first: bool, second: bool)
    requires Flushes(b, first, second) && !Loaded(b.pipe)
    ensures var c := FlushSteps(b, first, second);
            c == b.(main := Polling, pipe := c.pipe) && (c.pipe == b.pipe || c.pipe == b.pipe.(busy := false))
  {}

  /** The steps are a flush of the pipe: a bank that holds bytes is sent, a full one is
      followed by an empty packet, and nothing is sent for an empty bank. */
  lemma FlushIsSteps(b: Bridge, first: bool, second: bool)
    requires Flushes(b, first, second)
    ensures var c := FlushSteps(b, first, second);
            && c == b.(main := Polling, pipe := c.pipe)
            && (Loaded(b.pipe) ==> c.pipe == UsbTransfer.Flush(b.pipe.(waits := [first, second])).(waits := []))
            && (!Loaded(b.pipe) ==> c.pipe == b.pipe || c.pipe == b.pipe.(busy := false))
  {
    hide FlushSteps, UsbTransfer.Flush, Loaded, Writable;
    if !Loaded(b.pipe) {
      NoFlush(b, first, second);
    } else if Writable(b.pipe) {
      ShortFlush(b, first, second);
    } else {
      LongFlush(b, first, second);
    }
  }

  /** Starting the ESP8266 bridge and resetting the ESP8266 both empty the ring. */
  lemma ClearingEmpties(b: Bridge)
    requires b.main.Polling?
    ensures var c := Step(Step(b, ResetEsp), EmptyRing); Contents(c.ring) == [] && c.main.Polling? && !c.esp
    ensures !b.esp && b.pipe.bank == [] ==>
              var c := Step(Step(Step(b, StartEsp), EmptyRing), ServeEsp); Contents(c.ring) == [] && c.main.Polling? && c.esp
  {}

  // ---- The same in the form of the source ----

  function FateOf(p: InPipe<Item>, q: InPipe<Item>): Fate {
    if q.lost == p.lost then Delivered else Lost
  }

  /** The oldest byte under way is written. */
  lemma LedgerPut(accepted: seq<byte>, fates: seq<Fate>, p: InPipe<Item>, ch: byte, rest: seq<byte>)
    requires Regular(p) && Ledger(accepted, fates, Sent(p), [ch] + rest)
    ensures var q := Put(p, Uart(ch));
            && Regular(q) && Ledger(accepted, fates + [FateOf(p, q)], Sent(q), rest)
            && (Served(p) ==> Served(q) && FateOf(p, q) == Delivered)
  {
    hide Ledger, Sent, Put;
    PutExact(p, Uart(ch));
    LedgerFate(accepted, fates, Sent(p), ch, rest, FateOf(p, Put(p, Uart(ch))));
  }

  lemma LedgerPutOwn(accepted: seq<byte>, fates: seq<Fate>, p: InPipe<Item>, underWay: seq<byte>, ch: byte)
    requires Regular(p) && Ledger(accepted, fates, Sent(p), underWay)
    ensures var q := Put(p, Own(ch));
            && Regular(q) && Ledger(accepted, fates, Sent(q), underWay) && UartOf(Sent(q)) == UartOf(Sent(p))
  {
    hide Ledger, Sent, Put;
    PutExact(p, Own(ch));
    LedgerOwn(accepted, fates, Sent(p), underWay, ch);
    UartOfSnoc(Sent(p), Own(ch));
    assert UartOf(Sent(p)) + [] == UartOf(Sent(p));
  }

  /** Nothing under way and nothing in the bank. */
  lemma LedgerClosed(accepted: seq<byte>, fates: seq<Fate>, p: InPipe<Item>)
    requires Ledger(accepted, fates, Sent(p), []) && p.bank == []
    ensures |fates| == |accepted| && Kept(accepted, fates) == UartOf(Flat(p.packets))
  {
    assert accepted[..|fates|] == accepted;
    assert Flat(p.packets) + [] == Flat(p.packets);
  }

  lemma EmptyRingContents(r: Ring)
    requires r.inp == r.out
    ensures Contents(r) == []
  {}

  lemma RemoveCounts(r: Ring)
    requires r.inp != r.out
    ensures Queued(Removed(r)) < Queued(r)
  {}

  /** The ring and the endpoint as variables of the program, between interrupts. */
  class UartPort {
    const buffer: array<byte>
    var bufferIn: byte
    var bufferOut: byte
    var pipe: InPipe<Item>
    ghost var accepted: seq<byte>
    ghost var fates: seq<Fate>

    ghost function RingNow(): Ring
      requires buffer.Length == 0x100
      reads this, buffer
    {
      Ring(buffer[..], bufferIn, bufferOut)
    }

    ghost predicate Valid()
      reads this, buffer
    {
      buffer.Length == 0x100 && Regular(pipe) && Ledger(accepted, fates, Sent(pipe), Contents(RingNow()))
    }

    constructor (waits: seq<bool>)
      ensures Valid() && fresh(buffer) && accepted == [] && fates == [] && pipe == NewPipe(waits)
    {
      buffer := new byte[0x100];
      bufferIn, bufferOut, pipe, accepted, fates := 0, 0, NewPipe(waits), [], [];
      new;
      assert Contents(RingNow()) == [];
      assert Sent(pipe) == [];
    }

    /** ISR(USART1_RX_vect). */
    method ReceiveInterrupt(ch: byte)
      requires Valid()
      modifies this`bufferIn, this`accepted, buffer
      ensures Valid() && accepted == old(accepted) + (if Queued(old(RingNow())) < 0xFF then [ch] else [])
      ensures RingNow() == if Queued(old(RingNow())) < 0xFF then Stored(old(RingNow()), ch) else old(RingNow())
      ensures Contents(RingNow()) == Contents(old(RingNow())) + accepted[|old(accepted)|..]
    {
      hide Ledger, Contents;
      ReceiveExact(RingNow(), ch);
      LedgerReceive(accepted, fates, Sent(pipe), Contents(RingNow()), ch);
      var next := Inc8(bufferIn);
      if next != bufferOut {
        buffer[bufferIn] := ch;
        bufferIn := next;
        accepted := accepted + [ch];
        assert RingNow() == Stored(old(RingNow()), ch);
      } else {
        assert Contents(RingNow()) + [] == Contents(RingNow());
      }
    }

    /** One byte from the ring to the endpoint. */
    method MoveByte() returns (ch: byte)
      requires Valid() && bufferIn != bufferOut
      modifies this`bufferOut, this`pipe, this`fates
      ensures Valid() && RingNow() == Removed(old(RingNow()))
      ensures Contents(old(RingNow())) == [ch] + Contents(RingNow()) && Queued(RingNow()) < Queued(old(RingNow()))
      ensures fates == old(fates) + [FateOf(old(pipe), pipe)]
      ensures Served(old(pipe)) ==> Served(pipe) && pipe.lost == old(pipe).lost
    {
      hide Ledger, Contents, Put, Queued, Sent, Served;
      RemoveExact(RingNow());
      RemoveCounts(RingNow());
      ch := buffer[bufferOut];
      LedgerPut(accepted, fates, pipe, ch, Contents(Removed(RingNow())));
      bufferOut := Inc8(bufferOut);
      pipe := Put(pipe, Uart(ch));
      fates := fates + [FateOf(old(pipe), pipe)];
    }

    /** The first half of CDC_Task: everything in the ring goes to the host. What
        the host then has of the UART is every accepted byte that was not lost or
        thrown away, whatever the program itself has written to the endpoint; and
        none is lost now if it takes every packet in time. */
    method DrainToUsb()
      requires Valid()
      modifies this`bufferOut, this`pipe, this`fates
      ensures Valid() && bufferIn == bufferOut && pipe.bank == [] && old(fates) <= fates
      ensures |fates| == |accepted| && Kept(accepted, fates) == UartOf(Flat(pipe.packets))
      ensures Served(old(pipe)) ==>
                Served(pipe) && forall i :: |old(fates)| <= i < |fates| ==> fates[i].Delivered?
    {
      hide Ledger, Contents, Queued, Sent, Served, Removed;
      ghost var taken := Served(pipe);
      while bufferIn != bufferOut
        invariant Valid() && old(fates) <= fates
        invariant taken ==> Served(pipe) && forall i :: |old(fates)| <= i < |fates| ==> fates[i].Delivered?
        decreases Queued(RingNow())
      {
        var ch := MoveByte();
      }
      EmptyRingContents(RingNow());
      FlushCarries(pipe);
      pipe := UsbTransfer.Flush(pipe);
      LedgerClosed(accepted, fates, pipe);
    }

    /** The answer of CDC_Task to a Ctrl-D of the host: bytes of the program's own,
        which do not disturb those of the UART. */
    method AnswerStatus(bootMode: byte)
      requires Valid()
      modifies this`pipe
      ensures Valid() && pipe == PutAll(old(pipe), [Own('\\' as int), Own('D' as int), Own(bootMode)])
      ensures UartOf(Sent(pipe)) == UartOf(Sent(old(pipe)))
    {
      hide Ledger, Contents, Put, Sent, PutAll;
      ghost var before, rest := pipe, Contents(RingNow());
      LedgerPutOwn(accepted, fates, pipe, rest, '\\' as int);
      pipe := Put(pipe, Own('\\' as int));
      LedgerPutOwn(accepted, fates, pipe, rest, 'D' as int);
      pipe := Put(pipe, Own('D' as int));
      LedgerPutOwn(accepted, fates, pipe, rest, bootMode);
      pipe := Put(pipe, Own(bootMode));
      PutThree(before, Own('\\' as int), Own('D' as int), Own(bootMode));
    }

    /** A turn of the ESP8266 bridge towards the host: a byte is moved, and after a
        SLIP END nothing is left in the bank. */
    method BridgeTurn()
      requires Valid()
      modifies this`bufferOut, this`pipe, this`fates
      ensures Valid() && old(fates) <= fates
      ensures bufferIn == old(bufferOut) ==> pipe == old(pipe) && fates == old(fates) && bufferOut == old(bufferOut)
      ensures bufferIn != old(bufferOut) ==> RingNow() == Removed(old(RingNow())) && |fates| == |old(fates)| + 1
      ensures bufferIn != old(bufferOut) && buffer[old(bufferOut)] == SLIP_END ==>
                && pipe.bank == [] && |fates| <= |accepted|
                && Kept(accepted[..|fates|], fates) == UartOf(Flat(pipe.packets))
    {
      hide Ledger, Contents, Queued, Sent, Served;
      var ch := 0;
      if bufferIn != bufferOut {
        RemoveExact(RingNow());
        ch := MoveByte();
        assert ch == old(buffer[bufferOut]) by {
          assert Contents(old(RingNow()))[0] == ch;
        }
      }
      if ch == SLIP_END {
        FlushCarries(pipe);
        pipe := UsbTransfer.Flush(pipe);
        LedgerFlushed(accepted, fates, pipe, Contents(RingNow()));
      }
    }
  }

  lemma PutThree(p: InPipe<Item>, a: Item, b: Item, c: Item)
    ensures PutAll(p, [a, b, c]) == Put(Put(Put(p, a), b), c)
  {
    hide Put;
    assert [a, b, c] == ([a] + [b]) + [c];
    PutAllSnoc(p, [a] + [b], c);
    PutAllSnoc(p, [a], b);
    PutAllOne(p, a);
  }

  lemma LedgerFlushed(accepted: seq<byte>, fates: seq<Fate>, p: InPipe<Item>, underWay: seq<byte>)
    requires Ledger(accepted, fates, Sent(p), underWay) && p.bank == []
    ensures |fates| <= |accepted| && Kept(accepted[..|fates|], fates) == UartOf(Flat(p.packets))
  {
    assert Flat(p.packets) + [] == Flat(p.packets);
  }
}
