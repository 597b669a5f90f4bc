/** The transmit side of MP2/module/tuxctl-ld.c, without its ring: what is queued, what the serial driver
    takes, and which bytes get lost between the two. */
module TuxTransmit {
  import opened Common

  const TUXCTL_BUFSIZE := 64

  function Least(a: int, b: int): int {
    if a < b then a else b
  }

  /** What happens to the line: bytes arrive, bytes are written, or the driver can accept more; room is what
      write_room answers at the wake-up. */
  datatype Event = Received(cp: seq<byte>) | Written(buf: seq<byte>, room: int) | Woken(room: int)

  /** The bytes that wait, and those that the driver took. */
  datatype Transmit = Transmit(queue: seq<byte>, delivered: seq<byte>)

  /** How many bytes a wake-up hands to the driver: the loop stops one byte late. */
  function HandedOver(queue: seq<byte>, room: int): (n: nat)
    ensures n <= |queue|
  {
    if room < 0 then 0 else Least(room + 1, |queue|)
  }

  /** How many bytes a driver takes that is handed n of them: those it has room for. */
  function TakenOf(n: nat, room: int): (m: nat)
    ensures m <= n
  {
    if room < 0 then 0 else Least(room, n)
  }

  /** A wake-up hands over a byte that the driver has no room for. */
  predicate Loses(queue: seq<byte>, room: int) {
    0 <= room < |queue|
  }

  function WakeUp(t: Transmit, room: int): Transmit {
    var n := HandedOver(t.queue, room);
    Transmit(t.queue[n..], t.delivered + t.queue[..TakenOf(n, room)])
  }

  /** One wake-up loses a byte, the one after those there was room for, exactly if there is less room than
      bytes wait, and not less than none. */
  lemma WakeUpLoses(t: Transmit, room: int)
    ensures var u := WakeUp(t, room);
            && (u.delivered + u.queue == t.delivered + t.queue <==> !Loses(t.queue, room))
            && (Loses(t.queue, room) ==>
                  u.delivered + u.queue == t.delivered + t.queue[..room] + t.queue[room + 1..])
  {
    var u := WakeUp(t, room);
    if Loses(t.queue, room) {
      assert |u.delivered + u.queue| == |t.delivered + t.queue| - 1;
    } else {
      assert t.queue == t.queue[..HandedOver(t.queue, room)] + t.queue[HandedOver(t.queue, room)..];
    }
  }

  /** The driver takes the front of what it is handed, which is the front of what waits. */
  lemma DriverTakes(t: Transmit, room: int, bytes: seq<byte>)
    requires bytes == t.queue[..HandedOver(t.queue, room)]
    ensures WakeUp(t, room) == Transmit(t.queue[|bytes|..], t.delivered + bytes[..TakenOf(|bytes|, room)])
  {
    var n := HandedOver(t.queue, room);
    assert t.queue[..n][..TakenOf(n, room)] == t.queue[..TakenOf(n, room)];
  }

  /** How many of the bytes the queue accepts. */
  function Accepted(queue: seq<byte>, buf: seq<byte>): (m: nat)
    ensures m <= |buf|
  {
    if |queue| >= TUXCTL_BUFSIZE then 0 else Least(|buf|, TUXCTL_BUFSIZE - 1 - |queue|)
  }

  /** m is how many bytes of buf there is room for: all of them, or as many as make the ring full. */
  predicate Fitting(queue: seq<byte>, buf: seq<byte>, m: int) {
    && 0 <= m <= |buf| && (m == 0 || |queue| + m <= TUXCTL_BUFSIZE - 1)
    && (m == |buf| || |queue| + m >= TUXCTL_BUFSIZE - 1)
  }

  lemma AcceptedFits(queue: seq<byte>, buf: seq<byte>)
    ensures forall m :: Fitting(queue, buf, m) <==> m == Accepted(queue, buf)
  {
  }

  /** What a wake-up comes to. A driver without any room answers a negative number and is left alone; one with room for
      all gets all; one with less room takes what it has room for, and one byte more is gone. */
  predicate Woke(queue: seq<byte>, delivered: seq<byte>, room: int, queue': seq<byte>, delivered': seq<byte>) {
    if room < 0 then queue' == queue && delivered' == delivered
    else if room < |queue| then queue' == queue[room + 1..] && delivered' == delivered + queue[..room]
    else queue' == [] && delivered' == delivered + queue
  }

  lemma WakeUpMeans(t: Transmit, room: int)
    ensures Woke(t.queue, t.delivered, room, WakeUp(t, room).queue, WakeUp(t, room).delivered)
  {
  }

  function Queued(t: Transmit, buf: seq<byte>): Transmit {
    t.(queue := t.queue + buf[..Accepted(t.queue, buf)])
  }

  function Step(t: Transmit, e: Event): Transmit {
    match e
    case Received(_) => t
    case Written(buf, room) => WakeUp(Queued(t, buf), room)
    case Woken(room) => WakeUp(t, room)
  }

  /** The event's wake-up, if it has one, loses a byte. */
  predicate LosesIn(t: Transmit, e: Event) {
    match e
    case Received(_) => false
    case Written(buf, room) => Loses(Queued(t, buf).queue, room)
    case Woken(room) => Loses(t.queue, room)
  }

  function After(t: Transmit, events: seq<Event>): Transmit {
    if events == [] then t else Step(After(t, events[..|events| - 1]), events[|events| - 1])
  }

  /** What the queue accepts during the events. */
  function AcceptedIn(t: Transmit, events: seq<Event>): seq<byte> {
    if events == [] then []
    else
      var early, e := events[..|events| - 1], events[|events| - 1];
      AcceptedIn(t, early) + if e.Written? then e.buf[..Accepted(After(t, early).queue, e.buf)] else []
  }

  /** How many wake-ups lose a byte. */
  function Losses(t: Transmit, events: seq<Event>): nat {
    if events == [] then 0
    else
      var early, e := events[..|events| - 1], events[|events| - 1];
      Losses(t, early) + if LosesIn(After(t, early), e) then 1 else 0
  }

  /** Every byte that was accepted waits, was taken, or was lost in a wake-up, one at a time; nothing else goes
      missing, and without a loss the order is kept as well. */
  lemma {:induction false} Conservation(t: Transmit, events: seq<Event>)
    ensures var u := After(t, events);
            && |t.delivered| + |t.queue| + |AcceptedIn(t, events)| == |u.delivered| + |u.queue| + Losses(t, events)
            && (Losses(t, events) == 0 ==>
                  t.delivered + t.queue + AcceptedIn(t, events) == u.delivered + u.queue)
  {
    hide WakeUp;
    if events != [] {
      var early, e := events[..|events| - 1], events[|events| - 1];
      var mid := After(t, early);
      Conservation(t, early);
      match e {
        case Received(_) =>
        case Written(buf, room) =>
          WakeUpLoses(Queued(mid, buf), room);
          var more := buf[..Accepted(mid.queue, buf)];
          assert t.delivered + t.queue + (AcceptedIn(t, early) + more) ==
                 t.delivered + t.queue + AcceptedIn(t, early) + more;
          assert mid.delivered + (mid.queue + more) == mid.delivered + mid.queue + more;
        case Woken(room) =>
          WakeUpLoses(mid, room);
      }
    }
  }

  /** The k-th event loses a byte. */
  predicate LosesAt(t: Transmit, events: seq<Event>, k: nat)
    requires k < |events|
  {
    LosesIn(After(t, events[..k]), events[k])
  }

  lemma {:induction false} LossesZero(t: Transmit, events: seq<Event>)
    ensures Losses(t, events) == 0 <==> forall k | 0 <= k < |events| :: !LosesAt(t, events, k)
  {
    hide LosesIn, After;
    if events != [] {
      var early, last := events[..|events| - 1], |events| - 1;
      LossesZero(t, early);
      forall k | 0 <= k < last ensures LosesAt(t, early, k) == LosesAt(t, events, k) {
        assert early[..k] == events[..k];
      }
      assert LosesAt(t, events, last) == LosesIn(After(t, early), events[last]);
    }
  }

  /** Over a run, what was accepted is what was taken and what waits, exactly if no wake-up had less room than bytes
      waited, and not less than none. */
  lemma Lossless(t: Transmit, events: seq<Event>)
    ensures var u := After(t, events);
            t.delivered + t.queue + AcceptedIn(t, events) == u.delivered + u.queue <==>
            forall k | 0 <= k < |events| :: !LosesAt(t, events, k)
  {
    hide After, LosesAt, AcceptedIn;
    Conservation(t, events);
    LossesZero(t, events);
  }

  /** The wake-up of the event, if it has one, comes with room for all that waits then. */
  ghost predicate RoomFor(t: Transmit, e: Event) {
    match e
    case Received(_) => true
    case Written(buf, room) => forall m :: Fitting(t.queue, buf, m) ==> |t.queue| + m <= room
    case Woken(room) => |t.queue| <= room
  }

  /** After an event whose wake-up comes with room for all, nothing waits, and all of it was taken. */
  lemma RoomForAll(t: Transmit, e: Event)
    requires RoomFor(t, e) && !e.Received?
    ensures var more := if e.Written? then e.buf else [];
            forall m :: Fitting(t.queue, more, m) ==> Step(t, e) == Transmit([], t.delivered + (t.queue + more[..m]))
  {
    hide WakeUp, Fitting, Accepted;
    match e
    case Written(buf, room) =>
      AcceptedFits(t.queue, buf);
      WakeUpMeans(Queued(t, buf), room);
    case Woken(room) =>
      AcceptedFits(t.queue, []);
      WakeUpMeans(t, room);
  }

  /** Over a run of such events, from an empty ring, the driver takes at once all that is accepted. */
  lemma {:induction false} TakenAtOnce(t: Transmit, events: seq<Event>)
    requires t.queue == [] && forall k | 0 <= k < |events| :: RoomFor(After(t, events[..k]), events[k])
    ensures After(t, events) == Transmit([], t.delivered + AcceptedIn(t, events))
  {
    hide Step, RoomFor, Fitting, Accepted;
    if events != [] {
      var early, e := events[..|events| - 1], events[|events| - 1];
      assert events[..|events| - 1] == early;
      forall k | 0 <= k < |early| ensures RoomFor(After(t, early[..k]), early[k]) {
        assert early[..k] == events[..k];
      }
      TakenAtOnce(t, early);
      OneAtOnce(After(t, early), e);
    }
  }

  lemma OneAtOnce(t: Transmit, e: Event)
    requires t.queue == [] && RoomFor(t, e)
    ensures Step(t, e) ==
            Transmit([], t.delivered + if e.Written? then e.buf[..Accepted(t.queue, e.buf)] else [])
  {
    hide WakeUp, Fitting, Accepted;
    var more := if e.Written? then e.buf else [];
    AcceptedFits(t.queue, more);
    if !e.Received? {
      RoomForAll(t, e);
      var m := Accepted(t.queue, more);
      assert Fitting(t.queue, more, m) && t.queue + more[..m] == more[..m];
    }
  }

  /** A byte is written while the driver has no room: put accepts it and answers 0, and it is gone. */
  lemma ByteLost(b: byte)
    ensures var t, e := Transmit([], []), Written([b], 0);
            LosesIn(t, e) && Accepted(t.queue, e.buf) == 1 && After(t, [e]) == Transmit([], [])
  {
    assert [Written([b], 0)][..0] == [];
  }
}
