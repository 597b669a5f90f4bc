/** MP2/module/tuxctl-ld.c: the serial line discipline, with its receive and transmit rings and the
    packet scanner of the data callback. */
module TuxLine {
  import opened Common
  import opened TuxScan
  import opened TuxTransmit
  import opened TuxReceive

  /** What a ring holds from start up to end, oldest first. */
  function InRing(buf: seq<byte>, start: int, end: int): seq<byte>
    requires 0 <= start < |buf| && 0 <= end < |buf|
  {
    if start <= end then buf[start..end] else buf[start..] + buf[..end]
  }

  /** One index on, around the ring. */
  lemma Around(i: int)
    requires 0 <= i < TUXCTL_BUFSIZE
    ensures (i + 1) % TUXCTL_BUFSIZE == if i == TUXCTL_BUFSIZE - 1 then 0 else i + 1
  {
  }

  lemma FirstOf(s: seq<byte>, t: seq<byte>)
    requires s != []
    ensures [s[0]] + (s[1..] + t) == s + t
  {
  }

  lemma OneTaken(buf: seq<byte>, start: int, end: int)
    requires |buf| == TUXCTL_BUFSIZE && 0 <= start < |buf| && 0 <= end < |buf| && start != end
    ensures [buf[start]] + InRing(buf, (start + 1) % TUXCTL_BUFSIZE, end) == InRing(buf, start, end)
  {
    Around(start);
    if start < end {
      assert buf[start..end][1..] == buf[start + 1..end];
      FirstOf(buf[start..end], []);
    } else {
      assert buf[start..][1..] == buf[start + 1..] && buf[0..end] == buf[..end];
      FirstOf(buf[start..], buf[..end]);
    }
  }

  /** The next of the bytes that a ring held. */
  lemma NextOut(all: seq<byte>, r: nat, b: byte, rest: seq<byte>)
    requires r < |all| && [b] + rest == all[r..]
    ensures b == all[r] && rest == all[r + 1..] && all[..r + 1] == all[..r] + [b]
  {
    assert rest == all[r..][1..];
  }

  lemma Rejoined(taken: seq<byte>, all: seq<byte>, r: nat)
    requires r <= |all|
    ensures taken + all == taken + all[..r] + all[r..]
  {
  }

  lemma OneStored(buf: seq<byte>, start: int, end: int, b: byte)
    requires |buf| == TUXCTL_BUFSIZE && 0 <= start < |buf| && 0 <= end < |buf| && (end + 1) % TUXCTL_BUFSIZE != start
    ensures InRing(buf[end := b], start, (end + 1) % TUXCTL_BUFSIZE) == InRing(buf, start, end) + [b]
  {
    Around(end);
    if start <= end {
      LastOf(buf, start, end, b);
    } else {
      LastOf(buf, 0, end, b);
      assert buf[end := b][start..] == buf[start..] && buf[0..end] == buf[..end];
    }
  }

  lemma LastOf(buf: seq<byte>, start: int, end: int, b: byte)
    requires 0 <= start <= end < |buf|
    ensures buf[end := b][start..end + 1] == buf[start..end] + [b]
  {
  }

  /** A ring of 64 bytes that holds at most 63: the start and end macros of the driver. */
  class Ring {
    const buf: array<byte>
    var start: int
    var end: int

    ghost predicate Valid()
      reads this
    {
      buf.Length == TUXCTL_BUFSIZE && 0 <= start < TUXCTL_BUFSIZE && 0 <= end < TUXCTL_BUFSIZE
    }

    /** The bytes in the ring, oldest first. */
    ghost function Contents(): seq<byte>
      reads this, buf
      requires Valid()
    {
      InRing(buf[..], start, end)
    }

    constructor ()
      ensures Valid() && Contents() == [] && fresh(buf)
    {
      buf := new byte[TUXCTL_BUFSIZE];
      start, end := 0, 0;
    }

    function Used(): int
      reads this
    {
      if start <= end then end - start else TUXCTL_BUFSIZE + end - start
    }

    function Room(): int
      reads this
    {
      TUXCTL_BUFSIZE - Used() - 1
    }

    predicate Empty()
      reads this
    {
      start == end
    }

    predicate Full()
      reads this
    {
      (end + 1) % TUXCTL_BUFSIZE == start
    }

    /** The macros say what they are named for. */
    lemma Counts()
      requires Valid()
      ensures Used() == |Contents()| && Room() == TUXCTL_BUFSIZE - 1 - |Contents()|
      ensures |Contents()| <= TUXCTL_BUFSIZE - 1 && (Empty() <==> |Contents()| == 0)
      ensures Full() <==> |Contents()| == TUXCTL_BUFSIZE - 1
    {
    }

    /** Store a byte at the end. */
    method Put(b: byte)
      requires Valid() && !Full()
      modifies `end, buf
      ensures Valid() && Contents() == old(Contents()) + [b]
    {
      hide InRing;
      OneStored(buf[..], start, end, b);
      buf[end] := b;
      end := (end + 1) % TUXCTL_BUFSIZE;
    }

    /** kmalloc and the two assignments of tuxctl_ldisc_open: nothing in the ring. */
    method Reset()
      requires Valid()
      modifies `start, `end
      ensures Valid() && Contents() == []
    {
      start, end := 0, 0;
    }

    /** Take the byte at the start. */
    method Get() returns (b: byte)
      requires Valid() && !Empty()
      modifies `start
      ensures Valid() && [b] + Contents() == old(Contents())
    {
      hide InRing;
      b := buf[start];
      OneTaken(buf[..], start, end);
      start := (start + 1) % TUXCTL_BUFSIZE;
    }
  }

  class LineDiscipline {
    const rx: Ring
    const tx: Ring
    const saved: array<byte>
    var nSaved: int
    var attached: bool
    /** The packets passed to tuxctl_handle_packet, the bytes handed to the serial driver, and those of them that it
        took, so far. */
    var packets: seq<seq<byte>>
    var sent: seq<byte>
    var delivered: seq<byte>
    /** The bytes accepted from the serial driver, taken from the receive ring, and accepted from writers. */
    ghost var received: seq<byte>
    ghost var taken: seq<byte>
    ghost var written: seq<byte>

    ghost predicate Rings()
      reads this, rx, tx
    {
      && rx.Valid() && tx.Valid() && rx != tx && rx.buf != tx.buf
      && saved.Length == 2 && saved != rx.buf && saved != tx.buf
    }

    /** Both rings are queues: nothing lost, doubled or reordered between what went in and what came out. What came
        out of the transmit ring was handed to the driver, which need not have taken all of it. */
    ghost predicate Queues()
      reads this, rx, tx, rx.buf, tx.buf
    {
      Rings() && received == taken + rx.Contents() && written == sent + tx.Contents() && |delivered| <= |sent|
    }

    /** The receive side: what waits and what the scanner took. */
    ghost function In(): Receive
      reads `taken, rx, rx.buf
      requires rx.Valid()
    {
      Receive(rx.Contents(), taken)
    }

    /** The transmit side: what waits and what the driver took. */
    ghost function Outgoing(): Transmit
      reads `delivered, tx, tx.buf
      requires tx.Valid()
    {
      Transmit(tx.Contents(), delivered)
    }

    /** Everything that was accepted from writers was taken by the driver or still waits, in order. */
    ghost predicate NothingLost()
      reads this, tx, tx.buf
      requires tx.Valid()
    {
      written == delivered + tx.Contents()
    }

    /** The packets so far are those of the bytes taken so far, and the carry is what that leaves. */
    ghost predicate InStep()
      reads `taken, `packets, `nSaved, saved
    {
      saved.Length == 2 && 0 <= nSaved <= 2 && Scan(taken) == Scanned(packets, saved[..nSaved])
    }

    constructor ()
      ensures Queues() && InStep() && attached && NothingLost() && packets == [] && received == [] && written == []
      ensures fresh(rx) && fresh(rx.buf) && fresh(tx) && fresh(tx.buf) && fresh(saved)
    {
      rx := new Ring();
      tx := new Ring();
      saved := new byte[2];
      nSaved, attached, packets, sent, delivered := 0, true, [], [], [];
      received, taken, written := [], [], [];
    }

    /** tuxctl_ldisc_open once more: both rings are empty, what was in them is forgotten. The carry of the scanner is
        static, so it stays, and the scan goes on where it was. */
    method Open()
      requires Rings() && InStep() && |delivered| <= |sent|
      modifies rx`start, rx`end, tx`start, tx`end, `attached, `received, `written
      ensures Queues() && InStep() && attached && rx.Contents() == [] && tx.Contents() == []
    {
      hide Ring.Contents, Ring.Valid, InStep;
      rx.Reset();
      tx.Reset();
      attached := true;
      received, written := taken, sent;
    }

    /** tuxctl_ldisc_get: up to n bytes, oldest first, into buf from `off` on. */
    method Get(buf: array<byte>, off: nat, n: int) returns (r: int)
      requires Queues() && off <= buf.Length && off + n <= buf.Length && buf != rx.buf && buf != tx.buf
      modifies rx`start, `taken, buf
      ensures Queues() && 0 <= r == (if n < 0 then 0 else Least(n, |old(rx.Contents())|))
      ensures received == old(received) && rx.Contents() == old(rx.Contents())[r..]
      ensures taken == old(taken) + old(rx.Contents())[..r]
      ensures buf[..off + r] == old(buf[..off]) + old(rx.Contents())[..r]
    {
      hide Ring.Contents, Ring.Used, Ring.Empty, Ring.Full, Ring.Room, Ring.Valid;
      r := 0;
      ghost var all := rx.Contents();
      rx.Counts();
      while r < n && !rx.Empty()
        invariant Rings() && 0 <= r <= |all| && (r <= n || r == 0) && rx.Contents() == all[r..]
        invariant buf[..off + r] == old(buf[..off]) + all[..r]
        invariant taken == old(taken) && tx.Contents() == old(tx.Contents())
      {
        rx.Counts();
        var b := rx.Get();
        NextOut(all, r, b, rx.Contents());
        ghost var got := buf[..off + r];
        buf[off + r] := b;
        assert buf[..off + r + 1] == got + [b];
        r := r + 1;
      }
      rx.Counts();
      Rejoined(taken, all, r);
      taken := taken + all[..r];
    }

    /** tuxctl_ldisc_data_callback: scan the carry and what the ring has, up to twelve bytes in all. */
    method DataCallback()
      requires Queues() && InStep()
      modifies rx`start, `taken, `packets, `nSaved, saved
      ensures Queues() && InStep() && received == old(received)
      ensures var m := Least(PACKET_BYTES - old(nSaved), |old(rx.Contents())|);
              taken == old(taken) + old(rx.Contents())[..m]
      ensures In() == Callback(old(In()))
      ensures var m := |taken| - |old(taken)|;
              && 0 <= m <= |old(rx.Contents())| && old(nSaved) + m <= 12
              && (m == |old(rx.Contents())| || old(nSaved) + m == 12)
              && taken == old(taken) + old(rx.Contents())[..m] && rx.Contents() == old(rx.Contents())[m..]
    {
      hide Ring.Contents, Scan;
      ghost var carry, before, seen := saved[..nSaved], taken, packets;
      var packet, n := Gather();
      ghost var got := taken[|before|..];
      assert taken == before + got && packet[..n] == carry + got;
      ScanAppend(before, got);
      var i := ScanPacket(packet, n, seen);
      SaveRest(packet, i, n);
    }

    /** The carry, then bytes from the ring. */
    method Gather() returns (packet: array<byte>, n: int)
      requires Queues() && saved.Length == 2 && 0 <= nSaved <= 2
      modifies rx`start, `taken
      ensures Queues() && received == old(received) && fresh(packet) && packet.Length == PACKET_BYTES
      ensures var m := Least(PACKET_BYTES - nSaved, |old(rx.Contents())|);
              && n == nSaved + m && taken == old(taken) + old(rx.Contents())[..m]
              && rx.Contents() == old(rx.Contents())[m..]
              && packet[..n] == saved[..nSaved] + old(rx.Contents())[..m]
    {
      hide Ring.Contents;
      packet := new byte[PACKET_BYTES];
      var i := 0;
      while i < nSaved
        modifies packet
        invariant 0 <= i <= nSaved && packet[..i] == saved[..i]
      {
        packet[i] := saved[i];
        i := i + 1;
      }
      n := Get(packet, nSaved, PACKET_BYTES - nSaved);
      n := nSaved + n;
    }

    /** What the scan left is the next carry. */
    method SaveRest(packet: array<byte>, i: int, n: int)
      requires 0 <= i <= n <= packet.Length && n - i <= 2 && saved.Length == 2 && packet != saved
      modifies `nSaved, saved
      ensures 0 <= nSaved <= 2 && saved[..nSaved] == packet[i..n]
    {
      nSaved := n - i;
      var j := 0;
      while j < nSaved
        modifies saved
        invariant 0 <= j <= nSaved && saved[..j] == packet[i..i + j]
      {
        saved[j] := packet[i + j];
        j := j + 1;
      }
    }

    /** The scan loop: dispatch framed triples, skip bytes that start none, stop two bytes from the end. */
    method ScanPacket(packet: array<byte>, n: int, ghost seen: seq<seq<byte>>) returns (i: int)
      requires 0 <= n <= packet.Length && packets == seen
      modifies `packets
      ensures 0 <= i <= n && n - i <= 2
      ensures var s := Scan(packet[..n]); packets == seen + s.packets && packet[i..n] == s.rest
    {
      hide Scan;
      i := 0;
      ghost var s := Scan(packet[..n]);
      assert packet[0..n] == packet[..n];
      while i < n - 2
        invariant 0 <= i <= n
        invariant seen + s.packets == packets + Scan(packet[i..n]).packets && s.rest == Scan(packet[i..n]).rest
      {
        ghost var here := packet[i..n];
        ScanOne(here);
        if packet[i] < HIGH_BIT && packet[i + 1] >= HIGH_BIT && packet[i + 2] >= HIGH_BIT {
          assert here[..3] == packet[i..i + 3] && here[3..] == packet[i + 3..n];
          packets := packets + [packet[i..i + 3]];
          i := i + 3;
        } else {
          assert here[1..] == packet[i + 1..n];
          i := i + 1;
        }
      }
      ScanShort(packet[i..n]);
    }

    /** tuxctl_ldisc_rcv_buf: accept what fits of what the serial driver got, then look for packets. */
    method RcvBuf(cp: seq<byte>)
      requires Queues() && InStep()
      modifies rx`end, rx.buf, rx`start, `received, `taken, `packets, `nSaved, saved
      ensures Queues() && InStep() && tx.Contents() == old(tx.Contents())
      ensures received == old(received) + cp[..if attached then Accepted(old(rx.Contents()), cp) else 0]
      ensures attached ==> Fitting(old(rx.Contents()), cp, |received| - |old(received)|)
      ensures In() == (if attached then Arrived(old(In()), cp) else old(In())) && old(taken) <= taken
    {
      hide Ring.Contents, Ring.Valid, InStep, TakenFrom, Accepted, Callback, Fitting;
      if attached {
        Accept(cp);
        DataCallback();
      }
    }

    /** The loop that stores what there is room for. */
    method Accept(cp: seq<byte>)
      requires Queues()
      modifies rx`end, rx.buf, `received
      ensures Queues() && tx.Contents() == old(tx.Contents())
      ensures var m := Accepted(old(rx.Contents()), cp);
              received == old(received) + cp[..m] && rx.Contents() == old(rx.Contents()) + cp[..m]
      ensures Fitting(old(rx.Contents()), cp, |received| - |old(received)|)
    {
      hide Ring.Contents, Ring.Used, Ring.Empty, Ring.Full, Ring.Room, Fitting;
      AcceptedFits(rx.Contents(), cp);
      ghost var held := rx.Contents();
      var c := 0;
      while c < |cp| && !rx.Full()
        invariant 0 <= c <= |cp| && Rings() && rx.Contents() == held + cp[..c]
        invariant received == old(received) && tx.Contents() == old(tx.Contents())
      {
        rx.Counts();
        rx.Put(cp[c]);
        assert cp[..c + 1] == cp[..c] + [cp[c]];
        c := c + 1;
      }
      rx.Counts();
      received := received + cp[..c];
    }

    /** tuxctl_ldisc_write_wakeup: hand bytes to the driver, up to one more than it has room for. The driver takes those
        it has room for; that it took fewer is only logged. */
    method WriteWakeup(room: int)
      requires Queues()
      modifies tx`start, `sent, `delivered
      ensures Queues() && written == old(written)
      ensures sent == old(sent) + old(tx.Contents())[..HandedOver(old(tx.Contents()), room)]
      ensures Outgoing() == WakeUp(old(Outgoing()), room)
      ensures delivered + tx.Contents() == old(delivered + tx.Contents()) <==> !Loses(old(tx.Contents()), room)
      ensures Woke(old(tx.Contents()), old(delivered), room, tx.Contents(), delivered)
    {
      hide Ring.Contents, Ring.Valid, WakeUp, HandedOver, TakenOf, Loses, Woke, Least;
      ghost var before := Outgoing();
      WakeUpMeans(before, room);
      WakeUpLoses(before, room);
      var bytes := Drain(room);
      DriverTakes(before, room, bytes);
      Rejoined(sent, before.queue, |bytes|);
      sent := sent + bytes;
      var accepted := TakenOf(|bytes|, room);
      delivered := delivered + bytes[..accepted];
    }

    /** The loop of a wake-up. */
    method Drain(room: int) returns (bytes: seq<byte>)
      requires Rings()
      modifies tx`start
      ensures Rings() && rx.Contents() == old(rx.Contents())
      ensures |bytes| == HandedOver(old(tx.Contents()), room) && bytes == old(tx.Contents())[..|bytes|]
      ensures var waiting := |old(tx.Contents())|;
              |bytes| == if room < 0 then 0 else if room < waiting then room + 1 else waiting
      ensures tx.Contents() == old(tx.Contents())[|bytes|..]
    {
      hide Ring.Contents, Ring.Used, Ring.Empty, Ring.Full, Ring.Room;
      var buf := new byte[TUXCTL_BUFSIZE];
      var n := 0;
      ghost var all := tx.Contents();
      tx.Counts();
      while n <= room && !tx.Empty()
        invariant Rings() && 0 <= n <= |all| < TUXCTL_BUFSIZE && (n <= room + 1 || n == 0) && tx.Contents() == all[n..]
        invariant buf[..n] == all[..n] && rx.Contents() == old(rx.Contents())
      {
        tx.Counts();
        var b := tx.Get();
        NextOut(all, n, b, tx.Contents());
        buf[n] := b;
        assert buf[..n + 1] == buf[..n] + [b];
        n := n + 1;
      }
      tx.Counts();
      return buf[..n];
    }

    /** tuxctl_ldisc_put: queue what fits and wake the driver up; says how much did not fit. An answer of 0 says that
        everything was queued, and no more: it all waits or was taken exactly if the wake-up lost nothing. */
    method Put(buf: seq<byte>, room: int) returns (left: int)
      requires Queues()
      modifies tx`end, tx.buf, tx`start, `written, `sent, `delivered
      ensures Queues()
      ensures var m := Accepted(old(tx.Contents()), buf);
              && left == |buf| - m && written == old(written) + buf[..m]
              && var all := old(tx.Contents()) + buf[..m];
                 sent == old(sent) + all[..HandedOver(all, room)]
      ensures Outgoing() == WakeUp(Queued(old(Outgoing()), buf), room)
      ensures left == 0 ==> buf[..Accepted(old(tx.Contents()), buf)] == buf
      ensures left == 0 ==> (delivered + tx.Contents() == old(delivered + tx.Contents()) + buf <==>
                             !Loses(old(tx.Contents()) + buf, room))
      ensures var m := |buf| - left;
              && Fitting(old(tx.Contents()), buf, m) && written == old(written) + buf[..m]
              && Woke(old(tx.Contents()) + buf[..m], old(delivered), room, tx.Contents(), delivered)
    {
      hide Ring.Contents, Ring.Used, Ring.Empty, Ring.Full, Ring.Room, Ring.Valid, Woke, Fitting, WakeUp, Loses;
      AcceptedFits(tx.Contents(), buf);
      ghost var held := tx.Contents();
      var n, p := |buf|, 0;
      while n > 0 && !tx.Full()
        invariant 0 <= p <= |buf| && n == |buf| - p && Rings() && tx.Contents() == held + buf[..p]
        invariant written == old(written) && sent == old(sent) && delivered == old(delivered)
        invariant rx.Contents() == old(rx.Contents())
      {
        tx.Counts();
        tx.Put(buf[p]);
        assert buf[..p + 1] == buf[..p] + [buf[p]];
        n, p := n - 1, p + 1;
      }
      tx.Counts();
      written := written + buf[..p];
      assert p == |buf| ==> buf[..p] == buf && delivered + (held + buf) == delivered + held + buf;
      WriteWakeup(room);
      return n;
    }

    /** An interrupt, a write or a wake-up. */
    method Happen(e: Event)
      requires Queues() && InStep()
      modifies rx, rx.buf, tx, tx.buf, this, saved
      ensures Queues() && InStep() && old(taken) <= taken && old(sent) <= sent && attached == old(attached)
      ensures In() == if attached then StepIn(old(In()), e) else old(In())
      ensures Outgoing() == Step(old(Outgoing()), e)
      ensures written ==
              old(written) + if e.Written? then e.buf[..Accepted(old(Outgoing()).queue, e.buf)] else []
    {
      hide Ring.Contents, Ring.Valid, Scan, WakeUp, Queued, Arrived, Accepted, Loses, HandedOver;
      match e {
        case Received(cp) => RcvBuf(cp);
        case Written(buf, room) =>
          var left := Put(buf, room);
        case Woken(room) => WriteWakeup(room);
      }
    }

    /** Any run of interrupts, writes and wake-ups keeps both queues, and delivers exactly the framed triples
        of the bytes taken from the receive ring. On a line that is attached, what is taken and what waits is what
        the events bring, as far as there is room for it, and everything is there exactly if no event brings more bytes
        than there is room for. On the transmit side, nothing that was accepted is missing afterwards
        exactly if nothing was before and no wake-up of the run had less room than bytes waited, and not less than
        none. */
    method Serve(events: seq<Event>)
      requires Queues() && InStep()
      modifies rx, rx.buf, tx, tx.buf, this, saved
      ensures Queues() && InStep() && packets == Windows(taken) && |packets| == |Starts(taken)|
      ensures old(taken) <= taken && old(sent) <= sent && attached == old(attached)
      ensures In() == if attached then AfterIn(old(In()), events) else old(In())
      ensures attached ==> (taken + rx.Contents() == old(taken + rx.Contents()) + Arrivals(events) <==>
                            forall k | 0 <= k < |events| :: !DropsAt(old(In()), events, k))
      ensures Outgoing() == After(old(Outgoing()), events)
      ensures written == old(written) + AcceptedIn(old(Outgoing()), events)
      ensures NothingLost() <==>
              old(NothingLost()) && forall k | 0 <= k < |events| :: !LosesAt(old(Outgoing()), events, k)
    {
      hide Ring.Contents, Ring.Valid, Scan, Windows, Step, StepIn, Accepted, Loses;
      ghost var before, was := Outgoing(), In();
      var k := 0;
      while k < |events|
        invariant 0 <= k <= |events| && Queues() && InStep() && old(taken) <= taken && old(sent) <= sent
        invariant attached == old(attached) && In() == if attached then AfterIn(was, events[..k]) else was
        invariant Outgoing() == After(before, events[..k]) && written == old(written) + AcceptedIn(before, events[..k])
      {
        assert events[..k + 1][..k] == events[..k];
        Happen(events[k]);
        k := k + 1;
      }
      assert events[..k] == events;
      ScanExact(taken);
      WindowsCount(taken);
      NothingDropped(was, events);
      Lossless(before, events);
      NoneLost(old(written), old(sent), before, events);
    }

    /** What was lost before stays lost. */
    lemma NoneLost(w: seq<byte>, s: seq<byte>, t: Transmit, events: seq<Event>)
      requires w == s + t.queue && |t.delivered| <= |s|
      ensures var u := After(t, events);
              w + AcceptedIn(t, events) == u.delivered + u.queue <==>
              w == t.delivered + t.queue && t.delivered + t.queue + AcceptedIn(t, events) == u.delivered + u.queue
    {
      var u, a := After(t, events), AcceptedIn(t, events);
      Conservation(t, events);
      if w + a == u.delivered + u.queue {
        assert Losses(t, events) == 0;
        assert (w + a)[..|w|] == (t.delivered + t.queue + a)[..|w|];
        assert (w + a)[..|w|] == w && (t.delivered + t.queue + a)[..|w|] == t.delivered + t.queue;
      }
    }
  }
}
