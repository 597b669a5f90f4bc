/** The receive side of MP2/module/tuxctl-ld.c, without its ring: what arrives, what waits, and what the scanner has
    taken. */
module TuxReceive {
  import opened Common
  import opened TuxScan
  import opened TuxTransmit

  const PACKET_BYTES := 12

  /** The bytes that wait to be scanned, and those that the scanner took. */
  datatype Receive = Receive(queue: seq<byte>, taken: seq<byte>)

  /** How many bytes one callback takes: what fits its packet buffer behind the carry. */
  function TakenFrom(r: Receive): (n: nat)
    ensures n <= |r.queue|
  {
    ScanRest(r.taken);
    Least(PACKET_BYTES - |Scan(r.taken).rest|, |r.queue|)
  }

  function Callback(r: Receive): Receive {
    Receive(r.queue[TakenFrom(r)..], r.taken + r.queue[..TakenFrom(r)])
  }

  /** An interrupt brings bytes: those there is room for are queued, and a callback follows. */
  function Arrived(r: Receive, cp: seq<byte>): Receive {
    Callback(r.(queue := r.queue + cp[..Accepted(r.queue, cp)]))
  }

  function StepIn(r: Receive, e: Event): Receive {
    if e.Received? then Arrived(r, e.cp) else r
  }

  function AfterIn(r: Receive, events: seq<Event>): Receive {
    if events == [] then r else StepIn(AfterIn(r, events[..|events| - 1]), events[|events| - 1])
  }

  /** Everything that arrives during the events. */
  function Arrivals(events: seq<Event>): seq<byte> {
    if events == [] then []
    else
      var e := events[|events| - 1];
      Arrivals(events[..|events| - 1]) + if e.Received? then e.cp else []
  }

  /** The k-th event brings more bytes than there is room for. */
  predicate DropsAt(r: Receive, events: seq<Event>, k: nat)
    requires k < |events|
  {
    events[k].Received? && Accepted(AfterIn(r, events[..k]).queue, events[k].cp) < |events[k].cp|
  }

  /** How many bytes find no room during the events. */
  function Dropped(r: Receive, events: seq<Event>): nat {
    if events == [] then 0
    else
      var early, e := events[..|events| - 1], events[|events| - 1];
      Dropped(r, early) + if e.Received? then |e.cp| - Accepted(AfterIn(r, early).queue, e.cp) else 0
  }

  lemma {:induction false} DroppedZero(r: Receive, events: seq<Event>)
    ensures Dropped(r, events) == 0 <==> forall k | 0 <= k < |events| :: !DropsAt(r, events, k)
  {
    hide AfterIn, Accepted;
    if events != [] {
      var early, last := events[..|events| - 1], |events| - 1;
      DroppedZero(r, early);
      forall k | 0 <= k < last ensures DropsAt(r, early, k) == DropsAt(r, events, k) {
        assert early[..k] == events[..k];
      }
      assert DropsAt(r, events, last) <==>
             events[last].Received? && Accepted(AfterIn(r, early).queue, events[last].cp) < |events[last].cp|;
    }
  }

  lemma CallbackKeeps(r: Receive)
    ensures Callback(r).taken + Callback(r).queue == r.taken + r.queue
  {
    assert r.queue == r.queue[..TakenFrom(r)] + r.queue[TakenFrom(r)..];
  }

  /** Every byte that arrives is taken, waits, or finds no room; without such a byte the order is kept as well. */
  lemma {:induction false} ConservationIn(r: Receive, events: seq<Event>)
    ensures var s := AfterIn(r, events);
            && |r.taken| + |r.queue| + |Arrivals(events)| == |s.taken| + |s.queue| + Dropped(r, events)
            && (Dropped(r, events) == 0 ==> r.taken + r.queue + Arrivals(events) == s.taken + s.queue)
  {
    hide Callback, Accepted;
    if events != [] {
      var early, e := events[..|events| - 1], events[|events| - 1];
      var mid := AfterIn(r, early);
      ConservationIn(r, early);
      if e.Received? {
        var more := e.cp[..Accepted(mid.queue, e.cp)];
        CallbackKeeps(mid.(queue := mid.queue + more));
        assert mid.taken + (mid.queue + more) == mid.taken + mid.queue + more;
        assert r.taken + r.queue + (Arrivals(early) + e.cp) == r.taken + r.queue + Arrivals(early) + e.cp;
      }
    }
  }

  /** Over a run, what arrived was taken or waits, in order, exactly if no event brought more bytes than there was room
      for. */
  lemma NothingDropped(r: Receive, events: seq<Event>)
    ensures var s := AfterIn(r, events);
            r.taken + r.queue + Arrivals(events) == s.taken + s.queue <==>
            forall k | 0 <= k < |events| :: !DropsAt(r, events, k)
  {
    hide AfterIn, DropsAt, Arrivals;
    ConservationIn(r, events);
    DroppedZero(r, events);
  }

  /** 64 bytes in one interrupt are one more than an empty ring has room for. */
  lemma BurstDropped(cp: seq<byte>)
    requires |cp| == TUXCTL_BUFSIZE
    ensures DropsAt(Receive([], []), [Received(cp)], 0) && Dropped(Receive([], []), [Received(cp)]) == 1
  {
    assert [Received(cp)][..0] == [];
  }

  /** What a callback takes: behind the carry, as many bytes as make twelve, or all that wait. */
  lemma CallbackTakes(r: Receive)
    ensures var m, carry := |Callback(r).taken| - |r.taken|, |Scan(r.taken).rest|;
            && 0 <= m <= |r.queue| && carry + m <= 12 && (m == |r.queue| || carry + m == 12)
            && Callback(r) == Receive(r.queue[m..], r.taken + r.queue[..m])
  {
    ScanRest(r.taken);
  }

  /** Bursts of at most ten bytes are scanned at once, whatever the carry, so after any run of them nothing waits. */
  lemma {:induction false} ShortBursts(r: Receive, events: seq<Event>)
    requires r.queue == [] && forall e | e in events && e.Received? :: |e.cp| <= 10
    ensures AfterIn(r, events) == Receive([], r.taken + Arrivals(events))
  {
    hide Callback, Accepted;
    if events != [] {
      var early, e := events[..|events| - 1], events[|events| - 1];
      ShortBursts(r, early);
      if e.Received? {
        var mid := AfterIn(r, early);
        AcceptedFits(mid.queue, e.cp);
        assert Fitting(mid.queue, e.cp, |e.cp|);
        assert mid.queue + e.cp[..|e.cp|] == e.cp;
        CallbackTakes(mid.(queue := e.cp));
        ScanRest(mid.taken);
        assert r.taken + (Arrivals(early) + e.cp) == r.taken + Arrivals(early) + e.cp;
      }
    }
  }
}
