/** Packets in the byte stream of the Tux controller (MP2/module/mtcp.h): three bytes whose high
    bits are 0, 1, 1. The scan that resynchronises on them, against a plain sliding window. */
module TuxScan {
  import opened Common

  const HIGH_BIT := 0x80

  /** A packet starts at position i. */
  predicate FramedAt(s: seq<byte>, i: int) {
    0 <= i <= |s| - 3 && s[i] < HIGH_BIT && s[i + 1] >= HIGH_BIT && s[i + 2] >= HIGH_BIT
  }

  datatype Scanned = Scanned(packets: seq<seq<byte>>, rest: seq<byte>)

  /** The scan of the data callback: skip three bytes after a packet, one byte otherwise, and
      keep what is too short to decide. */
  function Scan(s: seq<byte>): Scanned {
    if |s| < 3 then Scanned([], s)
    else if FramedAt(s, 0) then var r := Scan(s[3..]); Scanned([s[..3]] + r.packets, r.rest)
    else Scan(s[1..])
  }

  /** Every framed triple of the stream, wherever it starts, in order. */
  function Windows(s: seq<byte>): seq<seq<byte>> {
    if |s| < 3 then []
    else Windows(s[..|s| - 1]) + if FramedAt(s, |s| - 3) then [s[|s| - 3..]] else []
  }

  lemma ScanShort(s: seq<byte>)
    ensures |s| < 3 ==> Scan(s).packets == [] && Scan(s).rest == s
  {
  }

  lemma ScanOne(s: seq<byte>)
    requires |s| >= 3
    ensures FramedAt(s, 0) ==> Scan(s) == Scanned([s[..3]] + Scan(s[3..]).packets, Scan(s[3..]).rest)
    ensures !FramedAt(s, 0) ==> Scan(s) == Scan(s[1..])
  {
  }

  lemma WindowsOne(s: seq<byte>)
    requires |s| >= 3
    ensures Windows(s) == Windows(s[..|s| - 1]) + if FramedAt(s, |s| - 3) then [s[|s| - 3..]] else []
    ensures |s| == 3 ==> Windows(s[..|s| - 1]) == []
  {
  }

  /** What is left over is at most two bytes, the last ones of the stream. */
  lemma {:induction false} ScanRest(s: seq<byte>)
    ensures |Scan(s).rest| <= 2 && |Scan(s).rest| <= |s|
    ensures s[|s| - |Scan(s).rest|..] == Scan(s).rest
  {
    if |s| >= 3 {
      var k := if FramedAt(s, 0) then 3 else 1;
      ScanRest(s[k..]);
      var r := Scan(s).rest;
      assert r == Scan(s[k..]).rest;
      assert s[k..][|s[k..]| - |r|..] == s[|s| - |r|..];
    }
  }

  /** Scanning in pieces, carrying the rest over, is scanning the whole. */
  lemma {:induction false} ScanAppend(s: seq<byte>, t: seq<byte>)
    ensures var a := Scan(s); var b := Scan(a.rest + t);
            Scan(s + t) == Scanned(a.packets + b.packets, b.rest)
  {
    hide Scan;
    ScanShort(s);
    if |s| >= 3 {
      var k := if FramedAt(s, 0) then 3 else 1;
      ScanAppend(s[k..], t);
      ScanOne(s);
      ScanOne(s + t);
      assert (s + t)[k..] == s[k..] + t;
      var b := Scan(Scan(s).rest + t);
      if k == 3 {
        assert FramedAt(s + t, 0) && (s + t)[..3] == s[..3];
        assert [s[..3]] + (Scan(s[3..]).packets + b.packets) == Scan(s).packets + b.packets;
      } else {
        assert !FramedAt(s + t, 0);
      }
    }
  }

  /** The framed triples seen from the front. */
  lemma {:induction false} WindowsFront(s: seq<byte>)
    requires |s| >= 3
    ensures Windows(s) == (if FramedAt(s, 0) then [s[..3]] else []) + Windows(s[1..])
  {
    var n := |s| - 1;
    WindowsOne(s);
    if n == 2 {
      assert s[n - 2..] == s && s[..3] == s;
      assert Windows(s[1..]) == [];
    } else {
      hide Windows;
      WindowsFront(s[..n]);
      WindowsOne(s[1..]);
      assert s[..n][..3] == s[..3];
      assert s[..n][1..] == s[1..][..n - 1];
      assert s[1..][n - 3..] == s[n - 2..];
      assert FramedAt(s[1..], n - 3) == FramedAt(s, n - 2);
    }
  }

  /** The scan delivers exactly the framed triples of the stream, each once and in order. */
  lemma {:induction false} ScanExact(s: seq<byte>)
    ensures Scan(s).packets == Windows(s)
  {
    if |s| >= 3 {
      WindowsFront(s);
      if FramedAt(s, 0) {
        ScanExact(s[3..]);
        AfterPacket(s);
      } else {
        ScanExact(s[1..]);
      }
    }
  }

  /** No framed triple starts inside another. */
  lemma AfterPacket(s: seq<byte>)
    requires FramedAt(s, 0)
    ensures Windows(s[1..]) == Windows(s[3..])
  {
    assert s[1..][1..] == s[2..] && s[2..][1..] == s[3..];
    if |s| >= 4 {
      WindowsFront(s[1..]);
    }
    if |s| >= 5 {
      WindowsFront(s[2..]);
    }
  }

  /** Each delivered packet is a framed triple that is in the stream. */
  lemma {:induction false} WindowsFramed(s: seq<byte>, k: int)
    requires 0 <= k < |Windows(s)|
    ensures exists i :: FramedAt(s, i) && Windows(s)[k] == s[i..i + 3]
  {
    var n := |s| - 1;
    if k < |Windows(s[..n])| {
      WindowsFramed(s[..n], k);
      var i :| FramedAt(s[..n], i) && Windows(s[..n])[k] == s[..n][i..i + 3];
      assert s[..n][i..i + 3] == s[i..i + 3];
      assert FramedAt(s, i);
    } else {
      assert s[n - 2..] == s[n - 2..n - 2 + 3];
      assert FramedAt(s, n - 2);
    }
  }

  /** The positions of the stream where a framed triple starts. */
  ghost function Starts(s: seq<byte>): set<int> {
    set i | 0 <= i < |s| && FramedAt(s, i)
  }

  lemma StartsOne(s: seq<byte>)
    requires |s| >= 3
    ensures Starts(s) == Starts(s[..|s| - 1]) + if FramedAt(s, |s| - 3) then {|s| - 3} else {}
    ensures |s| - 3 !in Starts(s[..|s| - 1])
  {
    var n := |s| - 1;
    forall i ensures i in Starts(s) <==> i in Starts(s[..n]) + if FramedAt(s, n - 2) then {n - 2} else {} {
      assert 0 <= i < n - 2 ==> FramedAt(s[..n], i) == FramedAt(s, i);
    }
  }

  /** Each of them is delivered once: there are as many packets. */
  lemma {:induction false} WindowsCount(s: seq<byte>)
    ensures |Windows(s)| == |Starts(s)|
  {
    if |s| < 3 {
      assert Starts(s) == {};
    } else {
      hide Windows, Starts;
      WindowsCount(s[..|s| - 1]);
      WindowsOne(s);
      StartsOne(s);
    }
  }

  function Flatten(chunks: seq<seq<byte>>): seq<byte> {
    if chunks == [] then [] else Flatten(chunks[..|chunks| - 1]) + chunks[|chunks| - 1]
  }

  /** What a run of callbacks delivers: each scans the carry of the last before its own bytes. */
  function Fed(chunks: seq<seq<byte>>): Scanned {
    if chunks == [] then Scanned([], [])
    else
      var a := Fed(chunks[..|chunks| - 1]);
      var b := Scan(a.rest + chunks[|chunks| - 1]);
      Scanned(a.packets + b.packets, b.rest)
  }

  /** However a stream is cut into interrupts, exactly its framed triples are delivered, once each and in order. */
  lemma {:induction false} ChunkingIrrelevant(chunks: seq<seq<byte>>)
    ensures Fed(chunks) == Scan(Flatten(chunks))
    ensures Fed(chunks).packets == Windows(Flatten(chunks)) && |Fed(chunks).rest| <= 2
  {
    if chunks == [] {
      assert Scan([]) == Scanned([], []);
    } else {
      ChunkingIrrelevant(chunks[..|chunks| - 1]);
      ScanAppend(Flatten(chunks[..|chunks| - 1]), chunks[|chunks| - 1]);
    }
    ScanExact(Flatten(chunks));
    ScanRest(Flatten(chunks));
  }
}
