/** What a terminal should show: its transcript, wrapped at 80 columns, of which a screen of 25 rows
    shows the end. */
module ConsoleText {
  import opened Common

  const NUM_COLS := 80
  const NUM_ROWS := 25
  const BLANK: byte := 32
  const NEWLINE: byte := 10
  const RETURN: byte := 13
  const PROMPT: byte := 62

  type Lines = ls: seq<seq<byte>> | ls != [] witness [[]]

  function NewLine(ls: Lines): Lines {
    ls + [[]]
  }

  /** A character at the end of the last line. */
  function AddChar(ls: Lines, c: byte): Lines {
    ls[|ls| - 1 := ls[|ls| - 1] + [c]]
  }

  /** The lines after one more character: line ends start a line, and so does a full line. */
  function Type(ls: Lines, c: byte): Lines {
    if c == NEWLINE || c == RETURN then NewLine(ls)
    else if |ls[|ls| - 1]| + 1 == NUM_COLS then NewLine(AddChar(ls, c))
    else AddChar(ls, c)
  }

  /** The unbounded transcript as lines. */
  function Layout(text: seq<byte>): Lines {
    if text == [] then [[]] else Type(Layout(text[..|text| - 1]), text[|text| - 1])
  }

  /** The last line has room, and no line is longer than the screen is wide. */
  ghost predicate Wrapped(ls: Lines) {
    |ls[|ls| - 1]| < NUM_COLS && forall k | 0 <= k < |ls| :: |ls[k]| <= NUM_COLS
  }

  lemma TypeWrapped(ls: Lines, c: byte)
    requires Wrapped(ls)
    ensures Wrapped(Type(ls, c))
  {
  }

  lemma {:induction false} LayoutWrapped(text: seq<byte>)
    ensures Wrapped(Layout(text))
  {
    if text != [] {
      LayoutWrapped(text[..|text| - 1]);
      TypeWrapped(Layout(text[..|text| - 1]), text[|text| - 1]);
    }
  }

  /** All lines one after another. */
  function Joined(ls: seq<seq<byte>>): seq<byte> {
    if ls == [] then [] else Joined(ls[..|ls| - 1]) + ls[|ls| - 1]
  }

  /** A text without its line ends. */
  function Printed(text: seq<byte>): seq<byte> {
    if text == [] then []
    else
      var c := text[|text| - 1];
      Printed(text[..|text| - 1]) + if c == NEWLINE || c == RETURN then [] else [c]
  }

  lemma JoinedMore(ps: seq<seq<byte>>, p: seq<byte>)
    ensures Joined(ps + [p]) == Joined(ps) + p
  {
    assert (ps + [p])[..|ps|] == ps;
  }

  lemma NothingJoined()
    ensures Joined([[]]) == []
  {
    assert Joined([]) == [];
  }

  /** Wrapping loses no character and puts none out of order. */
  lemma {:induction false} LayoutKeepsText(text: seq<byte>)
    ensures Joined(Layout(text)) == Printed(text)
  {
    hide Joined;
    if text == [] {
      NothingJoined();
    } else {
      var ls, c := Layout(text[..|text| - 1]), text[|text| - 1];
      LayoutKeepsText(text[..|text| - 1]);
      var front, last := ls[..|ls| - 1], ls[|ls| - 1];
      assert ls == front + [last] && AddChar(ls, c) == front + [last + [c]];
      JoinedMore(front, last);
      JoinedMore(front, last + [c]);
      JoinedMore(ls, []);
      JoinedMore(AddChar(ls, c), []);
    }
  }

  predicate LineEnd(c: byte) {
    c == NEWLINE || c == RETURN
  }

  /** Without line ends. */
  ghost predicate Plain(p: seq<byte>) {
    forall k | 0 <= k < |p| :: !LineEnd(p[k])
  }

  /** A text cut at its line ends. */
  function Paragraphs(text: seq<byte>): (ps: seq<seq<byte>>)
    ensures ps != []
  {
    if text == [] then [[]]
    else
      var ps, c := Paragraphs(text[..|text| - 1]), text[|text| - 1];
      if LineEnd(c) then ps + [[]] else ps[..|ps| - 1] + [ps[|ps| - 1] + [c]]
  }

  /** A paragraph cut into rows of 80 and one that is shorter. */
  function Cut(p: seq<byte>): (ls: Lines)
    decreases |p|
  {
    if |p| < NUM_COLS then [p] else [p[..NUM_COLS]] + Cut(p[NUM_COLS..])
  }

  function Flow(ps: seq<seq<byte>>): seq<seq<byte>> {
    if ps == [] then [] else Flow(ps[..|ps| - 1]) + Cut(ps[|ps| - 1])
  }

  /** Where each character of a paragraph goes: row by row, 80 to a row. */
  lemma CutIs(p: seq<byte>)
    ensures |Cut(p)| == |p| / NUM_COLS + 1
    ensures forall k | 0 <= k < |Cut(p)| ::
              |Cut(p)[k]| == if k < |p| / NUM_COLS then NUM_COLS else |p| % NUM_COLS
    ensures forall k | 0 <= k < |p| :: Cut(p)[k / NUM_COLS][k % NUM_COLS] == p[k]
  {
    hide Cut;
    CutSizes(p);
    forall k | 0 <= k < |p| ensures Cut(p)[k / NUM_COLS][k % NUM_COLS] == p[k] {
      CutAt(p, k);
    }
  }

  lemma {:induction false} CutSizes(p: seq<byte>)
    ensures |Cut(p)| == |p| / NUM_COLS + 1
    ensures forall k | 0 <= k < |Cut(p)| ::
              |Cut(p)[k]| == if k < |p| / NUM_COLS then NUM_COLS else |p| % NUM_COLS
    decreases |p|
  {
    if |p| >= NUM_COLS {
      RowLater(|p|);
      CutSizes(p[NUM_COLS..]);
    }
  }

  lemma RowLater(k: nat)
    requires NUM_COLS <= k
    ensures k / NUM_COLS == (k - NUM_COLS) / NUM_COLS + 1 && k % NUM_COLS == (k - NUM_COLS) % NUM_COLS
  {
  }

  lemma {:induction false} CutAt(p: seq<byte>, k: nat)
    requires k < |p|
    ensures k / NUM_COLS < |Cut(p)| && k % NUM_COLS < |Cut(p)[k / NUM_COLS]|
    ensures Cut(p)[k / NUM_COLS][k % NUM_COLS] == p[k]
    decreases |p|
  {
    if k >= NUM_COLS {
      RowLater(k);
      CutAt(p[NUM_COLS..], k - NUM_COLS);
    }
  }

  /** One character more of a paragraph. */
  lemma {:induction false} CutMore(p: seq<byte>, c: byte)
    ensures var ls := AddChar(Cut(p), c);
            Cut(p + [c]) == if |ls[|ls| - 1]| == NUM_COLS then NewLine(ls) else ls
    decreases |p|
  {
    if |p| >= NUM_COLS {
      var q := p[NUM_COLS..];
      CutMore(q, c);
      assert (p + [c])[..NUM_COLS] == p[..NUM_COLS] && (p + [c])[NUM_COLS..] == q + [c];
      assert AddChar(Cut(p), c) == [p[..NUM_COLS]] + AddChar(Cut(q), c);
    } else if |p| + 1 == NUM_COLS {
      assert (p + [c])[..NUM_COLS] == p + [c] && (p + [c])[NUM_COLS..] == [];
    }
  }

  lemma FlowMore(ps: seq<seq<byte>>, p: seq<byte>)
    ensures Flow(ps + [p]) == Flow(ps) + Cut(p)
  {
    hide Cut;
    assert (ps + [p])[..|ps|] == ps;
  }

  /** The transcript is its paragraphs, one after another, each cut into rows: every line end closes one line, and
      apart from these only a full row does. */
  lemma {:induction false} LayoutIs(text: seq<byte>)
    ensures Layout(text) == Flow(Paragraphs(text))
  {
    hide Flow, Cut, AddChar;
    if text == [] {
      FlowOne([]);
      EmptyRow();
    } else {
      var early, c := text[..|text| - 1], text[|text| - 1];
      LayoutIs(early);
      var ps := Paragraphs(early);
      if LineEnd(c) {
        FlowMore(ps, []);
        EmptyRow();
      } else {
        LongerParagraph(ps, c);
      }
    }
  }

  lemma FlowOne(p: seq<byte>)
    ensures Flow([p]) == Cut(p)
  {
    hide Cut;
    assert [p][..0] == [] && Flow([p][..0]) == [];
  }

  lemma EmptyRow()
    ensures Cut([]) == [[]]
  {
  }

  /** One character more of the last paragraph. */
  lemma LongerParagraph(ps: seq<seq<byte>>, c: byte)
    requires ps != [] && Flow(ps) != [] && !LineEnd(c)
    ensures Flow(ps[..|ps| - 1] + [ps[|ps| - 1] + [c]]) == Type(Flow(ps), c)
  {
    hide Flow, Cut, NewLine, AddChar;
    var front, last := ps[..|ps| - 1], ps[|ps| - 1];
    assert ps == front + [last];
    FlowMore(front, last);
    FlowMore(front, last + [c]);
    CutMore(last, c);
    AddedBehind(Flow(front), Cut(last), c);
  }

  lemma AddedBehind(front: seq<seq<byte>>, ls: Lines, c: byte)
    ensures AddChar(front + ls, c) == front + AddChar(ls, c)
    ensures NewLine(AddChar(front + ls, c)) == front + NewLine(AddChar(ls, c))
    ensures |(front + ls)[|front + ls| - 1]| + 1 == |AddChar(ls, c)[|AddChar(ls, c)| - 1]|
  {
  }

  /** A line end puts one empty line behind what was there. */
  lemma LineEndStarts(text: seq<byte>, c: byte)
    requires LineEnd(c)
    ensures Layout(text + [c]) == Layout(text) + [[]]
  {
    assert (text + [c])[..|text|] == text;
  }

  /** A text without line ends: character k is in line k / 80 at column k % 80. */
  lemma Unbroken(text: seq<byte>)
    requires Plain(text)
    ensures |Layout(text)| == |text| / NUM_COLS + 1
    ensures forall k | 0 <= k < |Layout(text)| ::
              |Layout(text)[k]| == if k < |text| / NUM_COLS then NUM_COLS else |text| % NUM_COLS
    ensures forall k | 0 <= k < |text| :: Layout(text)[k / NUM_COLS][k % NUM_COLS] == text[k]
  {
    LayoutIs(text);
    OneParagraph(text);
    FlowOne(text);
    CutIs(text);
  }

  lemma {:induction false} OneParagraph(text: seq<byte>)
    requires Plain(text)
    ensures Paragraphs(text) == [text]
  {
    if text != [] {
      OneParagraph(text[..|text| - 1]);
      assert text == text[..|text| - 1] + [text[|text| - 1]];
    }
  }

  /** No paragraph holds a line end, and there is one more of them than line ends. */
  lemma {:induction false} ParagraphsAre(text: seq<byte>)
    ensures forall j | 0 <= j < |Paragraphs(text)| :: Plain(Paragraphs(text)[j])
    ensures |Paragraphs(text)| == LineEnds(text) + 1
  {
    if text != [] {
      ParagraphsAre(text[..|text| - 1]);
    }
  }

  /** Together they are the text without its line ends. */
  lemma {:induction false} ParagraphsJoin(text: seq<byte>)
    ensures Joined(Paragraphs(text)) == Printed(text)
  {
    hide Joined;
    if text == [] {
      NothingJoined();
    } else {
      var early, c := text[..|text| - 1], text[|text| - 1];
      ParagraphsJoin(early);
      var ps := Paragraphs(early);
      var front, last := ps[..|ps| - 1], ps[|ps| - 1];
      assert ps == front + [last];
      JoinedMore(ps, []);
      JoinedMore(front, last);
      JoinedMore(front, last + [c]);
    }
  }

  function LineEnds(text: seq<byte>): nat {
    if text == [] then 0 else LineEnds(text[..|text| - 1]) + if LineEnd(text[|text| - 1]) then 1 else 0
  }

  lemma UnbrokenLine(text: seq<byte>, r: nat)
    requires Plain(text)
    ensures |Layout(text)| == |text| / NUM_COLS + 1
    ensures r < |Layout(text)| ==> |Layout(text)[r]| == if r < |text| / NUM_COLS then NUM_COLS else |text| % NUM_COLS
  {
    hide Layout;
    Unbroken(text);
  }

  lemma UnbrokenAt(text: seq<byte>, r: nat, c: nat)
    requires Plain(text)
    requires c < NUM_COLS && r * NUM_COLS + c < |text|
    ensures r < |Layout(text)| && c < |Layout(text)[r]| && Layout(text)[r][c] == text[r * NUM_COLS + c]
  {
    hide Layout;
    Unbroken(text);
    var k := r * NUM_COLS + c;
    assert k / NUM_COLS == r && k % NUM_COLS == c;
    assert Layout(text)[k / NUM_COLS][k % NUM_COLS] == text[k];
  }

  /** Which cells come before the n-th. */
  lemma Cell(n: nat, r: int, c: int)
    requires n < NUM_ROWS * NUM_COLS && 0 <= r < NUM_ROWS && 0 <= c < NUM_COLS
    ensures 0 <= n / NUM_COLS < NUM_ROWS && n == n / NUM_COLS * NUM_COLS + n % NUM_COLS
    ensures r * NUM_COLS + c < n <==> r < n / NUM_COLS || (r == n / NUM_COLS && c < n % NUM_COLS)
    ensures n == r * NUM_COLS + c ==> n / NUM_COLS == r && n % NUM_COLS == c
  {
  }

  /** Such a text, if it is not longer than the screen, leaves the cursor behind it. */
  lemma PlainCursor(text: seq<byte>)
    requires |text| < NUM_ROWS * NUM_COLS && Plain(text)
    ensures TopLine(Layout(text)) == 0
    ensures CursorY(Layout(text)) == |text| / NUM_COLS && CursorX(Layout(text)) == |text| % NUM_COLS
  {
    hide Layout, Plain;
    UnbrokenLine(text, |text| / NUM_COLS);
  }

  /** And the screen shows it row by row. */
  lemma PlainScreen(text: seq<byte>, r: int, c: int)
    requires |text| < NUM_ROWS * NUM_COLS && Plain(text)
    requires 0 <= r < NUM_ROWS && 0 <= c < NUM_COLS
    ensures CharAt(Layout(text), r, c) == if r * NUM_COLS + c < |text| then text[r * NUM_COLS + c] else BLANK
  {
    hide Layout, Plain, TopLine;
    PlainCursor(text);
    Cell(|text|, r, c);
    UnbrokenLine(text, r);
    if r * NUM_COLS + c < |text| {
      UnbrokenAt(text, r, c);
    }
  }

  /** The first line on the screen, and where the cursor is. */
  function TopLine(ls: Lines): int {
    if |ls| > NUM_ROWS then |ls| - NUM_ROWS else 0
  }

  function CursorX(ls: Lines): int {
    |ls[|ls| - 1]|
  }

  function CursorY(ls: Lines): int {
    |ls| - 1 - TopLine(ls)
  }

  /** The character at row r, column c of a screen that shows the end of the lines. */
  function CharAt(ls: Lines, r: int, c: int): byte {
    var k := TopLine(ls) + r;
    if 0 <= k < |ls| && 0 <= c < |ls[k]| then ls[k][c] else BLANK
  }

  /** A new line leaves the screen alone while there is room below, and else moves everything up one row. */
  lemma NewLineShows(ls: Lines, r: int, c: int)
    requires 0 <= r < NUM_ROWS
    ensures CharAt(NewLine(ls), r, c) ==
            if CursorY(ls) + 1 < NUM_ROWS then CharAt(ls, r, c) else if r + 1 < NUM_ROWS then CharAt(ls, r + 1, c)
            else BLANK
    ensures CursorX(NewLine(ls)) == 0
    ensures CursorY(NewLine(ls)) == if CursorY(ls) + 1 < NUM_ROWS then CursorY(ls) + 1 else NUM_ROWS - 1
  {
  }

  /** A character changes one cell, the one at the cursor. */
  lemma AddCharShows(ls: Lines, ch: byte, r: int, c: int)
    requires 0 <= r < NUM_ROWS && 0 <= c < NUM_COLS
    ensures CharAt(AddChar(ls, ch), r, c) == if r == CursorY(ls) && c == CursorX(ls) then ch else CharAt(ls, r, c)
    ensures CursorX(AddChar(ls, ch)) == CursorX(ls) + 1 && CursorY(AddChar(ls, ch)) == CursorY(ls)
  {
  }

  lemma CursorRange(ls: Lines)
    ensures 0 <= CursorY(ls) < NUM_ROWS
  {
  }

  /** The position of the cursor, counting cells row by row. */
  function Home(ls: Lines): int {
    CursorY(ls) * NUM_COLS + CursorX(ls)
  }

  /** A position tells the row and the column of the cursor. */
  lemma HomeRange(ls: Lines)
    requires Wrapped(ls)
    ensures 0 <= Home(ls) < NUM_ROWS * NUM_COLS
    ensures Home(ls) % NUM_COLS == CursorX(ls) && Home(ls) / NUM_COLS == CursorY(ls)
    ensures 0 <= CursorX(ls) < NUM_COLS && 0 <= CursorY(ls) < NUM_ROWS
  {
  }

  lemma LayoutMore(text: seq<byte>, c: byte)
    ensures Layout(text + [c]) == Type(Layout(text), c)
  {
    assert (text + [c])[..|text|] == text;
  }

  /** What may happen to the terminals: a character put on the one in the foreground, or a switch. */
  datatype Event = Char(c: byte) | Switch(term: int)

  const MAX_TERMS := 3

  ghost predicate Typable(events: seq<Event>) {
    forall e | e in events :: if e.Char? then e.c != 0 else 0 <= e.term < MAX_TERMS
  }

  /** The terminal in the foreground after the events. */
  function Current(events: seq<Event>, first: int): (now: int)
    requires 0 <= first < MAX_TERMS && Typable(events)
    ensures 0 <= now < MAX_TERMS
  {
    if events == [] then first
    else if events[|events| - 1].Switch? then events[|events| - 1].term else Current(events[..|events| - 1], first)
  }

  /** What each terminal was told: its own characters only, in order. */
  ghost function Transcripts(events: seq<Event>, first: int, texts: seq<seq<byte>>): (r: seq<seq<byte>>)
    requires |texts| == MAX_TERMS && 0 <= first < MAX_TERMS && Typable(events)
    ensures |r| == MAX_TERMS
  {
    if events == [] then texts
    else
      var so := Transcripts(events[..|events| - 1], first, texts);
      var now := Current(events[..|events| - 1], first);
      match events[|events| - 1]
      case Char(c) => so[now := so[now] + [c]]
      case Switch(_) => so
  }

  /** A terminal that is never in the foreground during the events keeps its transcript. */
  lemma {:induction false} BackgroundKept(events: seq<Event>, first: int, texts: seq<seq<byte>>, t: int)
    requires |texts| == MAX_TERMS && 0 <= first < MAX_TERMS && Typable(events) && 0 <= t < MAX_TERMS
    requires t != first && Switch(t) !in events
    ensures Transcripts(events, first, texts)[t] == texts[t] && Current(events, first) != t
  {
    if events != [] {
      BackgroundKept(events[..|events| - 1], first, texts, t);
    }
  }
}
