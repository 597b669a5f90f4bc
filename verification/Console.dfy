/** The text console of the kernel (lib.c) and its three terminals (naman_page.c): a video page, a page
    behind it for each terminal, one hardware cursor and a saved cursor for each terminal. */
module Console {
  import opened Common
  import opened ConsoleText

  const ATTRIB: byte := 7
  const PAGE_SIZE := 4096

  /** A row has two bytes for every cell. */
  const ROW_BYTES := NUM_COLS * 2
  const LAST_ROW := (NUM_ROWS - 1) * ROW_BYTES

  /** The first n bytes of the screen are those a row further on. */
  ghost predicate MovedUp(now: seq<byte>, was: seq<byte>, n: int) {
    && |now| == |was| && PAGE_SIZE <= |was| && 0 <= n <= LAST_ROW
    && (forall k | 0 <= k < n :: now[k] == was[k + ROW_BYTES])
    && (forall k | n <= k < |was| :: now[k] == was[k])
  }

  lemma NoneMoved(was: seq<byte>)
    requires PAGE_SIZE <= |was|
    ensures MovedUp(was, was, 0)
  {
  }

  lemma CellMoved(now: seq<byte>, was: seq<byte>, n: int)
    requires MovedUp(now, was, n) && n + 2 <= LAST_ROW
    ensures n + ROW_BYTES + 1 < |now|
    ensures MovedUp(now[n := now[n + ROW_BYTES]][n + 1 := now[n + ROW_BYTES + 1]], was, n + 2)
  {
  }

  /** Cell c of the last row is blank. */
  ghost predicate BlankCell(s: seq<byte>, c: int)
    requires PAGE_SIZE <= |s| && 0 <= c < NUM_COLS
  {
    s[LAST_ROW + 2 * c] == BLANK && s[LAST_ROW + 2 * c + 1] == ATTRIB
  }

  /** Every row but the last has moved up, and of the last row j cells are blank. */
  ghost predicate Blanked(now: seq<byte>, was: seq<byte>, j: int) {
    && |now| == |was| && PAGE_SIZE <= |was| && 0 <= j <= NUM_COLS
    && (forall k | 0 <= k < LAST_ROW :: now[k] == was[k + ROW_BYTES])
    && (forall c | 0 <= c < j :: BlankCell(now, c))
    && (forall k | LAST_ROW + 2 * j <= k < |was| :: now[k] == was[k])
  }

  lemma NoneBlanked(now: seq<byte>, was: seq<byte>)
    requires MovedUp(now, was, LAST_ROW)
    ensures Blanked(now, was, 0)
  {
  }

  lemma CellBlanked(now: seq<byte>, was: seq<byte>, j: int)
    requires Blanked(now, was, j) && j < NUM_COLS
    ensures LAST_ROW + 2 * j + 1 < |now|
    ensures Blanked(now[LAST_ROW + 2 * j := BLANK][LAST_ROW + 2 * j + 1 := ATTRIB], was, j + 1)
  {
    var next := now[LAST_ROW + 2 * j := BLANK][LAST_ROW + 2 * j + 1 := ATTRIB];
    forall c | 0 <= c < j ensures BlankCell(next, c) {
      assert BlankCell(now, c);
    }
    assert BlankCell(next, j);
  }

  lemma AllBlanked(now: seq<byte>, was: seq<byte>, r: int, c: int)
    requires Blanked(now, was, NUM_COLS) && 0 <= r < NUM_ROWS && 0 <= c < NUM_COLS
    ensures |now| == |was| && PAGE_SIZE <= |was|
    ensures var i, j := (NUM_COLS * r + c) * 2, (NUM_COLS * (r + 1) + c) * 2;
            if r + 1 < NUM_ROWS then now[i] == was[j] && now[i + 1] == was[j + 1]
            else now[i] == BLANK && now[i + 1] == ATTRIB
    ensures forall i | PAGE_SIZE <= i < |was| :: now[i] == was[i]
  {
    assert r + 1 == NUM_ROWS ==> BlankCell(now, c);
  }

  lemma CellStays(x: int, y: int)
    requires 0 <= x < NUM_COLS && 0 <= y < NUM_ROWS
    ensures (y + x / NUM_COLS) % NUM_ROWS == y && x % NUM_COLS == x
    ensures 0 <= (NUM_COLS * y + x) * 2 && (NUM_COLS * y + x) * 2 + 1 < PAGE_SIZE
  {
  }

  class Screen {
    /** Video memory at 0xB8000 and the three pages after it: a character and an attribute a cell. */
    const mem: array<byte>
    var screenX: int
    var screenY: int
    /** The two bytes of the hardware cursor, registers 0x0F and 0x0E. */
    var cursorLow: byte
    var cursorHigh: byte
    /** terminals[i].cursor */
    const saved: array<int>
    var currTerm: int

    ghost predicate Valid()
      reads `currTerm
    {
      mem.Length == (MAX_TERMS + 1) * PAGE_SIZE && saved.Length == MAX_TERMS && 0 <= currTerm < MAX_TERMS
    }

    ghost function Glyph(page: int, r: int, c: int): byte
      reads mem
    {
      var i := page * PAGE_SIZE + (NUM_COLS * r + c) * 2;
      if 0 <= i < mem.Length then mem[i] else 0
    }

    ghost function Attribute(page: int, r: int, c: int): byte
      reads mem
    {
      var i := page * PAGE_SIZE + (NUM_COLS * r + c) * 2 + 1;
      if 0 <= i < mem.Length then mem[i] else 0
    }

    /** The page shows the end of the lines, in the normal colour. */
    ghost predicate Shows(page: int, ls: Lines)
      reads mem
    {
      forall r, c | 0 <= r < NUM_ROWS && 0 <= c < NUM_COLS ::
        Glyph(page, r, c) == CharAt(ls, r, c) && Attribute(page, r, c) == ATTRIB
    }

    /** get_cursor_position */
    function CursorPosition(): int
      reads `cursorLow, `cursorHigh
    {
      cursorLow + cursorHigh * 256
    }

    /** update_cursor */
    method UpdateCursor(x: int, y: int)
      requires 0 <= y * NUM_COLS + x < 65536
      modifies `cursorLow, `cursorHigh
      ensures CursorPosition() == y * NUM_COLS + x
    {
      var pos := y * NUM_COLS + x;
      cursorLow := pos % 256;
      cursorHigh := (pos / 256) % 256;
    }

    /** write_switch: go on writing where the hardware cursor is. */
    method WriteSwitch()
      modifies `screenX, `screenY
      ensures 0 <= screenX < NUM_COLS && 0 <= screenY && CursorPosition() == screenY * NUM_COLS + screenX
    {
      var pos := CursorPosition();
      screenX := pos % NUM_COLS;
      screenY := pos / NUM_COLS;
    }

    /** One cell of the video page. */
    method SetCell(r: int, c: int, glyph: byte)
      requires Valid() && 0 <= r < NUM_ROWS && 0 <= c < NUM_COLS
      modifies mem
      ensures forall p, r', c' | 0 <= p <= MAX_TERMS && 0 <= r' < NUM_ROWS && 0 <= c' < NUM_COLS ::
                Glyph(p, r', c') == if p == 0 && r' == r && c' == c then glyph else old(Glyph(p, r', c'))
      ensures forall p, r', c' | 0 <= p <= MAX_TERMS && 0 <= r' < NUM_ROWS && 0 <= c' < NUM_COLS ::
                Attribute(p, r', c') == if p == 0 && r' == r && c' == c then ATTRIB else old(Attribute(p, r', c'))
      ensures forall i | PAGE_SIZE <= i < mem.Length :: mem[i] == old(mem[i])
    {
      mem[(NUM_COLS * r + c) * 2] := glyph;
      mem[(NUM_COLS * r + c) * 2 + 1] := ATTRIB;
    }

    /** scroll_down: every row becomes the one below it, and the last one blank. */
    method ScrollDown()
      requires Valid()
      modifies mem
      ensures forall r, c | 0 <= r < NUM_ROWS && 0 <= c < NUM_COLS ::
                Glyph(0, r, c) == (if r + 1 < NUM_ROWS then old(Glyph(0, r + 1, c)) else BLANK)
      ensures forall r, c | 0 <= r < NUM_ROWS && 0 <= c < NUM_COLS ::
                Attribute(0, r, c) == (if r + 1 < NUM_ROWS then old(Attribute(0, r + 1, c)) else ATTRIB)
      ensures forall i | PAGE_SIZE <= i < mem.Length :: mem[i] == old(mem[i])
    {
      hide MovedUp;
      ghost var was := mem[..];
      MoveRows();
      BlankRow(was);
      AllBlanked(mem[..], was, 0, 0);
      forall r, c | 0 <= r < NUM_ROWS && 0 <= c < NUM_COLS
        ensures Glyph(0, r, c) == (if r + 1 < NUM_ROWS then old(Glyph(0, r + 1, c)) else BLANK)
        ensures Attribute(0, r, c) == (if r + 1 < NUM_ROWS then old(Attribute(0, r + 1, c)) else ATTRIB)
      {
        AllBlanked(mem[..], was, r, c);
      }
    }

    /** Every row but the last becomes the one below it. */
    method MoveRows()
      requires Valid()
      modifies mem
      ensures MovedUp(mem[..], old(mem[..]), LAST_ROW)
    {
      hide MovedUp;
      ghost var was := mem[..];
      NoneMoved(was);
      var i := 0;
      while i < NUM_ROWS - 1
        invariant 0 <= i <= NUM_ROWS - 1 && MovedUp(mem[..], was, ROW_BYTES * i)
      {
        var j := 0;
        while j < NUM_COLS
          invariant 0 <= j <= NUM_COLS && MovedUp(mem[..], was, ROW_BYTES * i + 2 * j)
        {
          CellMoved(mem[..], was, ROW_BYTES * i + 2 * j);
          mem[(NUM_COLS * i + j) * 2] := mem[(NUM_COLS * (i + 1) + j) * 2];
          mem[(NUM_COLS * i + j) * 2 + 1] := mem[(NUM_COLS * (i + 1) + j) * 2 + 1];
          j := j + 1;
        }
        i := i + 1;
      }
    }

    /** The last row becomes blank. */
    method BlankRow(ghost was: seq<byte>)
      requires Valid() && MovedUp(mem[..], was, LAST_ROW)
      modifies mem
      ensures Blanked(mem[..], was, NUM_COLS)
    {
      hide MovedUp, Blanked;
      NoneBlanked(mem[..], was);
      var k := NUM_ROWS - 1;
      var j := 0;
      while j < NUM_COLS
        invariant 0 <= j <= NUM_COLS && Blanked(mem[..], was, j)
      {
        CellBlanked(mem[..], was, j);
        mem[(NUM_COLS * k + j) * 2] := BLANK;
        mem[(NUM_COLS * k + j) * 2 + 1] := ATTRIB;
        j := j + 1;
      }
    }

    /** The cursor is at a cell of the screen, in the driver's variables and in the hardware. */
    ghost predicate CursorAt(x: int, y: int)
      reads `screenX, `screenY, `cursorLow, `cursorHigh
    {
      screenX == x && screenY == y && 0 <= x < NUM_COLS && 0 <= y < NUM_ROWS && CursorPosition() == y * NUM_COLS + x
    }

    /** The foreground terminal shows these lines and its cursor is after them. */
    ghost predicate Foreground(ls: Lines)
      reads mem, `screenX, `screenY, `cursorLow, `cursorHigh
    {
      Wrapped(ls) && Shows(0, ls) && CursorAt(CursorX(ls), CursorY(ls))
    }

    /** After screen_y may have grown: scroll if that left the screen. */
    method SettleRow(ghost ls: Lines, ghost grown: bool)
      requires Valid() && Shows(0, ls) && screenY == CursorY(ls) + if grown then 1 else 0
      modifies mem, `screenY
      ensures var after := if grown then NewLine(ls) else ls;
              Shows(0, after) && screenY == CursorY(after)
      ensures forall i | PAGE_SIZE <= i < mem.Length :: mem[i] == old(mem[i])
    {
      hide CharAt, Glyph, Attribute;
      CursorRange(ls);
      if screenY == NUM_ROWS {
        ScrollDown();
        screenY := NUM_ROWS - 1;
      } else {
        screenY := screenY % NUM_ROWS;
      }
      if grown {
        forall r, c | 0 <= r < NUM_ROWS && 0 <= c < NUM_COLS
          ensures Glyph(0, r, c) == CharAt(NewLine(ls), r, c) && Attribute(0, r, c) == ATTRIB
        {
          NewLineShows(ls, r, c);
        }
        NewLineShows(ls, 0, 0);
      }
    }

    /** putc of anything but NUL: the screen goes on showing the end of the transcript. */
    method PutChar(ch: byte, ghost ls: Lines)
      requires Valid() && ch != 0 && Foreground(ls)
      modifies mem, `screenX, `screenY, `cursorLow, `cursorHigh
      ensures Foreground(Type(ls, ch))
      ensures forall i | PAGE_SIZE <= i < mem.Length :: mem[i] == old(mem[i])
    {
      hide CharAt, Glyph, Attribute;
      CursorRange(ls);
      TypeWrapped(ls, ch);
      CursorRange(Type(ls, ch));
      if ch == NEWLINE || ch == RETURN {
        screenY := screenY + 1;
        SettleRow(ls, true);
        screenX := 0;
      } else {
        SetCell(screenY, screenX, ch);
        forall r, c | 0 <= r < NUM_ROWS && 0 <= c < NUM_COLS
          ensures Glyph(0, r, c) == CharAt(AddChar(ls, ch), r, c) && Attribute(0, r, c) == ATTRIB
        {
          AddCharShows(ls, ch, r, c);
        }
        AddCharShows(ls, ch, 0, 0);
        screenX := screenX + 1;
        screenY := screenY + screenX / NUM_COLS;
        SettleRow(AddChar(ls, ch), screenX == NUM_COLS);
        screenX := screenX % NUM_COLS;
      }
      UpdateCursor(screenX, screenY);
    }

    /** The character at a position of the video page, counting cells row by row. */
    function GlyphAt(pos: int): byte
      requires 0 <= pos < NUM_ROWS * NUM_COLS && mem.Length >= PAGE_SIZE
      reads mem
    {
      mem[pos * 2]
    }

    predicate Vacant(pos: int)
      requires 0 <= pos < NUM_ROWS * NUM_COLS && mem.Length >= PAGE_SIZE
      reads mem
    {
      GlyphAt(pos) == BLANK || GlyphAt(pos) == 0
    }

    /** putc of NUL, a backspace: not past a prompt sign; from the first column, back over everything vacant. At
        the origin the source reads before video memory, so that is left out. */
    method Backspace()
      requires Valid() && CursorAt(screenX, screenY) && !(screenX == 0 && screenY == 0)
      modifies mem, `screenX, `screenY, `cursorLow, `cursorHigh
      ensures CursorAt(screenX, screenY)
      ensures var now := screenY * NUM_COLS + screenX;
              forall i | 0 <= i < mem.Length && i != now * 2 && i != now * 2 + 1 :: mem[i] == old(mem[i])
      ensures var was, now := old(screenY * NUM_COLS + screenX), screenY * NUM_COLS + screenX;
              if old(GlyphAt(screenY * NUM_COLS + screenX - 1)) == PROMPT then now == was && mem[..] == old(mem[..])
              else
                && now < was && mem[now * 2] == 0 && mem[now * 2 + 1] == ATTRIB
                && (old(screenX) > 0 ==> now == was - 1)
                && (old(screenX) == 0 ==>
                      && (forall pos | now < pos < was :: old(Vacant(pos)))
                      && (now == 0 || !old(Vacant(now))))
    {
      ghost var was := screenY * NUM_COLS + screenX;
      screenX := screenX - 1;
      if mem[(NUM_COLS * screenY + screenX) * 2] == PROMPT {
        screenX := screenX + 1;
        return;
      } else if screenX < 0 {
        screenY := screenY - 1;
        screenX := NUM_COLS - 1;
        SkipVacant(was);
        forall pos | NUM_COLS * screenY + screenX < pos < was ensures old(Vacant(pos)) {
          assert Vacant(pos);
        }
      }
      EraseCell();
    }

    /** NUL at the cursor, which stays. */
    method EraseCell()
      requires Valid() && 0 <= screenX < NUM_COLS && 0 <= screenY < NUM_ROWS
      modifies mem, `screenX, `screenY, `cursorLow, `cursorHigh
      ensures CursorAt(old(screenX), old(screenY))
      ensures var now := screenY * NUM_COLS + screenX;
              && mem[now * 2] == 0 && mem[now * 2 + 1] == ATTRIB
              && forall i | 0 <= i < mem.Length && i != now * 2 && i != now * 2 + 1 :: mem[i] == old(mem[i])
    {
      CellStays(screenX, screenY);
      mem[(NUM_COLS * screenY + screenX) * 2] := 0;
      mem[(NUM_COLS * screenY + screenX) * 2 + 1] := ATTRIB;
      screenY := (screenY + screenX / NUM_COLS) % NUM_ROWS;
      screenX := screenX % NUM_COLS;
      UpdateCursor(screenX, screenY);
    }

    /** Back over vacant cells, to a cell that is not or to the origin. */
    method SkipVacant(ghost was: int)
      requires Valid() && 0 <= screenX < NUM_COLS && 0 <= screenY < NUM_ROWS
      requires NUM_COLS * screenY + screenX == was - 1
      modifies `screenX, `screenY
      ensures 0 <= screenX < NUM_COLS && 0 <= screenY < NUM_ROWS && NUM_COLS * screenY + screenX < was
      ensures forall pos | NUM_COLS * screenY + screenX < pos < was :: Vacant(pos)
      ensures NUM_COLS * screenY + screenX == 0 || !Vacant(NUM_COLS * screenY + screenX)
    {
      while mem[(NUM_COLS * screenY + screenX) * 2] == BLANK || mem[(NUM_COLS * screenY + screenX) * 2] == 0
        invariant 0 <= screenX < NUM_COLS && 0 <= screenY < NUM_ROWS && NUM_COLS * screenY + screenX < was
        invariant forall pos | NUM_COLS * screenY + screenX < pos < was :: Vacant(pos)
        decreases NUM_COLS * screenY + screenX
      {
        assert Vacant(NUM_COLS * screenY + screenX);
        screenX := screenX - 1;
        if screenX < 0 {
          screenY := screenY - 1;
          if screenY < 0 {
            screenX, screenY := 0, 0;
            break;
          }
          screenX := NUM_COLS - 1;
        }
      }
    }

    /** memcpy of one page onto another. */
    method CopyPage(source: int, target: int)
      requires Valid() && 0 <= source <= MAX_TERMS && 0 <= target <= MAX_TERMS && source != target
      modifies mem
      ensures forall i | 0 <= i < mem.Length ::
                mem[i] == if target * PAGE_SIZE <= i < (target + 1) * PAGE_SIZE
                    then old(mem[i + (source - target) * PAGE_SIZE])
                          else old(mem[i])
    {
      forall i | target * PAGE_SIZE <= i < (target + 1) * PAGE_SIZE {
        mem[i] := mem[i + (source - target) * PAGE_SIZE];
      }
    }

    /** remap_mem: the video page goes behind the old terminal, and the new terminal's page on view. */
    method RemapMem(newId: int, oldId: int)
      requires Valid() && 0 <= newId < MAX_TERMS && 0 <= oldId < MAX_TERMS && newId != oldId
      modifies mem
      ensures forall r, c | 0 <= r < NUM_ROWS && 0 <= c < NUM_COLS ::
                Glyph(0, r, c) == old(Glyph(newId + 1, r, c)) && Attribute(0, r, c) == old(Attribute(newId + 1, r, c))
      ensures forall r, c | 0 <= r < NUM_ROWS && 0 <= c < NUM_COLS ::
                Glyph(oldId + 1, r, c) == old(Glyph(0, r, c)) && Attribute(oldId + 1, r, c) == old(Attribute(0, r, c))
      ensures forall p, r, c | 1 <= p <= MAX_TERMS && p != oldId + 1 && 0 <= r < NUM_ROWS && 0 <= c < NUM_COLS ::
                Glyph(p, r, c) == old(Glyph(p, r, c)) && Attribute(p, r, c) == old(Attribute(p, r, c))
    {
      CopyPage(0, oldId + 1);
      CopyPage(newId + 1, 0);
    }

    /** A background terminal's page shows its lines, and its saved cursor is after them. */
    ghost predicate Background(t: int, ls: Lines)
      reads mem, saved
      requires 0 <= t < saved.Length
    {
      Wrapped(ls) && Shows(t + 1, ls) && saved[t] == Home(ls)
    }

    /** Every terminal shows the end of its own transcript: the one in the foreground on the video page,
        the others on the pages behind. */
    ghost predicate InStep(texts: seq<seq<byte>>)
      reads this, mem, saved
    {
      && Valid() && |texts| == MAX_TERMS
      && Foreground(Layout(texts[currTerm]))
      && forall t | 0 <= t < MAX_TERMS && t != currTerm :: Background(t, Layout(texts[t]))
    }

    /** Three cleared screens. */
    constructor ()
      ensures InStep([[], [], []]) && currTerm == 0 && fresh(mem) && fresh(saved)
    {
      mem := new byte[(MAX_TERMS + 1) * PAGE_SIZE](i => if i % 2 == 0 then BLANK else ATTRIB);
      saved := new int[MAX_TERMS](_ => 0);
      screenX, screenY, cursorLow, cursorHigh, currTerm := 0, 0, 0, 0, 0;
      new;
      hide Shows;
      Cleared();
    }

    /** Blanks in the normal colour show an empty transcript. */
    lemma Cleared()
      requires Valid() && forall i | 0 <= i < mem.Length :: mem[i] == if i % 2 == 0 then BLANK else ATTRIB
      ensures Layout([]) == [[]] && Wrapped([[]]) && CursorX([[]]) == 0 && CursorY([[]]) == 0
      ensures forall p | 0 <= p <= MAX_TERMS :: Shows(p, [[]])
    {
      forall p, r, c | 0 <= p <= MAX_TERMS && 0 <= r < NUM_ROWS && 0 <= c < NUM_COLS
        ensures Glyph(p, r, c) == BLANK && Attribute(p, r, c) == ATTRIB
      {
        var i := p * PAGE_SIZE + (NUM_COLS * r + c) * 2;
        assert i % 2 == 0 && (i + 1) % 2 == 1;
      }
      assert forall r, c :: CharAt([[]], r, c) == BLANK;
    }

    /** The pages trade places: what was on view is behind its terminal, what was behind the new one on view. */
    method SwapPages(newId: int, oldId: int, ghost lines: seq<Lines>)
      requires Valid() && 0 <= newId < MAX_TERMS && 0 <= oldId < MAX_TERMS && newId != oldId && |lines| == MAX_TERMS
      requires Shows(0, lines[oldId]) && forall t | 0 <= t < MAX_TERMS && t != oldId :: Shows(t + 1, lines[t])
      modifies mem
      ensures Shows(0, lines[newId]) && forall t | 0 <= t < MAX_TERMS && t != newId :: Shows(t + 1, lines[t])
    {
      hide CharAt, Glyph, Attribute;
      assert Shows(newId + 1, lines[newId]);
      RemapMem(newId, oldId);
      forall t | 0 <= t < MAX_TERMS && t != newId
        ensures Shows(t + 1, lines[t])
      {
        if t != oldId {
          assert old(Shows(t + 1, lines[t]));
        }
      }
    }

    /** The cursor of the old terminal is saved, that of the new one put in its place. */
    method SwapCursors(newId: int, oldId: int, ghost lines: seq<Lines>)
      requires Valid() && 0 <= newId < MAX_TERMS && 0 <= oldId < MAX_TERMS && newId != oldId && |lines| == MAX_TERMS
      requires forall t | 0 <= t < MAX_TERMS :: Wrapped(lines[t])
      requires CursorPosition() == Home(lines[oldId])
      requires forall t | 0 <= t < MAX_TERMS && t != oldId :: saved[t] == Home(lines[t])
      modifies saved, `screenX, `screenY, `cursorLow, `cursorHigh
      ensures CursorAt(CursorX(lines[newId]), CursorY(lines[newId]))
      ensures forall t | 0 <= t < MAX_TERMS && t != newId :: saved[t] == Home(lines[t])
    {
      hide CursorX, CursorY;
      HomeRange(lines[newId]);
      var oldPos := CursorPosition();
      saved[oldId] := oldPos;
      UpdateCursor(saved[newId] % NUM_COLS, saved[newId] / NUM_COLS);
      WriteSwitch();
    }

    /** switch_terminal: the screen and the cursor of one terminal for those of another. */
    method SwitchTerminal(newTerm: int, ghost texts: seq<seq<byte>>)
      requires InStep(texts) && 0 <= newTerm < MAX_TERMS
      modifies this, mem, saved
      ensures InStep(texts) && currTerm == newTerm
    {
      hide Layout, CharAt, Glyph, Attribute, Wrapped, Shows, CursorX, CursorY;
      if newTerm == currTerm {
        return;
      }
      ghost var lines: seq<Lines> := [Layout(texts[0]), Layout(texts[1]), Layout(texts[2])];
      SwapCursors(newTerm, currTerm, lines);
      SwapPages(newTerm, currTerm, lines);
      currTerm := newTerm;
    }

    /** putc on the terminal in the foreground; the others are untouched. */
    method Output(ch: byte, ghost texts: seq<seq<byte>>)
      requires InStep(texts) && ch != 0
      modifies mem, `screenX, `screenY, `cursorLow, `cursorHigh
      ensures InStep(texts[currTerm := texts[currTerm] + [ch]])
    {
      hide Layout, Foreground, Background;
      LayoutMore(texts[currTerm], ch);
      PutChar(ch, Layout(texts[currTerm]));
      BackgroundsKept(texts);
    }

    /** Pages behind that keep their bytes go on showing what they did. */
    twostate lemma BackgroundsKept(texts: seq<seq<byte>>)
      requires old(InStep(texts)) && currTerm == old(currTerm) && saved[..] == old(saved[..])
      requires forall i | PAGE_SIZE <= i < mem.Length :: mem[i] == old(mem[i])
      ensures forall t | 0 <= t < MAX_TERMS && t != currTerm :: Background(t, Layout(texts[t]))
    {
      hide Layout, Home, Wrapped, Foreground, CharAt;
      forall t | 0 <= t < MAX_TERMS && t != currTerm
        ensures Background(t, Layout(texts[t]))
      {
        assert old(Background(t, Layout(texts[t])));
        assert saved[..][t] == old(saved[..])[t];
        forall r, c | 0 <= r < NUM_ROWS && 0 <= c < NUM_COLS
          ensures Glyph(t + 1, r, c) == CharAt(Layout(texts[t]), r, c) && Attribute(t + 1, r, c) == ATTRIB
        {
          assert old(Glyph(t + 1, r, c)) == CharAt(Layout(texts[t]), r, c) && old(Attribute(t + 1, r, c)) == ATTRIB;
        }
      }
    }

    /** Any run of output and switches, from any screens in step. */
    method Run(events: seq<Event>, ghost texts: seq<seq<byte>>)
      requires InStep(texts) && Typable(events)
      modifies this, mem, saved
      ensures InStep(Transcripts(events, old(currTerm), texts)) && currTerm == Current(events, old(currTerm))
    {
      hide Foreground, Background;
      var k := 0;
      ghost var first := currTerm;
      while k < |events|
        invariant 0 <= k <= |events|
        invariant InStep(Transcripts(events[..k], first, texts)) && currTerm == Current(events[..k], first)
      {
        ghost var now := Transcripts(events[..k], first, texts);
        assert events[..k + 1][..k] == events[..k];
        match events[k] {
          case Char(c) => Output(c, now);
          case Switch(t) => SwitchTerminal(t, now);
        }
        k := k + 1;
      }
      assert events[..k] == events;
    }
  }
}
