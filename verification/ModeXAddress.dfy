/** The address arithmetic of the build buffer (MP2/modex.c): four planes in reverse order, shifted by
    a byte where the window's left edge cuts a group of four pixels. */
module ModeXAddress {
  const SCROLL_X_DIM := 320
  const SCROLL_Y_DIM := 182
  const SCROLL_X_WIDTH := 80
  const SCROLL_SIZE := SCROLL_X_WIDTH * SCROLL_Y_DIM
  const SCREEN_SIZE := SCROLL_SIZE * 4 + 1
  const BUILD_BUF_SIZE := SCREEN_SIZE + 20000
  const BUILD_BASE_INIT := (BUILD_BUF_SIZE - SCREEN_SIZE) / 2
  const MEM_FENCE_MAGIC := 0xF3

  lemma Sizes()
    ensures SCROLL_SIZE == 14560 && SCREEN_SIZE == 58241 && BUILD_BUF_SIZE == 78241 && BUILD_BASE_INIT == 10000
  {
  }

  /** Where logical pixel (x,y) lies, relative to logical pixel (0,0) of plane 3. */
  function PixelOffset(x: int, y: int): int {
    x / 4 + y * SCROLL_X_WIDTH + (3 - x % 4) * SCROLL_SIZE
  }

  predicate InWindow(wx: int, wy: int, x: int, y: int) {
    wx <= x < wx + SCROLL_X_DIM && wy <= y < wy + SCROLL_Y_DIM
  }

  /** The first and the last address of the window at (wx,wy). */
  function WindowStart(wx: int, wy: int): int {
    wx / 4 + wy * SCROLL_X_WIDTH
  }

  function WindowEnd(wx: int, wy: int): int {
    3 * SCROLL_SIZE + (wx + SCROLL_X_DIM - 1) / 4 + (wy + SCROLL_Y_DIM - 1) * SCROLL_X_WIDTH
  }

  /** The test at the head of set_view_window: the window at (wx,wy) lies in the build buffer. */
  predicate Fits(img3Off: int, wx: int, wy: int) {
    0 <= img3Off + WindowStart(wx, wy) && img3Off + WindowEnd(wx, wy) < BUILD_BUF_SIZE
  }

  /** No two pixels of a window share an address, although planes overlap in the row direction. */
  lemma OffsetInjective(wx: int, wy: int, x: int, y: int, x': int, y': int)
    requires InWindow(wx, wy, x, y) && InWindow(wx, wy, x', y')
    requires PixelOffset(x, y) == PixelOffset(x', y')
    ensures x == x' && y == y'
  {
    var p, p' := x % 4, x' % 4;
    var c, c' := x / 4 - wx / 4, x' / 4 - wx / 4;
    assert c + (y - wy) * 80 - p * 14560 == c' + (y' - wy) * 80 - p' * 14560;
    assert p == p';
  }

  lemma OffsetInside(wx: int, wy: int, x: int, y: int)
    requires InWindow(wx, wy, x, y)
    ensures WindowStart(wx, wy) <= PixelOffset(x, y) <= WindowEnd(wx, wy)
  {
  }

  /** A relocated window fits the buffer. */
  lemma BaseFits(wx: int, wy: int)
    ensures Fits(BUILD_BASE_INIT - wx / 4 - wy * SCROLL_X_WIDTH, wx, wy)
  {
  }

  /** The contiguous copy from the first to the last shared pixel covers every shared pixel, in all planes. */
  lemma OverlapInside(startX: int, startY: int, endX: int, endY: int, x: int, y: int)
    requires startX <= x <= endX && startY <= y <= endY
    ensures startX / 4 + startY * SCROLL_X_WIDTH <= PixelOffset(x, y) <= endX / 4 + endY * SCROLL_X_WIDTH
            + 3 * SCROLL_SIZE
  {
  }

  /** The copied area lies in the buffer, for the old window and for the new. */
  lemma CopyInside(off: int, wx: int, wy: int, startX: int, startY: int, endX: int, endY: int)
    requires Fits(off, wx, wy)
    requires wx <= startX <= endX < wx + SCROLL_X_DIM && wy <= startY <= endY < wy + SCROLL_Y_DIM
    ensures 0 <= off + startX / 4 + startY * SCROLL_X_WIDTH
    ensures startX / 4 + startY * SCROLL_X_WIDTH <= endX / 4 + endY * SCROLL_X_WIDTH
    ensures off + endX / 4 + endY * SCROLL_X_WIDTH + 3 * SCROLL_SIZE < BUILD_BUF_SIZE
  {
  }

  /** Along a row: one plane back, or from plane 0 to plane 3 of the next byte. */
  lemma NextInRow(x: int, y: int)
    ensures PixelOffset(x, y) == x / 4 + y * SCROLL_X_WIDTH + (3 - x % 4) * SCROLL_SIZE
    ensures PixelOffset(x + 1, y) == PixelOffset(x, y) + if x % 4 == 3 then 1 + 3 * SCROLL_SIZE else -SCROLL_SIZE
    ensures (x + 1) % 4 == if x % 4 == 3 then 0 else x % 4 + 1
  {
  }

  /** Plane `i` of the display, read from the view at (wx,wy), lies in the build buffer. */
  lemma ShowInside(off: int, wx: int, wy: int, i: int)
    requires Fits(off, wx, wy) && 0 <= i < 4
    ensures var pOff := 3 - wx % 4;
            var img := off + wx / 4 + wy * SCROLL_X_WIDTH + ((pOff - i + 4) % 4) * SCROLL_SIZE
                + (if pOff < i then 1 else 0);
            0 <= img && img + SCROLL_SIZE <= BUILD_BUF_SIZE
  {
  }

  /** The byte of display plane c % 4 that show_screen copies to pixel (c,r). */
  lemma ShowAddress(wx: int, wy: int, c: int, r: int)
    requires 0 <= c < SCROLL_X_DIM && 0 <= r < SCROLL_Y_DIM
    ensures var pOff, i := 3 - wx % 4, c % 4;
            PixelOffset(wx + c, wy + r) ==
            wx / 4 + wy * SCROLL_X_WIDTH + ((pOff - i + 4) % 4) * SCROLL_SIZE + (if pOff < i then 1 else 0)
            + r * SCROLL_X_WIDTH + c / 4
    ensures 0 <= r * SCROLL_X_WIDTH + c / 4 < SCROLL_SIZE
  {
    Quarters(wx, c);
  }

  lemma Quarters(a: int, b: int)
    ensures var carry := if a % 4 + b % 4 < 4 then 0 else 1;
            (a + b) / 4 == a / 4 + b / 4 + carry && (a + b) % 4 == a % 4 + b % 4 - 4 * carry
  {
  }

  lemma NextInColumn(x: int, y: int)
    ensures PixelOffset(x, y + 1) == PixelOffset(x, y) + SCROLL_X_WIDTH
  {
  }
}
