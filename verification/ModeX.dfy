/** MP2/modex.c: the logical view window and its image in the build buffer. Pointers into the buffer
    are offsets: img3 is build + fence + img3Off. */
module ModeX {
  import opened Common
  import opened MazeRender
  import opened MazeModel
  import opened ModeXAddress

  /** Whether (x,y) is in the w by h rectangle whose corner is (left,top). */
  predicate InRect(left: int, top: int, w: int, h: int, x: int, y: int) {
    left <= x < left + w && top <= y < top + h
  }

  const TEXT_X_DIM := 104
  const TEXT_Y_DIM := 16

  /** A palette colour made transparent, as the unsigned char addition of 64. */
  function Transparent(b: byte): byte {
    (b + 64) % 256
  }

  /** The same place in the next quarter of the palette, and in the first behind the last. */
  lemma TransparentIs(b: byte)
    ensures Transparent(b) % 64 == b % 64 && Transparent(b) / 64 == (b / 64 + 1) % 4
  {
    assert Transparent(b) == if b < 192 then b + 64 else b - 192;
    hide Transparent;
    assert b / 64 == if b < 64 then 0 else if b < 128 then 1 else if b < 192 then 2 else 3;
  }

  const VIDEO_PLANE_SIZE := 65536
  const PAGE_0 := 1440

  /** target_img ^= 0x4000 */
  function FlipPage(page: int): int {
    if (page / 0x4000) % 2 == 1 then page - 0x4000 else page + 0x4000
  }

  /** The two pages flip into each other, do not overlap, and stay clear of the status bar [0,1440). */
  lemma Pages()
    ensures FlipPage(FlipPage(PAGE_0)) == PAGE_0
    ensures PAGE_0 + SCROLL_SIZE <= FlipPage(PAGE_0) && FlipPage(PAGE_0) + SCROLL_SIZE <= VIDEO_PLANE_SIZE
    ensures (1440 as bv16) ^ 0x4000 == 17824 && PAGE_0 == 1440 && FlipPage(PAGE_0) == 17824
  {
  }

  class View {
    const fence: nat
    const build: array<byte>
    var showX: int
    var showY: int
    var img3Off: int
    const vram: array2<byte>
    var targetImg: int

    ghost predicate Valid()
      reads `showX, `showY, `img3Off
    {
      build.Length == BUILD_BUF_SIZE + 2 * fence && Fits(img3Off, showX, showY)
    }

    predicate InFence(i: int)
    {
      0 <= i < fence || fence + BUILD_BUF_SIZE <= i < build.Length
    }

    /** The memory fences on both sides of the build buffer hold their magic numbers. */
    ghost predicate Fenced()
      reads build
    {
      forall i | 0 <= i < build.Length && InFence(i) :: build[i] == MEM_FENCE_MAGIC
    }

    /** set_mode_X: the view starts at (0,0), in the middle of a fenced build buffer. */
    constructor (fence: nat)
      ensures Valid() && Fenced() && Paged() && showX == 0 && showY == 0
      ensures fresh(build) && fresh(vram)
    {
      this.fence := fence;
      build := new byte[BUILD_BUF_SIZE + 2 * fence];
      showX, showY := 0, 0;
      img3Off := BUILD_BASE_INIT;
      vram := new byte[4, VIDEO_PLANE_SIZE];
      targetImg := PAGE_0;
      new;
      for i := 0 to fence
        modifies build
        invariant forall j | 0 <= j < build.Length && InFence(j)
                  && (j < i || fence <= j < BUILD_BUF_SIZE + fence + i) :: build[j] == MEM_FENCE_MAGIC
      {
        build[i] := MEM_FENCE_MAGIC;
        build[BUILD_BUF_SIZE + fence + i] := MEM_FENCE_MAGIC;
      }
    }

    /** clear_mode_X reports whether a fence was broken. */
    method FencesIntact() returns (ok: bool)
      requires Valid()
      ensures ok == Fenced()
    {
      for i := 0 to fence
        invariant forall j | 0 <= j < build.Length && InFence(j) && j < i :: build[j] == MEM_FENCE_MAGIC
      {
        if build[i] != MEM_FENCE_MAGIC {
          assert InFence(i);
          return false;
        }
      }
      for i := 0 to fence
        invariant forall j | 0 <= j < build.Length && InFence(j) && j < BUILD_BUF_SIZE + fence + i ::
                  build[j] == MEM_FENCE_MAGIC
      {
        if build[BUILD_BUF_SIZE + fence + i] != MEM_FENCE_MAGIC {
          assert InFence(BUILD_BUF_SIZE + fence + i);
          return false;
        }
      }
      return true;
    }

    /** Nothing that stores only pixels of the view breaks a fence. */
    twostate lemma FencesKept()
      requires old(Valid()) && Valid() && old(Fenced())
      requires forall i | 0 <= i < build.Length && !UsedByView(i) :: build[i] == old(build[i])
      ensures Fenced()
    {
      forall i | 0 <= i < build.Length && InFence(i) ensures build[i] == MEM_FENCE_MAGIC {
        if UsedByView(i) {
          var x, y :| OnView(x, y) && Address(x, y) == i;
          OffsetInside(showX, showY, x, y);
          assert false;
        }
        assert old(build[i]) == MEM_FENCE_MAGIC;
      }
    }

    /** Whether logical pixel (x,y) is on view. */
    ghost predicate OnView(x: int, y: int)
      reads `showX, `showY
    {
      InWindow(showX, showY, x, y)
    }

    ghost function Address(x: int, y: int): int
      reads `img3Off
    {
      fence + img3Off + PixelOffset(x, y)
    }

    /** Logical pixel (x,y) as the build buffer has it. */
    ghost function Pix(x: int, y: int): byte
      reads `img3Off, build
    {
      if 0 <= Address(x, y) < build.Length then build[Address(x, y)] else 0
    }

    /** If every pixel of the view is what it was, and nothing else was stored, the whole buffer is what it was. */
    twostate lemma PictureRestored()
      requires old(Valid()) && unchanged(this`showX, this`showY, this`img3Off)
      requires forall x, y | OnView(x, y) :: Pix(x, y) == old(Pix(x, y))
      requires forall i | 0 <= i < build.Length && !UsedByView(i) :: build[i] == old(build[i])
      ensures build[..] == old(build[..])
    {
      forall i | 0 <= i < build.Length ensures build[i] == old(build[i]) {
        if UsedByView(i) {
          var x, y :| OnView(x, y) && Address(x, y) == i;
          OffsetInside(showX, showY, x, y);
          assert Pix(x, y) == old(Pix(x, y));
        }
      }
    }

    /** Whether some pixel on view is stored at i. */
    ghost predicate UsedByView(i: int)
      reads `showX, `showY, `img3Off
    {
      exists x, y :: OnView(x, y) && Address(x, y) == i
    }

    /** Store a pixel of the view at its address, however the caller computed that. */
    method StoreAt(addr: int, ghost x: int, ghost y: int, v: byte)
      requires Valid() && OnView(x, y) && addr == Address(x, y)
      modifies build
      ensures forall x', y' | OnView(x', y') :: Pix(x', y') == if x' == x && y' == y then v else old(Pix(x', y'))
      ensures forall i | 0 <= i < build.Length && !UsedByView(i) :: build[i] == old(build[i])
    {
      OffsetInside(showX, showY, x, y);
      forall x', y' | OnView(x', y') && Address(x', y') == Address(x, y) ensures x' == x && y' == y {
        OffsetInjective(showX, showY, x', y', x, y);
      }
      build[addr] := v;
    }

    /** Store one pixel of the view: *(img3 + (x >> 2) + y * SCROLL_X_WIDTH + (3 - (x & 3)) * SCROLL_SIZE) = v. */
    method SetPixel(x: int, y: int, v: byte)
      requires Valid() && OnView(x, y)
      modifies build
      ensures forall x', y' | OnView(x', y') :: Pix(x', y') == if x' == x && y' == y then v else old(Pix(x', y'))
      ensures forall i | 0 <= i < build.Length && !UsedByView(i) :: build[i] == old(build[i])
    {
      StoreAt(fence + img3Off + x / 4 + y * SCROLL_X_WIDTH + (3 - x % 4) * SCROLL_SIZE, x, y, v);
    }

    /** Clip the w by h rectangle at (posX,posY) to the view: its first pixel on view, where that lies in
        the rectangle's image, and how many columns and rows are on view. */
    method Clip(posX: int, posY: int, w: int, h: int) returns (px: int, py: int, start: int, cols: int, rows: int)
      requires 0 < w && 0 < h
      ensures px == (if posX < showX then showX else posX) && py == (if posY < showY then showY else posY)
      ensures px + cols == if showX + SCROLL_X_DIM < posX + w then showX + SCROLL_X_DIM else posX + w
      ensures py + rows == if showY + SCROLL_Y_DIM < posY + h then showY + SCROLL_Y_DIM else posY + h
      ensures start == (py - posY) * w + (px - posX)
    {
      var xLeft := showX - posX;
      if xLeft < 0 {
        xLeft := 0;
      }
      var xRight := showX + SCROLL_X_DIM - posX;
      if xRight > w {
        xRight := w;
      }
      var yTop := showY - posY;
      if yTop < 0 {
        yTop := 0;
      }
      var yBottom := showY + SCROLL_Y_DIM - posY;
      if yBottom > h {
        yBottom := h;
      }
      px, py, start := posX + xLeft, posY + yTop, yTop * w + xLeft;
      cols, rows := xRight - xLeft, yBottom - yTop;
    }

    /** Whether a block at (posX,posY) is completely off view. */
    predicate BlockOff(posX: int, posY: int)
      reads `showX, `showY
    {
      || posX + BLOCK_X_DIM <= showX || posX >= showX + SCROLL_X_DIM
      || posY + BLOCK_Y_DIM <= showY || posY >= showY + SCROLL_Y_DIM
    }

    /** draw_full_block: the part of a 12 by 12 image that is on view, and nothing else. */
    method DrawFullBlock(posX: int, posY: int, blk: seq<byte>)
      requires Valid() && |blk| == BLOCK_X_DIM * BLOCK_Y_DIM
      modifies build
      ensures forall x, y | OnView(x, y) :: Pix(x, y) ==
                if InRect(posX, posY, BLOCK_X_DIM, BLOCK_Y_DIM, x, y) then blk[(y - posY) * BLOCK_X_DIM + (x - posX)]
                else old(Pix(x, y))
      ensures forall i | 0 <= i < build.Length && !UsedByView(i) :: build[i] == old(build[i])
    {
      hide PixelOffset, UsedByView, Pix, Fits;
      if BlockOff(posX, posY) {
        return;
      }
      var px, py, b, cols, rows := Clip(posX, posY, BLOCK_X_DIM, BLOCK_Y_DIM);
      var dy, skip := 0, BLOCK_X_DIM - cols;
      while dy < rows
        invariant 0 <= dy <= rows && b == (py - posY) * BLOCK_X_DIM + (px - posX)
        invariant px == (if posX < showX then showX else posX) && py == (if posY < showY then showY else posY) + dy
        invariant forall x, y | OnView(x, y) :: Pix(x, y) ==
                    if InRect(posX, posY, BLOCK_X_DIM, BLOCK_Y_DIM, x, y) && y < py
                    then blk[(y - posY) * BLOCK_X_DIM + (x - posX)]
                    else old(Pix(x, y))
        invariant forall i | 0 <= i < build.Length && !UsedByView(i) :: build[i] == old(build[i])
      {
        var dx := 0;
        while dx < cols
          invariant 0 <= dx <= cols && b == (py - posY) * BLOCK_X_DIM + (px - posX)
          invariant px == (if posX < showX then showX else posX) + dx
          invariant forall x, y | OnView(x, y) :: Pix(x, y) ==
                      if InRect(posX, posY, BLOCK_X_DIM, BLOCK_Y_DIM, x, y) && (y < py || (y == py && x < px))
                      then blk[(y - posY) * BLOCK_X_DIM + (x - posX)]
                      else old(Pix(x, y))
          invariant forall i | 0 <= i < build.Length && !UsedByView(i) :: build[i] == old(build[i])
        {
          SetPixel(px, py, blk[b]);
          dx, px, b := dx + 1, px + 1, b + 1;
        }
        px, b := px - cols, b + skip;
        dy, py := dy + 1, py + 1;
      }
    }

    /** draw_full_block_with_mask: as draw_full_block, but only where the mask is 1. */
    method DrawFullBlockWithMask(posX: int, posY: int, blk: seq<byte>, mask: seq<byte>)
      requires Valid() && |blk| == BLOCK_X_DIM * BLOCK_Y_DIM && |mask| == BLOCK_X_DIM * BLOCK_Y_DIM
      modifies build
      ensures forall x, y | OnView(x, y) :: Pix(x, y) ==
                if InRect(posX, posY, BLOCK_X_DIM, BLOCK_Y_DIM, x, y)
                    && mask[(y - posY) * BLOCK_X_DIM + (x - posX)] == 1
                then blk[(y - posY) * BLOCK_X_DIM + (x - posX)] else old(Pix(x, y))
      ensures forall i | 0 <= i < build.Length && !UsedByView(i) :: build[i] == old(build[i])
    {
      hide PixelOffset, UsedByView, Pix, Fits;
      if BlockOff(posX, posY) {
        return;
      }
      var px, py, b, cols, rows := Clip(posX, posY, BLOCK_X_DIM, BLOCK_Y_DIM);
      var m, dy, skip := b, 0, BLOCK_X_DIM - cols;
      ghost var py0 := py;
      while dy < rows
        invariant 0 <= dy <= rows && b == (py - posY) * BLOCK_X_DIM + (px - posX)
        invariant m == (py0 - posY) * BLOCK_X_DIM + (px - posX)
        invariant px == (if posX < showX then showX else posX) && py == py0 + dy
        invariant forall x, y | OnView(x, y) :: Pix(x, y) ==
                    if InRect(posX, posY, BLOCK_X_DIM, BLOCK_Y_DIM, x, y) && y < py
                        && mask[(y - posY) * BLOCK_X_DIM + (x - posX)] == 1
                    then blk[(y - posY) * BLOCK_X_DIM + (x - posX)] else old(Pix(x, y))
        invariant forall i | 0 <= i < build.Length && !UsedByView(i) :: build[i] == old(build[i])
      {
        var dx := 0;
        while dx < cols
          invariant 0 <= dx <= cols && b == (py - posY) * BLOCK_X_DIM + (px - posX)
          invariant px == (if posX < showX then showX else posX) + dx
          invariant forall x, y | OnView(x, y) :: Pix(x, y) ==
                      if InRect(posX, posY, BLOCK_X_DIM, BLOCK_Y_DIM, x, y) && (y < py || (y == py && x < px))
                          && mask[(y - posY) * BLOCK_X_DIM + (x - posX)] == 1
                      then blk[(y - posY) * BLOCK_X_DIM + (x - posX)] else old(Pix(x, y))
          invariant forall i | 0 <= i < build.Length && !UsedByView(i) :: build[i] == old(build[i])
        {
          if mask[m + dx + BLOCK_X_DIM * dy] == 1 {
            SetPixel(px, py, blk[b]);
          }
          dx, px, b := dx + 1, px + 1, b + 1;
        }
        px, b := px - cols, b + skip;
        dy, py := dy + 1, py + 1;
      }
    }

    /** copy_full_block: keep the part of the view under a 12 by 12 block. */
    method CopyFullBlock(posX: int, posY: int, blk: array<byte>)
      requires Valid() && blk.Length == BLOCK_X_DIM * BLOCK_Y_DIM && blk != build
      modifies blk
      ensures forall x, y | OnView(x, y) && InRect(posX, posY, BLOCK_X_DIM, BLOCK_Y_DIM, x, y) ::
                blk[(y - posY) * BLOCK_X_DIM + (x - posX)] == Pix(x, y)
    {
      hide PixelOffset, Pix, Fits;
      if BlockOff(posX, posY) {
        return;
      }
      var px, py, b, cols, rows := Clip(posX, posY, BLOCK_X_DIM, BLOCK_Y_DIM);
      var dy, skip := 0, BLOCK_X_DIM - cols;
      while dy < rows
        invariant 0 <= dy <= rows && b == (py - posY) * BLOCK_X_DIM + (px - posX)
        invariant px == (if posX < showX then showX else posX) && py == (if posY < showY then showY else posY) + dy
        invariant forall x, y | OnView(x, y) && InRect(posX, posY, BLOCK_X_DIM, BLOCK_Y_DIM, x, y) && y < py ::
                    blk[(y - posY) * BLOCK_X_DIM + (x - posX)] == Pix(x, y)
      {
        var dx := 0;
        while dx < cols
          invariant 0 <= dx <= cols && b == (py - posY) * BLOCK_X_DIM + (px - posX)
          invariant px == (if posX < showX then showX else posX) + dx
          invariant forall x, y | OnView(x, y) && InRect(posX, posY, BLOCK_X_DIM, BLOCK_Y_DIM, x, y)
                    && (y < py || (y == py && x < px)) ::
                      blk[(y - posY) * BLOCK_X_DIM + (x - posX)] == Pix(x, y)
        {
          blk[b] := GetPixel(px, py);
          dx, px, b := dx + 1, px + 1, b + 1;
        }
        px, b := px - cols, b + skip;
        dy, py := dy + 1, py + 1;
      }
    }

    /** Load one pixel of the view. */
    method GetPixel(x: int, y: int) returns (v: byte)
      requires Valid() && OnView(x, y)
      ensures v == Pix(x, y)
    {
      OffsetInside(showX, showY, x, y);
      v := build[fence + img3Off + x / 4 + y * SCROLL_X_WIDTH + (3 - x % 4) * SCROLL_SIZE];
    }

    /** set_view_window: what was on view and still is, is where the new view expects it. */
    method SetViewWindow(scrX: int, scrY: int)
      requires Valid()
      modifies `showX, `showY, `img3Off, build
      ensures Valid() && showX == scrX && showY == scrY
      ensures forall x, y | OnView(x, y) && old(OnView(x, y)) :: Pix(x, y) == old(Pix(x, y))
      ensures forall i | 0 <= i < build.Length && InFence(i) :: build[i] == old(build[i])
    {
      var oldX, oldY := showX, showY;
      showX, showY := scrX, scrY;
      if && img3Off + scrX / 4 + scrY * SCROLL_X_WIDTH >= 0
         && img3Off + 3 * SCROLL_SIZE + (scrX + SCROLL_X_DIM - 1) / 4
             + (scrY + SCROLL_Y_DIM - 1) * SCROLL_X_WIDTH < BUILD_BUF_SIZE {
        return;
      }
      BaseFits(scrX, scrY);
      if || scrX <= oldX - SCROLL_X_DIM || scrX >= oldX + SCROLL_X_DIM
         || scrY <= oldY - SCROLL_Y_DIM || scrY >= oldY + SCROLL_Y_DIM {
        img3Off := BUILD_BASE_INIT - scrX / 4 - scrY * SCROLL_X_WIDTH;
        return;
      }
      CopyShared(oldX, oldY, scrX, scrY);
    }

    /** The rest of set_view_window: what both windows show is copied to where the new one has it. */
    method CopyShared(oldX: int, oldY: int, scrX: int, scrY: int)
      requires build.Length == BUILD_BUF_SIZE + 2 * fence && Fits(img3Off, oldX, oldY)
      requires oldX - SCROLL_X_DIM < scrX < oldX + SCROLL_X_DIM && oldY - SCROLL_Y_DIM < scrY < oldY + SCROLL_Y_DIM
      requires showX == scrX && showY == scrY
      modifies `img3Off, build
      ensures Valid()
      ensures forall x, y | OnView(x, y) && InWindow(oldX, oldY, x, y) :: Pix(x, y) == old(Pix(x, y))
      ensures forall i | 0 <= i < build.Length && InFence(i) :: build[i] == old(build[i])
    {
      BaseFits(scrX, scrY);
      var startX, endX := oldX, scrX;
      if scrX > oldX {
        startX, endX := scrX, oldX;
      }
      endX := endX + SCROLL_X_DIM - 1;
      var startY, endY := oldY, scrY;
      if scrY > oldY {
        startY, endY := scrY, oldY;
      }
      endY := endY + SCROLL_Y_DIM - 1;
      var startOff := startX / 4 + startY * SCROLL_X_WIDTH;
      var startAddr := fence + img3Off + startOff;
      var length := endX / 4 + endY * SCROLL_X_WIDTH + 1 - startOff + 3 * SCROLL_SIZE;
      img3Off := BUILD_BASE_INIT - showX / 4 - showY * SCROLL_X_WIDTH;
      var targetAddr := fence + img3Off + startOff;
      CopyInside(old(img3Off), oldX, oldY, startX, startY, endX, endY);
      CopyInside(img3Off, scrX, scrY, startX, startY, endX, endY);
      hide Fits, PixelOffset;
      MoveBytes(startAddr, targetAddr, length);
      forall x, y | OnView(x, y) && InWindow(oldX, oldY, x, y) ensures Pix(x, y) == old(Pix(x, y)) {
        OverlapInside(startX, startY, endX, endY, x, y);
        assert build[Address(x, y)] == old(build[Address(x, y)]);
      }
    }

    /** The copy loops of set_view_window: the direction is chosen so that overlapping areas copy right. */
    method MoveBytes(startAddr: int, targetAddr: int, length: int)
      requires 0 <= length && 0 <= startAddr && startAddr + length <= build.Length
      requires 0 <= targetAddr && targetAddr + length <= build.Length
      modifies build
      ensures forall j | targetAddr <= j < targetAddr + length :: build[j] == old(build[j - targetAddr + startAddr])
      ensures forall k | 0 <= k < build.Length && !(targetAddr <= k < targetAddr + length) :: build[k] == old(build[k])
    {
      if startAddr < targetAddr {
        var i := length;
        while i > 0
          invariant 0 <= i <= length
          invariant forall j | targetAddr + i <= j < targetAddr + length ::
                    build[j] == old(build[j - targetAddr + startAddr])
          invariant forall k | 0 <= k < build.Length && !(targetAddr + i <= k < targetAddr + length) ::
                    build[k] == old(build[k])
        {
          i := i - 1;
          build[targetAddr + i] := build[startAddr + i];
        }
      } else {
        var i := 0;
        while i < length
          invariant 0 <= i <= length
          invariant forall j | targetAddr <= j < targetAddr + i :: build[j] == old(build[j - targetAddr + startAddr])
          invariant forall k | 0 <= k < build.Length && !(targetAddr <= k < targetAddr + i) :: build[k] == old(build[k])
        {
          build[targetAddr + i] := build[startAddr + i];
          i := i + 1;
        }
      }
    }

    /** Where the text block goes: moved down or up to stay on view, the lowest place showing 15 rows. */
    function TextTop(posY: int): int
      reads `showY
    {
      var top := if posY <= showY then showY else posY;
      if top + TEXT_Y_DIM >= showY + SCROLL_Y_DIM then showY + SCROLL_Y_DIM - 15 else top
    }

    /** At least 15 rows of a text are on view. Its place is the one asked for as long as a row of the view is left
        below, and otherwise the first or the last that shows as much. */
    lemma TextPlaced(posY: int)
      ensures showY <= TextTop(posY) && TextTop(posY) + 15 <= showY + SCROLL_Y_DIM
      ensures showY <= posY && posY + TEXT_Y_DIM < showY + SCROLL_Y_DIM ==> TextTop(posY) == posY
      ensures posY < showY ==> TextTop(posY) == showY
      ensures showY + SCROLL_Y_DIM <= posY + TEXT_Y_DIM ==> TextTop(posY) + 15 == showY + SCROLL_Y_DIM
    {
    }

    /** Whether a text block is beside the view. */
    predicate TextOff(posX: int)
      reads `showX
    {
      posX + TEXT_X_DIM <= showX || posX >= showX + SCROLL_X_DIM
    }

    /** save_floor_block: keep the part of the view under the text block. */
    method SaveFloorBlock(posX: int, posY: int, floorBlock: array<byte>)
      requires Valid() && floorBlock.Length == TEXT_X_DIM * TEXT_Y_DIM && floorBlock != build
      modifies floorBlock
      ensures forall x, y | OnView(x, y) && InRect(posX, TextTop(posY), TEXT_X_DIM, TEXT_Y_DIM, x, y) ::
                floorBlock[(y - TextTop(posY)) * TEXT_X_DIM + (x - posX)] == Pix(x, y)
    {
      hide PixelOffset, Pix, Fits;
      if TextOff(posX) {
        return;
      }
      var top := TextTop(posY);
      var px, py, b, cols, rows := Clip(posX, top, TEXT_X_DIM, TEXT_Y_DIM);
      var dy, skip := 0, TEXT_X_DIM - cols;
      while dy < rows
        invariant 0 <= dy <= rows && b == (py - top) * TEXT_X_DIM + (px - posX)
        invariant px == (if posX < showX then showX else posX) && py == top + dy
        invariant forall x, y | OnView(x, y) && InRect(posX, top, TEXT_X_DIM, TEXT_Y_DIM, x, y) && y < py ::
                    floorBlock[(y - top) * TEXT_X_DIM + (x - posX)] == Pix(x, y)
      {
        var dx := 0;
        while dx < cols
          invariant 0 <= dx <= cols && b == (py - top) * TEXT_X_DIM + (px - posX)
          invariant px == (if posX < showX then showX else posX) + dx
          invariant forall x, y | OnView(x, y) && InRect(posX, top, TEXT_X_DIM, TEXT_Y_DIM, x, y)
                    && (y < py || (y == py && x < px)) ::
                      floorBlock[(y - top) * TEXT_X_DIM + (x - posX)] == Pix(x, y)
        {
          floorBlock[b] := GetPixel(px, py);
          dx, px, b := dx + 1, px + 1, b + 1;
        }
        px, b := px - cols, b + skip;
        dy, py := dy + 1, py + 1;
      }
    }

    /** draw_fruit_text_full_block: the saved block in transparent colours, where the text is. */
    method DrawFruitTextFullBlock(posX: int, posY: int, blk: seq<byte>, text: seq<byte>)
      requires Valid() && |blk| == TEXT_X_DIM * TEXT_Y_DIM && |text| == TEXT_X_DIM * TEXT_Y_DIM
      modifies build
      ensures forall x, y | OnView(x, y) :: Pix(x, y) ==
                if InRect(posX, TextTop(posY), TEXT_X_DIM, TEXT_Y_DIM, x, y)
                    && text[(y - TextTop(posY)) * TEXT_X_DIM + (x - posX)] != 0
                then Transparent(blk[(y - TextTop(posY)) * TEXT_X_DIM + (x - posX)]) else old(Pix(x, y))
      ensures forall i | 0 <= i < build.Length && !UsedByView(i) :: build[i] == old(build[i])
    {
      hide PixelOffset, UsedByView, Transparent, Pix, Fits;
      if TextOff(posX) {
        return;
      }
      var top := TextTop(posY);
      var px, py, b, cols, rows := Clip(posX, top, TEXT_X_DIM, TEXT_Y_DIM);
      var dy, skip := 0, TEXT_X_DIM - cols;
      while dy < rows
        invariant 0 <= dy <= rows && b == (py - top) * TEXT_X_DIM + (px - posX)
        invariant px == (if posX < showX then showX else posX) && py == top + dy
        invariant forall x, y | OnView(x, y) :: Pix(x, y) ==
                    if InRect(posX, top, TEXT_X_DIM, TEXT_Y_DIM, x, y) && y < py
                        && text[(y - top) * TEXT_X_DIM + (x - posX)] != 0
                    then Transparent(blk[(y - top) * TEXT_X_DIM + (x - posX)]) else old(Pix(x, y))
        invariant forall i | 0 <= i < build.Length && !UsedByView(i) :: build[i] == old(build[i])
      {
        var dx := 0;
        while dx < cols
          invariant 0 <= dx <= cols && b == (py - top) * TEXT_X_DIM + (px - posX)
          invariant px == (if posX < showX then showX else posX) + dx
          invariant forall x, y | OnView(x, y) :: Pix(x, y) ==
                      if InRect(posX, top, TEXT_X_DIM, TEXT_Y_DIM, x, y) && (y < py || (y == py && x < px))
                          && text[(y - top) * TEXT_X_DIM + (x - posX)] != 0
                      then Transparent(blk[(y - top) * TEXT_X_DIM + (x - posX)]) else old(Pix(x, y))
          invariant forall i | 0 <= i < build.Length && !UsedByView(i) :: build[i] == old(build[i])
        {
          if text[b] != 0 {
            SetPixel(px, py, Transparent(blk[b]));
          }
          dx, px, b := dx + 1, px + 1, b + 1;
        }
        px, b := px - cols, b + skip;
        dy, py := dy + 1, py + 1;
      }
    }

    /** mask_fruit_text_full_block: put the saved block back. */
    method MaskFruitTextFullBlock(posX: int, posY: int, blk: seq<byte>)
      requires Valid() && |blk| == TEXT_X_DIM * TEXT_Y_DIM
      modifies build
      ensures forall x, y | OnView(x, y) :: Pix(x, y) ==
                if InRect(posX, TextTop(posY), TEXT_X_DIM, TEXT_Y_DIM, x, y)
                then blk[(y - TextTop(posY)) * TEXT_X_DIM + (x - posX)]
                else old(Pix(x, y))
      ensures forall i | 0 <= i < build.Length && !UsedByView(i) :: build[i] == old(build[i])
    {
      hide PixelOffset, UsedByView, Pix, Fits;
      if TextOff(posX) {
        return;
      }
      var top := TextTop(posY);
      var px, py, b, cols, rows := Clip(posX, top, TEXT_X_DIM, TEXT_Y_DIM);
      var dy, skip := 0, TEXT_X_DIM - cols;
      while dy < rows
        invariant 0 <= dy <= rows && b == (py - top) * TEXT_X_DIM + (px - posX)
        invariant px == (if posX < showX then showX else posX) && py == top + dy
        invariant forall x, y | OnView(x, y) :: Pix(x, y) ==
                    if InRect(posX, top, TEXT_X_DIM, TEXT_Y_DIM, x, y) && y < py
                    then blk[(y - top) * TEXT_X_DIM + (x - posX)]
                    else old(Pix(x, y))
        invariant forall i | 0 <= i < build.Length && !UsedByView(i) :: build[i] == old(build[i])
      {
        var dx := 0;
        while dx < cols
          invariant 0 <= dx <= cols && b == (py - top) * TEXT_X_DIM + (px - posX)
          invariant px == (if posX < showX then showX else posX) + dx
          invariant forall x, y | OnView(x, y) :: Pix(x, y) ==
                      if InRect(posX, top, TEXT_X_DIM, TEXT_Y_DIM, x, y) && (y < py || (y == py && x < px))
                      then blk[(y - top) * TEXT_X_DIM + (x - posX)]
                      else old(Pix(x, y))
          invariant forall i | 0 <= i < build.Length && !UsedByView(i) :: build[i] == old(build[i])
        {
          SetPixel(px, py, blk[b]);
          dx, px, b := dx + 1, px + 1, b + 1;
        }
        px, b := px - cols, b + skip;
        dy, py := dy + 1, py + 1;
      }
    }

    /** draw_horiz_line: line y of the view, from the maze; -1 when there is no such line. */
    method DrawHorizLine(y0: int, maze: Maze) returns (r: int)
      requires Valid() && maze.Drawable()
      requires 0 <= showX && showX + SCROLL_X_DIM <= (2 * maze.xDim + 1) * BLOCK_X_DIM
      requires 0 <= showY && showY + SCROLL_Y_DIM <= (2 * maze.yDim + 1) * BLOCK_Y_DIM
      modifies build
      ensures r == if 0 <= y0 < SCROLL_Y_DIM then 0 else -1
      ensures forall x, y | OnView(x, y) :: Pix(x, y) ==
                if y == showY + y0 then maze.Rendered(x, y) else old(Pix(x, y))
      ensures forall i | 0 <= i < build.Length && !UsedByView(i) :: build[i] == old(build[i])
    {
      hide Render, UsedByView, PixelOffset;
      if y0 < 0 || y0 >= SCROLL_Y_DIM {
        return -1;
      }
      var line := y0 + showY;
      var buf := new byte[SCROLL_X_DIM];
      maze.FillHorizBuffer(showX, line, buf);
      DrawRow(line, buf);
      return 0;
    }

    /** The pixels of a line into their planes: next plane for each pixel, next byte after plane 0. */
    method DrawRow(line: int, buf: array<byte>)
      requires Valid() && buf.Length == SCROLL_X_DIM && buf != build && showY <= line < showY + SCROLL_Y_DIM
      modifies build
      ensures forall x, y | OnView(x, y) :: Pix(x, y) == if y == line then buf[x - showX] else old(Pix(x, y))
      ensures forall i | 0 <= i < build.Length && !UsedByView(i) :: build[i] == old(build[i])
    {
      hide PixelOffset, UsedByView, Pix, Fits;
      var addr := fence + img3Off + showX / 4 + line * SCROLL_X_WIDTH;
      var pOff := 3 - showX % 4;
      NextInRow(showX, line);
      for i := 0 to SCROLL_X_DIM
        invariant 0 <= pOff <= 3
        invariant addr + pOff * SCROLL_SIZE == Address(showX + i, line) && pOff == 3 - (showX + i) % 4
        invariant forall x, y | OnView(x, y) :: Pix(x, y) ==
                    if y == line && x < showX + i then buf[x - showX] else old(Pix(x, y))
        invariant forall j | 0 <= j < build.Length && !UsedByView(j) :: build[j] == old(build[j])
      {
        StoreAt(addr + pOff * SCROLL_SIZE, showX + i, line, buf[i]);
        NextInRow(showX + i, line);
        pOff := pOff - 1;
        if pOff < 0 {
          pOff, addr := 3, addr + 1;
        }
      }
    }

    /** draw_vert_line: column x of the view, from the maze; -1 when there is no such column. */
    method DrawVertLine(x0: int, maze: Maze) returns (r: int)
      requires Valid() && maze.Drawable()
      requires 0 <= showX && showX + SCROLL_X_DIM <= (2 * maze.xDim + 1) * BLOCK_X_DIM
      requires 0 <= showY && showY + SCROLL_Y_DIM <= (2 * maze.yDim + 1) * BLOCK_Y_DIM
      modifies build
      ensures r == if 0 <= x0 < SCROLL_X_DIM then 0 else -1
      ensures forall x, y | OnView(x, y) :: Pix(x, y) ==
                if x == showX + x0 then maze.Rendered(x, y) else old(Pix(x, y))
      ensures forall i | 0 <= i < build.Length && !UsedByView(i) :: build[i] == old(build[i])
    {
      hide Render, UsedByView, PixelOffset;
      if x0 < 0 || x0 >= SCROLL_X_DIM {
        return -1;
      }
      var column := x0 + showX;
      var buf := new byte[SCROLL_Y_DIM];
      maze.FillVertBuffer(column, showY, buf);
      var addr := fence + img3Off + column / 4 + showY * SCROLL_X_WIDTH;
      var plane := 3 - column % 4;
      NextInRow(column, showY);
      ghost var picture := buf[..];
      for j := 0 to SCROLL_Y_DIM
        invariant addr + plane * SCROLL_SIZE == Address(column, showY + j)
        invariant buf[..] == picture
        invariant forall x, y | OnView(x, y) :: Pix(x, y) ==
                    if x == column && y < showY + j then picture[y - showY] else old(Pix(x, y))
        invariant forall i | 0 <= i < build.Length && !UsedByView(i) :: build[i] == old(build[i])
      {
        StoreAt(addr + plane * SCROLL_SIZE, column, showY + j, buf[j]);
        NextInColumn(column, showY + j);
        addr := addr + SCROLL_X_WIDTH;
      }
      return 0;
    }

    /** One of two pages, both past the status bar. */
    ghost predicate Paged()
      reads `targetImg
    {
      vram.Length0 == 4 && vram.Length1 == VIDEO_PLANE_SIZE && (targetImg == PAGE_0 || targetImg == FlipPage(PAGE_0))
    }

    /** The bytes of the status bar, which come before both pages, are what they were. */
    twostate predicate StatusKept()
      reads vram
    {
      forall p, a | 0 <= p < vram.Length0 && 0 <= a < PAGE_0 && a < vram.Length1 :: vram[p, a] == old(vram[p, a])
    }

    /** Display pixel (c,r) of the page at `page`: mode X puts every fourth pixel in the same plane. */
    ghost function Shown(page: int, c: int, r: int): byte
      reads vram
    {
      if 0 <= c < SCROLL_X_DIM && 0 <= r < SCROLL_Y_DIM && 0 <= page && page + SCROLL_SIZE <= vram.Length1
          && vram.Length0 == 4
      then vram[c % 4, page + r * SCROLL_X_WIDTH + c / 4] else 0
    }

    /** Where that is in video memory. */
    lemma ShownAt(page: int, c: int, r: int)
      requires vram.Length0 == 4 && 0 <= page && page + 14560 <= vram.Length1 && 0 <= c < 320 && 0 <= r < 182
      ensures page + 80 * r + c / 4 < vram.Length1 && Shown(page, c, r) == vram[c % 4, page + 80 * r + c / 4]
    {
    }

    /** copy_image: one plane of the view to video memory (rep movsb). */
    method CopyImage(plane: int, img: int, scrAddr: int)
      requires 0 <= plane < vram.Length0 && 0 <= scrAddr && scrAddr + SCROLL_SIZE <= vram.Length1
      requires 0 <= img && img + SCROLL_SIZE <= build.Length
      modifies vram
      ensures forall p, a | 0 <= p < vram.Length0 && 0 <= a < vram.Length1 ::
                vram[p, a] == if p == plane && scrAddr <= a < scrAddr + SCROLL_SIZE then build[img + a - scrAddr]
                              else old(vram[p, a])
    {
      forall a | scrAddr <= a < scrAddr + SCROLL_SIZE {
        vram[plane, a] := build[img + a - scrAddr];
      }
    }

    /** Plane i of the page: the pixels of every fourth column, and no others. */
    method ShowPlane(i: int)
      requires Valid() && Paged() && 0 <= i < 4
      modifies vram
      ensures forall c, r | 0 <= c < SCROLL_X_DIM && 0 <= r < SCROLL_Y_DIM ::
                Shown(targetImg, c, r) == if c % 4 == i then Pix(showX + c, showY + r) else old(Shown(targetImg, c, r))
      ensures forall p, a | 0 <= p < vram.Length0 && 0 <= a < vram.Length1
              && !(targetImg <= a < targetImg + SCROLL_SIZE) ::
                vram[p, a] == old(vram[p, a])
    {
      hide PixelOffset, FlipPage;
      Pages();
      var pOff := 3 - showX % 4;
      var addr := fence + img3Off + showX / 4 + showY * SCROLL_X_WIDTH;
      ShowInside(img3Off, showX, showY, i);
      CopyImage(i, addr + ((pOff - i + 4) % 4) * SCROLL_SIZE + (if pOff < i then 1 else 0), targetImg);
      forall c, r | 0 <= c < SCROLL_X_DIM && 0 <= r < SCROLL_Y_DIM
        ensures Shown(targetImg, c, r) == if c % 4 == i then Pix(showX + c, showY + r) else old(Shown(targetImg, c, r))
      {
        ShowAddress(showX, showY, c, r);
      }
    }

    /** show_screen: flips to the other page and fills it with the view, leaving the page on display
        and the status bar alone. */
    method ShowScreen()
      requires Valid() && Paged()
      modifies this`targetImg, vram
      ensures Paged() && targetImg == FlipPage(old(targetImg)) && StatusKept()
      ensures forall c, r | 0 <= c < SCROLL_X_DIM && 0 <= r < SCROLL_Y_DIM ::
              Shown(targetImg, c, r) == Pix(showX + c, showY + r)
      ensures forall p, a | 0 <= p < vram.Length0 && 0 <= a < vram.Length1
              && !(targetImg <= a < targetImg + SCROLL_SIZE) ::
                vram[p, a] == old(vram[p, a])
    {
      targetImg := FlipPage(targetImg);
      hide Pix, Shown, Fits;
      var i := 0;
      while i < 4
        invariant 0 <= i <= 4 && Valid() && targetImg == FlipPage(old(targetImg)) && Paged()
        invariant forall c, r | 0 <= c < SCROLL_X_DIM && 0 <= r < SCROLL_Y_DIM && c % 4 < i ::
                  Shown(targetImg, c, r) == Pix(showX + c, showY + r)
        invariant forall p, a | 0 <= p < vram.Length0 && 0 <= a < vram.Length1
                  && !(targetImg <= a < targetImg + SCROLL_SIZE) ::
                    vram[p, a] == old(vram[p, a])
      {
        ShowPlane(i);
        i := i + 1;
      }
    }
  }
}
