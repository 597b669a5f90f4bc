/** What read_data should deliver and what it answers (file_system_driver.c): a file is scattered over
    blocks of 4096 bytes and read in pieces. */
module FileData {
  import opened Common

  const BLOCK := 4096

  type Block = s: seq<byte> | |s| == BLOCK witness seq(BLOCK, _ => 0)
  /** A non-negative int32_t. */
  type Size = n: nat | n < 0x8000_0000

  /** blockNum(k) is the number of the k-th data block; past the 1023 entries of the table, whatever follows it. */
  datatype Inode = Inode(length: Size, blockNum: nat -> int)

  /** blocks(n) are the 4096 bytes at data block n; for a number that is not a data block, whatever memory holds. */
  datatype Disk = Disk(blocks: int -> Block, inodes: seq<Inode>)

  /** The byte at a position of a file, going on into what the blocks hold behind its end. */
  function FlatByte(d: Disk, f: Inode, p: nat): byte {
    d.blocks(f.blockNum(p / BLOCK))[p % BLOCK]
  }

  function Bytes(d: Disk, f: Inode, p: nat, n: nat): (s: seq<byte>)
    ensures |s| == n
  {
    seq<byte>(n, i requires 0 <= i < n => FlatByte(d, f, p + i))
  }

  /** The file as one flat sequence. */
  function Contents(d: Disk, f: Inode): (s: seq<byte>)
    ensures |s| == f.length
  {
    Bytes(d, f, 0, f.length)
  }

  lemma BytesAppend(d: Disk, f: Inode, p: nat, n: nat, m: nat)
    ensures Bytes(d, f, p, n) + Bytes(d, f, p + n, m) == Bytes(d, f, p, n + m)
  {
  }

  /** Inside one block, the flat bytes are a slice of the block. */
  lemma BytesInBlock(d: Disk, f: Inode, p: nat, n: nat)
    requires p % BLOCK + n <= BLOCK
    ensures Bytes(d, f, p, n) == d.blocks(f.blockNum(p / BLOCK))[p % BLOCK..p % BLOCK + n]
  {
    var block := d.blocks(f.blockNum(p / BLOCK));
    forall i | 0 <= i < n
      ensures Bytes(d, f, p, n)[i] == block[p % BLOCK..p % BLOCK + n][i]
    {
      SameBlock(p, i);
    }
  }

  lemma SameBlock(p: nat, i: nat)
    requires p % BLOCK + i < BLOCK
    ensures (p + i) / BLOCK == p / BLOCK && (p + i) % BLOCK == p % BLOCK + i
  {
  }

  /** What is left of the block the offset is in. */
  function Fragment(offset: nat): (r: nat)
    ensures 1 <= r <= BLOCK && offset % BLOCK + r == BLOCK && (offset + r) % BLOCK == 0
    ensures (offset + r) / BLOCK == offset / BLOCK + 1
  {
    BLOCK - offset % BLOCK
  }

  /** The length after truncation at the end of the file. */
  function Asked(size: Size, offset: nat, length: nat): nat {
    if (length + offset) % WORD > size then (size - offset) % WORD else length
  }

  /** The size of the last piece when n > 0 bytes are copied block by block. */
  function LastPiece(n: nat): (r: nat)
    ensures r <= n && r <= BLOCK
    ensures 0 < n ==> 1 <= r && (n - r) % BLOCK == 0
  {
    if n <= BLOCK then n else LastPiece(n - BLOCK)
  }

  /** No more bytes are put in the buffer than the caller asked for. */
  predicate Fits(size: Size, offset: nat, length: nat) {
    if Asked(size, offset, length) <= Fragment(offset) then Asked(size, offset, length) <= length
    else Fragment(offset) <= length
  }

  /** How many bytes read_data puts in the buffer: across a block boundary it does not stop at the end of the file. */
  function Written(size: Size, offset: nat, length: nat): nat {
    if Asked(size, offset, length) <= Fragment(offset) then Asked(size, offset, length) else length
  }

  /** What read_data answers: across a block boundary, the size of its last copy. */
  function Returned(size: Size, offset: nat, length: nat): (r: nat)
    requires Fits(size, offset, length)
    ensures r <= BLOCK
  {
    if Asked(size, offset, length) <= Fragment(offset) then Asked(size, offset, length)
    else LastPiece(length - Fragment(offset))
  }

  /** What a read should deliver: up to the end of the file or of the buffer, whichever is sooner. */
  function Available(size: Size, offset: nat, length: nat): nat
    requires offset <= size
  {
    if length <= size - offset then length else size - offset
  }

  /** At or before the end of the file, at least what is available is put in the buffer, and it fits. */
  lemma Delivers(size: Size, offset: nat, length: nat)
    requires offset <= size && length < WORD
    ensures Fits(size, offset, length)
    ensures Available(size, offset, length) <= Written(size, offset, length) <= length
  {
  }

  /** Past the end a read keeps inside its buffer exactly when it asks for the rest of the block at least, or when its
      end wraps around to a position in the file. */
  lemma FitsPastEnd(size: Size, offset: nat, length: nat)
    requires size < offset < WORD && length < WORD
    ensures Fits(size, offset, length) <==> Fragment(offset) <= length || (offset + length) % WORD <= size
  {
    BlockInWord(offset);
    WrappedEnd(offset, length);
  }

  /** The block of an offset ends inside the 32 bits. */
  lemma BlockInWord(offset: nat)
    requires offset < WORD
    ensures offset + Fragment(offset) <= WORD
  {
    assert WORD % BLOCK == 0;
  }

  lemma WrappedEnd(offset: nat, length: nat)
    requires offset < WORD && length < WORD
    ensures (offset + length) % WORD == if offset + length < WORD then offset + length else offset + length - WORD
  {
  }

  /** What a read at or before the end of the file answers. */
  function Answer(size: Size, offset: nat, length: Size): nat
    requires offset <= size
  {
    Delivers(size, offset, length);
    Returned(size, offset, length)
  }

  /** The answer is a number of bytes that were put in the buffer. */
  lemma AnswerInBuffer(size: Size, offset: nat, length: nat)
    requires Fits(size, offset, length)
    ensures Returned(size, offset, length) <= Written(size, offset, length) <= length
  {
    hide LastPiece;
  }

  /** Past the end of the file a read answers 0, as the documentation promises, exactly if it asks for just the rest of
      a block before the last; it should always. */
  lemma PastEndAnswer(size: Size, offset: nat, length: nat)
    requires size < offset < WORD && length < WORD && Fits(size, offset, length)
    ensures Returned(size, offset, length) == 0 <==> length == Fragment(offset) && offset + length < WORD
  {
    hide LastPiece;
    BlockInWord(offset);
    WrappedEnd(offset, length);
    FitsPastEnd(size, offset, length);
    if length > Fragment(offset) {
      LastPieceIs(length - Fragment(offset));
    }
    PieceStep(0);
  }

  /** What a read at or before the end answers, without the arithmetic of 32 bits. */
  lemma AnswerIs(size: Size, offset: nat, length: Size)
    requires offset <= size
    ensures var due, rest := Available(size, offset, length), Fragment(offset);
            Answer(size, offset, length) == if due <= rest then due else LastPiece(length - rest)
  {
    hide LastPiece, Fragment;
    Delivers(size, offset, length);
    WrappedEnd(offset, length);
    WrappedEnd(0, size - offset);
  }

  /** The answer is what the documentation promises exactly when the read stays in one block, or when the size of the
      last copy happens to agree with what is left of the file. */
  lemma ReturnExact(size: Size, offset: nat, length: Size)
    requires offset <= size
    ensures var due, rest := Available(size, offset, length), Fragment(offset);
            Answer(size, offset, length) == due <==> due <= rest || (due <= BLOCK && (length - rest - due) % BLOCK == 0)
  {
    hide LastPiece, Answer, Fragment;
    AnswerIs(size, offset, length);
    var due, rest := Available(size, offset, length), Fragment(offset);
    if due > rest {
      var last := LastPiece(length - rest);
      if due <= BLOCK && (length - rest - due) % BLOCK == 0 {
        SameRemainder(length - rest, last, due);
      }
    }
  }

  lemma PieceStep(n: nat)
    ensures LastPiece(n) == if n > BLOCK then LastPiece(n - BLOCK) else n
  {
  }

  lemma SameRemainder(n: int, a: int, b: int)
    requires (n - a) % BLOCK == 0 && (n - b) % BLOCK == 0 && 1 <= a <= BLOCK && 1 <= b <= BLOCK
    ensures a == b
  {
  }

  /** A read that ends inside the file answers at most what it delivered; one that does not, exactly when it stays in
      one block or its last copy is no longer than what was left. */
  lemma ReturnSound(size: Size, offset: nat, length: Size)
    requires offset <= size
    ensures var due, rest := Available(size, offset, length), Fragment(offset);
            Answer(size, offset, length) <= due <==>
                offset + length <= size || due <= rest || (length - rest - 1) % BLOCK < due
  {
    hide LastPiece, Answer, Fragment;
    AnswerIs(size, offset, length);
    var due, rest := Available(size, offset, length), Fragment(offset);
    if due > rest {
      var n := length - rest;
      LastPieceIs(n);
      assert offset + length <= size ==> LastPiece(n) <= due;
    }
  }

  lemma LastPieceIs(n: nat)
    requires 0 < n
    ensures LastPiece(n) == (n - 1) % BLOCK + 1
  {
    SameRemainder(n, LastPiece(n), (n - 1) % BLOCK + 1);
  }

  /** Before the end a read answers something, so a run of sound reads gets to the end. */
  lemma ReturnProgress(size: Size, offset: nat, length: Size)
    requires offset <= size && 0 < length
    ensures Answer(size, offset, length) == 0 <==> offset == size
  {
    hide LastPiece, Answer, Fragment;
    AnswerIs(size, offset, length);
  }

  /** Where reads of these sizes leave the position. */
  function PositionAfter(size: Size, position: nat, chunks: seq<Size>): nat {
    if chunks == [] then position
    else
      var before := PositionAfter(size, position, chunks[..|chunks| - 1]);
      if before <= size then Advanced(size, before, chunks[|chunks| - 1]) else before
  }

  /** The position after a read. */
  function Advanced(size: Size, position: nat, length: Size): (r: nat)
    requires position <= size
    ensures r == position + Answer(size, position, length)
  {
    (position + Answer(size, position, length)) % WORD
  }

  /** Every read answers at most what it delivered. */
  ghost predicate AllSound(size: Size, position: nat, chunks: seq<Size>) {
    chunks == [] || (
      var before := PositionAfter(size, position, chunks[..|chunks| - 1]);
      AllSound(size, position, chunks[..|chunks| - 1])
      && before <= size && Advanced(size, before, chunks[|chunks| - 1]) <= size)
  }

  /** All that the reads handed over, one after another. */
  function Handed(d: Disk, f: Inode, position: nat, chunks: seq<Size>): seq<byte> {
    if chunks == [] then []
    else
      var before := PositionAfter(f.length, position, chunks[..|chunks| - 1]);
      Handed(d, f, position, chunks[..|chunks| - 1])
      + if before <= f.length then Bytes(d, f, before, Answer(f.length, before, chunks[|chunks| - 1])) else []
  }

  lemma SliceOf(d: Disk, f: Inode, p: nat, n: nat)
    requires p + n <= f.length
    ensures Bytes(d, f, p, n) == Contents(d, f)[p..p + n]
  {
    hide FlatByte;
  }

  lemma SliceOn(s: seq<byte>, from: nat, p: nat, n: nat)
    requires from <= p && p + n <= |s|
    ensures s[from..p] + s[p..p + n] == s[from..p + n]
  {
  }

  /** Sound reads of whatever sizes hand over a stretch of the file with nothing lost, doubled or made up. */
  lemma {:induction false} SoundReads(d: Disk, f: Inode, position: nat, chunks: seq<Size>)
    requires position <= f.length && AllSound(f.length, position, chunks)
    ensures position <= PositionAfter(f.length, position, chunks) <= f.length
    ensures Handed(d, f, position, chunks) == Contents(d, f)[position..PositionAfter(f.length, position, chunks)]
  {
    hide Answer, Advanced, Bytes, Contents;
    if chunks != [] {
      var early := chunks[..|chunks| - 1];
      SoundReads(d, f, position, early);
      var before := PositionAfter(f.length, position, early);
      var n := Answer(f.length, before, chunks[|chunks| - 1]);
      SliceOf(d, f, before, n);
      SliceOn(Contents(d, f), position, before, n);
    }
  }

  predicate Divides(chunk: nat, n: nat)
    requires 0 < chunk
  {
    n % chunk == 0
  }

  /** Reads of a size that divides the block never cross a block boundary. */
  lemma AlignedRead(size: Size, position: nat, chunk: Size)
    requires 0 < chunk && Divides(chunk, BLOCK)
    requires position <= size && (position == size || Divides(chunk, position))
    ensures Advanced(size, position, chunk) == position + Available(size, position, chunk)
    ensures Advanced(size, position, chunk) <= size
    ensures Advanced(size, position, chunk) == size || Divides(chunk, Advanced(size, position, chunk))
  {
    hide Answer, Divides;
    ReturnExact(size, position, chunk);
    if position < size {
      WholeChunks(position, chunk);
      NextChunk(position, chunk);
    }
  }

  lemma NextChunk(position: nat, chunk: nat)
    requires 0 < chunk && Divides(chunk, position)
    ensures Divides(chunk, position + chunk)
  {
    assert position == chunk * (position / chunk);
    assert position + chunk == chunk * (position / chunk + 1);
    MultipleOf(position / chunk + 1, chunk);
  }

  lemma MultipleOf(n: nat, chunk: nat)
    requires 0 < chunk
    ensures Divides(chunk, chunk * n)
  {
    Quotient(chunk * n, chunk, n);
  }

  lemma OneMore(n: nat, chunk: nat)
    requires 0 < chunk
    ensures (n + 1) * chunk == n * chunk + chunk && Divides(chunk, n * chunk)
  {
    assert n * chunk == chunk * n;
    MultipleOf(n, chunk);
  }

  lemma Quotient(x: nat, chunk: nat, n: nat)
    requires 0 < chunk && x == chunk * n
    ensures x % chunk == 0 && x / chunk == n
  {
    var q, r := x / chunk, x % chunk;
    assert x == chunk * q + r;
    assert chunk * (n - q) == r && chunk * (q - n) == -r;
    if n > q {
      Product(chunk, n - q);
      assert false;
    }
    Product(chunk, q - n);
  }

  lemma Product(chunk: nat, n: nat)
    ensures 0 <= chunk * n && (0 < n ==> chunk <= chunk * n)
  {
    if 0 < n {
      assert chunk * n == chunk * (n - 1) + chunk;
      assert 0 <= chunk * (n - 1);
    }
  }

  lemma Larger(chunk: nat, t: int, q: int)
    requires chunk * t < chunk * q
    ensures chunk * t + chunk <= chunk * q
  {
    if q <= t {
      Product(chunk, t - q);
      assert false;
    }
    Product(chunk, q - t);
  }

  /** A position in whole chunks has at least a chunk left of its block, if the block is whole chunks. */
  lemma WholeChunks(position: nat, chunk: nat)
    requires 0 < chunk && Divides(chunk, BLOCK) && Divides(chunk, position)
    ensures chunk <= Fragment(position)
  {
    var q, a, b := BLOCK / chunk, position / chunk, position / BLOCK;
    assert BLOCK == chunk * q && position == chunk * a;
    var t := a - q * b;
    assert position % BLOCK == chunk * t by {
      assert BLOCK * b == chunk * (q * b);
    }
    Larger(chunk, t, q);
  }

  /** n reads of the same size. */
  function Chunks(n: nat, chunk: Size): (r: seq<Size>)
    ensures |r| == n && n > 0 ==> r[n - 1] == chunk && r[..n - 1] == Chunks(n - 1, chunk)
  {
    seq(n, _ => chunk)
  }

  /** Where n reads of the same size leave a fresh descriptor. */
  function Position(size: Size, chunk: Size, n: nat): nat {
    PositionAfter(size, 0, Chunks(n, chunk))
  }

  lemma PositionStep(size: Size, chunk: Size, n: nat)
    ensures Position(size, chunk, 0) == 0
    ensures Position(size, chunk, n + 1) ==
            if Position(size, chunk, n) <= size then Advanced(size, Position(size, chunk, n), chunk)
            else Position(size, chunk, n)
  {
    assert Chunks(n + 1, chunk)[..n] == Chunks(n, chunk);
  }

  lemma {:induction false} AlignedPositions(size: Size, chunk: Size, n: nat)
    requires 0 < chunk && Divides(chunk, BLOCK)
    ensures AllSound(size, 0, Chunks(n, chunk))
    ensures Position(size, chunk, n) == if n * chunk <= size then n * chunk else size
  {
    hide Answer, Advanced, Divides;
    if n > 0 {
      AlignedPositions(size, chunk, n - 1);
      assert Chunks(n, chunk)[..n - 1] == Chunks(n - 1, chunk);
      OneMore(n - 1, chunk);
      AlignedRead(size, Position(size, chunk, n - 1), chunk);
    }
  }

  lemma NothingAtEnd(size: Size, chunk: Size)
    ensures Answer(size, size, chunk) == 0
  {
    ReturnExact(size, size, chunk);
  }

  /** Reads of a size that divides the block hand over the whole file and then nothing, for ever. */
  lemma AlignedReads(d: Disk, f: Inode, chunk: Size, n: nat)
    requires 0 < chunk && Divides(chunk, BLOCK)
    ensures Position(f.length, chunk, n) == if n * chunk <= f.length then n * chunk else f.length
    ensures Handed(d, f, 0, Chunks(n, chunk)) == Contents(d, f)[..Position(f.length, chunk, n)]
    ensures f.length <= n * chunk ==> Handed(d, f, 0, Chunks(n, chunk)) == Contents(d, f)
    ensures f.length <= n * chunk ==> Answer(f.length, Position(f.length, chunk, n), chunk) == 0
  {
    hide Answer, Advanced, Handed, Bytes, PositionAfter, AllSound, Chunks;
    AlignedPositions(f.length, chunk, n);
    SoundReads(d, f, 0, Chunks(n, chunk));
    NothingAtEnd(f.length, chunk);
    assert Contents(d, f)[..f.length] == Contents(d, f);
  }

  /** The n-th read of a run in chunks answers just what the documentation promises. */
  ghost predicate ExactRead(size: Size, chunk: Size, n: nat) {
    var p := Position(size, chunk, n);
    p <= size && Advanced(size, p, chunk) == p + Available(size, p, chunk)
  }

  /** The one size of file, for a chunk that does not divide the block, whose first read across a block boundary is by
      chance its last and answers the right count. */
  function LuckySize(chunk: nat): int
    requires 0 < chunk
  {
    (2 * (BLOCK / chunk) + 1) * chunk - BLOCK
  }

  /** Reading in chunks keeps its promise on every read exactly when the file is a single block, or the chunk divides
      the block, or the file has the lucky size. */
  lemma ChunksExact(size: Size, chunk: Size)
    requires 0 < chunk
    ensures (forall n :: ExactRead(size, chunk, n)) <==>
            size <= BLOCK || Divides(chunk, BLOCK) || (chunk < BLOCK && size == LuckySize(chunk))
  {
    if size <= BLOCK {
      forall n ensures ExactRead(size, chunk, n) {
        OneBlock(size, chunk, n);
      }
    } else if Divides(chunk, BLOCK) {
      forall n ensures ExactRead(size, chunk, n) {
        AlignedExact(size, chunk, n);
      }
    } else if chunk < BLOCK && size == LuckySize(chunk) {
      forall n ensures ExactRead(size, chunk, n) {
        Lucky(size, chunk, n);
      }
    } else {
      Unlucky(size, chunk);
    }
  }

  lemma {:induction false} OneBlock(size: Size, chunk: Size, n: nat)
    requires 0 < chunk && size <= BLOCK
    ensures ExactRead(size, chunk, n)
  {
    hide Answer, Advanced, Position;
    PositionStep(size, chunk, n);
    if n > 0 {
      OneBlock(size, chunk, n - 1);
      PositionStep(size, chunk, n - 1);
    }
    var p := Position(size, chunk, n);
    ReturnExact(size, p, chunk);
    if p < BLOCK {
      assert p % BLOCK == p;
    }
  }

  lemma {:induction false} AlignedExact(size: Size, chunk: Size, n: nat)
    requires 0 < chunk && Divides(chunk, BLOCK)
    ensures ExactRead(size, chunk, n)
    ensures Position(size, chunk, n) == size || Divides(chunk, Position(size, chunk, n))
  {
    hide Answer, Advanced, Position;
    PositionStep(size, chunk, n);
    if n > 0 {
      AlignedExact(size, chunk, n - 1);
      PositionStep(size, chunk, n - 1);
      AlignedRead(size, Position(size, chunk, n - 1), chunk);
    }
    AlignedRead(size, Position(size, chunk, n), chunk);
  }

  /** Until the first block runs out, n reads advance n chunks. */
  lemma {:induction false} FirstBlock(size: Size, chunk: Size, n: nat)
    requires 0 < chunk && BLOCK < size && n * chunk <= BLOCK
    ensures Position(size, chunk, n) == n * chunk
    ensures (n + 1) * chunk <= BLOCK ==> ExactRead(size, chunk, n)
  {
    hide Answer, Advanced, Position;
    PositionStep(size, chunk, n);
    if n > 0 {
      assert n * chunk == (n - 1) * chunk + chunk;
      FirstBlock(size, chunk, n - 1);
      PositionStep(size, chunk, n - 1);
    }
    assert (n + 1) * chunk == n * chunk + chunk;
    if (n + 1) * chunk <= BLOCK {
      ReturnExact(size, n * chunk, chunk);
    }
  }

  /** The chunks in the first block and what is left of it. */
  lemma LastChunk(chunk: nat) returns (k: nat, p: nat)
    requires 0 < chunk && !Divides(chunk, BLOCK)
    ensures k == BLOCK / chunk && p == k * chunk && p < BLOCK < p + chunk
    ensures BLOCK < chunk ==> p == 0
    ensures LuckySize(chunk) == 2 * p + chunk - BLOCK
  {
    k := BLOCK / chunk;
    p := k * chunk;
    assert BLOCK == chunk * k + BLOCK % chunk;
    assert (2 * k + 1) * chunk == 2 * p + chunk;
  }

  lemma Lucky(size: Size, chunk: Size, n: nat)
    requires 0 < chunk < BLOCK && !Divides(chunk, BLOCK) && BLOCK < size && size == LuckySize(chunk)
    ensures ExactRead(size, chunk, n)
  {
    hide Answer, Advanced, Position, Divides, LuckySize;
    var k, p := LastChunk(chunk);
    if n < k {
      Fewer(n, k, chunk);
      FirstBlock(size, chunk, n);
    } else {
      LuckyEnd(size, chunk, k, n);
    }
  }

  lemma Fewer(n: nat, k: nat, chunk: nat)
    requires n < k && k * chunk < BLOCK
    ensures n * chunk <= BLOCK && (n + 1) * chunk <= BLOCK
  {
    assert (n + 1) * chunk <= k * chunk;
    assert n * chunk <= (n + 1) * chunk;
  }

  lemma {:induction false} LuckyEnd(size: Size, chunk: Size, k: nat, n: nat)
    requires 0 < chunk < BLOCK < size && k <= n
    requires k * chunk < BLOCK < k * chunk + chunk && size == 2 * (k * chunk) + chunk - BLOCK
    ensures ExactRead(size, chunk, n) && (n > k ==> Position(size, chunk, n) == size)
  {
    hide Answer, Advanced, Position;
    if n == k {
      FirstBlock(size, chunk, k);
      LuckyHit(size, chunk, k * chunk);
    } else {
      LuckyEnd(size, chunk, k, n - 1);
      PositionStep(size, chunk, n - 1);
      if n - 1 == k {
        FirstBlock(size, chunk, k);
        LuckyHit(size, chunk, k * chunk);
      }
      ReturnExact(size, size, chunk);
    }
  }

  lemma LuckyHit(size: Size, chunk: Size, p: nat)
    requires p < BLOCK < p + chunk && chunk < BLOCK < size && size == 2 * p + chunk - BLOCK
    ensures Advanced(size, p, chunk) == size && size == p + Available(size, p, chunk)
  {
    hide Answer, Fragment;
    assert Fragment(p) == BLOCK - p;
    ReturnExact(size, p, chunk);
  }

  lemma Unlucky(size: Size, chunk: Size)
    requires 0 < chunk && !Divides(chunk, BLOCK) && BLOCK < size && (chunk < BLOCK ==> size != LuckySize(chunk))
    ensures exists n :: !ExactRead(size, chunk, n)
  {
    hide Answer, Advanced, Position, Divides, LuckySize;
    var k, p := LastChunk(chunk);
    FirstBlock(size, chunk, k);
    assert Fragment(p) == BLOCK - p;
    ReturnExact(size, p, chunk);
    NoLuck(size, chunk, p, Available(size, p, chunk));
    assert !ExactRead(size, chunk, k);
  }

  lemma NoLuck(size: int, chunk: int, p: int, due: int)
    requires 0 <= p < BLOCK < p + chunk && (chunk < BLOCK ==> size != 2 * p + chunk - BLOCK)
    requires BLOCK < chunk ==> p == 0
    requires BLOCK < size && chunk != BLOCK && due == if chunk <= size - p then chunk else size - p
    ensures due > BLOCK || (chunk - (BLOCK - p) - due) % BLOCK != 0
  {
    if chunk < BLOCK {
      assert -BLOCK < chunk - (BLOCK - p) - due < BLOCK;
    }
  }

  /** A file of 4200 bytes in chunks of 3000: the second read answers 1904 though 1200 bytes were left, and leaves the
      position past the end of the file. There the same read again would run past its buffer, and one of 4096 bytes
      answers 808. */
  lemma Overshoot()
    ensures Position(4200, 3000, 1) == 3000 && Available(4200, 3000, 3000) == 1200
    ensures Advanced(4200, 3000, 3000) == 3000 + 1904 && Position(4200, 3000, 2) == 4904
    ensures !Fits(4200, 4904, 3000)
    ensures Fits(4200, 4904, BLOCK) && Returned(4200, 4904, BLOCK) == 808
  {
    PositionStep(4200, 3000, 0);
    PositionStep(4200, 3000, 1);
  }
}
