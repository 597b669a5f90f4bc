/** Runs of a process that opens, closes and reads several files at once (syscall.c over file_system_driver.c). */
module FileRuns {
  import opened Common
  import opened FileData
  import opened FileSystem

  /** A system call; `outside` is the answer of a read function that is not for regular files. */
  datatype Call = OpenCall(fname: seq<byte>) | CloseCall(fd: int)
                | ReadCall(fd: int, given: bool, nbytes: int, outside: int)

  /** The descriptors, and the bytes that each has handed over since it was opened. */
  datatype FileState = Files(fds: seq<Descriptor>, got: seq<seq<byte>>)

  type Files = s: FileState | |s.fds| == |s.got| == MAX_NUM_FILE
    witness Files(seq(MAX_NUM_FILE, _ => Descriptor(NoOps, true, 0, 0, 0, 0)), seq(MAX_NUM_FILE, _ => []))

  /** Counts of bytes have 32 bits and a sign. */
  predicate GoodCalls(calls: seq<Call>) {
    forall c | c in calls && c.ReadCall? :: c.nbytes < 0x8000_0000
  }

  /** The bytes that a read of a file hands over, as its answer counts them. */
  function HandedBy(disk: Disk, d: Descriptor, nbytes: nat): seq<byte>
    requires d.inode < |disk.inodes| && Fits(disk.inodes[d.inode].length, d.position, nbytes)
  {
    Bytes(disk, disk.inodes[d.inode], d.position, Returned(disk.inodes[d.inode].length, d.position, nbytes))
  }

  /** A call: Open, Close or Read. A read that overruns its buffer would be no such step; InFileBounded says that there
      is none while every descriptor is at a position of its file. */
  function Called(disk: Disk, directory: seq<Dentry>, s: Files, c: Call): Files
  {
    match c
    case OpenCall(fname) =>
      var (fd, fds) := Open(directory, s.fds, fname);
      Files(fds, if 0 <= fd < MAX_NUM_FILE then s.got[fd := []] else s.got)
    case CloseCall(fd) => s.(fds := Close(s.fds, fd).1)
    case ReadCall(fd, given, nbytes, outside) =>
      if !Bounded(disk, s.fds, fd, given, nbytes) then s
      else
        Files(Read(disk, s.fds, fd, given, nbytes, outside).1,
              if OnFile(disk, s.fds, fd, given, nbytes)
              then s.got[fd := s.got[fd] + HandedBy(disk, s.fds[fd], nbytes)] else s.got)
  }

  /** The read ends inside the file, or stays in one block, or its last copy is no longer than what was left; a call of
      another kind always does. */
  predicate Keeps(disk: Disk, s: Files, c: Call)
  {
    c.ReadCall? && OnFile(disk, s.fds, c.fd, c.given, c.nbytes) ==>
      var size, p := disk.inodes[s.fds[c.fd].inode].length, s.fds[c.fd].position;
      var rest := Fragment(p);
      p + c.nbytes <= size || size - p <= rest || c.nbytes <= rest || (c.nbytes - rest - 1) % BLOCK < size - p
  }

  /** Every call of the run does. */
  predicate AllKeep(disk: Disk, directory: seq<Dentry>, s: Files, calls: seq<Call>)
    decreases |calls|
  {
    calls == []
    || (Keeps(disk, s, calls[0]) && AllKeep(disk, directory, Called(disk, directory, s, calls[0]), calls[1..]))
  }

  /** No busy descriptor is ever past the end of its file. */
  ghost predicate NeverPast(disk: Disk, directory: seq<Dentry>, s: Files, calls: seq<Call>)
    decreases |calls|
  {
    && InFiles(disk, s.fds)
    && (calls == [] || NeverPast(disk, directory, Called(disk, directory, s, calls[0]), calls[1..]))
  }

  /** A run of calls. */
  function AfterCalls(disk: Disk, directory: seq<Dentry>, s: Files, calls: seq<Call>): Files
    decreases |calls|
  {
    if calls == [] then s else AfterCalls(disk, directory, Called(disk, directory, s, calls[0]), calls[1..])
  }

  /** What a busy descriptor of a file has handed over is the file up to its position. */
  ghost predicate Stretch(disk: Disk, d: Descriptor, got: seq<byte>) {
    d.ops == FileOps && d.inode < |disk.inodes| ==>
      var f := disk.inodes[d.inode];
      d.position <= f.length && got == Contents(disk, f)[..d.position]
  }

  ghost predicate Stretches(disk: Disk, s: Files)
  {
    forall k | LOW_FD <= k < MAX_NUM_FILE && s.fds[k].flags == 1 :: Stretch(disk, s.fds[k], s.got[k])
  }

  /** One call keeps the descriptors in their files exactly if its guard holds. */
  lemma CallKeeps(disk: Disk, directory: seq<Dentry>, s: Files, c: Call)
    requires WellFormed(directory) && Shaped(s.fds) && InFiles(disk, s.fds) && GoodCalls([c])
    ensures Shaped(Called(disk, directory, s, c).fds)
    ensures InFiles(disk, Called(disk, directory, s, c).fds) <==> Keeps(disk, s, c)
  {
    hide Open, Close, Read, Fits, Returned, HandedBy, InFiles, Shaped, WellFormed;
    match c
    case OpenCall(fname) => OpenConsistent(disk, directory, s.fds, fname);
    case CloseCall(fd) => CloseConsistent(disk, s.fds, fd);
    case ReadCall(fd, given, nbytes, outside) =>
      assert c in [c];
      ReadInFiles(disk, s.fds, fd, given, nbytes, outside);
      ReadConsistent(disk, s.fds, fd, given, nbytes, outside);
      if OnFile(disk, s.fds, fd, given, nbytes) {
        ReadGuard(disk, s, c);
      }
  }

  /** The guard of a read, as ReturnSound has it. */
  lemma ReadGuard(disk: Disk, s: Files, c: Call)
    requires Shaped(s.fds) && InFiles(disk, s.fds) && c.ReadCall? && c.nbytes < 0x8000_0000
    requires OnFile(disk, s.fds, c.fd, c.given, c.nbytes)
    ensures var size, p := disk.inodes[s.fds[c.fd].inode].length, s.fds[c.fd].position;
            p <= size && (Keeps(disk, s, c) <==> Advanced(size, p, c.nbytes) <= size)
  {
    hide Answer;
    var size, p := disk.inodes[s.fds[c.fd].inode].length, s.fds[c.fd].position;
    assert InFile(disk, s.fds[c.fd]);
    ReturnSound(size, p, c.nbytes);
  }

  /** A run never takes a descriptor past the end of its file exactly if the guard holds at every call. */
  lemma {:induction false} NeverPastExactly(disk: Disk, directory: seq<Dentry>, s: Files, calls: seq<Call>)
    requires WellFormed(directory) && Shaped(s.fds) && InFiles(disk, s.fds) && GoodCalls(calls)
    ensures NeverPast(disk, directory, s, calls) <==> AllKeep(disk, directory, s, calls)
    decreases |calls|
  {
    hide Called, Keeps, InFiles, WellFormed, Shaped;
    if calls != [] {
      var t := Called(disk, directory, s, calls[0]);
      CallKeeps(disk, directory, s, calls[0]);
      if InFiles(disk, t.fds) {
        NeverPastExactly(disk, directory, t, calls[1..]);
      }
    }
  }

  /** One call that keeps its guard keeps what was handed over a stretch of the file. */
  lemma CallStretches(disk: Disk, directory: seq<Dentry>, s: Files, c: Call)
    requires WellFormed(directory) && Shaped(s.fds) && Stretches(disk, s) && GoodCalls([c]) && Keeps(disk, s, c)
    ensures Shaped(Called(disk, directory, s, c).fds) && Stretches(disk, Called(disk, directory, s, c))
  {
    hide Fits, Returned, HandedBy;
    assert InFiles(disk, s.fds);
    CallKeeps(disk, directory, s, c);
    if c.ReadCall? {
      assert c in [c];
      InFileBounded(disk, s.fds, c.fd, c.given, c.nbytes);
      ReadConsistent(disk, s.fds, c.fd, c.given, c.nbytes, c.outside);
      if OnFile(disk, s.fds, c.fd, c.given, c.nbytes) {
        ReadGuard(disk, s, c);
        OneStretch(disk, s.fds[c.fd], s.got[c.fd], c.nbytes);
      }
    }
  }

  lemma OneStretch(disk: Disk, d: Descriptor, got: seq<byte>, nbytes: Size)
    requires d.inode < |disk.inodes| && d.position <= disk.inodes[d.inode].length && Stretch(disk, d, got)
    requires d.ops == FileOps && d.fileType == REGULAR_TYPE
    requires Advanced(disk.inodes[d.inode].length, d.position, nbytes) <= disk.inodes[d.inode].length
    ensures Fits(disk.inodes[d.inode].length, d.position, nbytes)
    ensures Stretch(disk, Moved(d, Returned(disk.inodes[d.inode].length, d.position, nbytes)),
                    got + HandedBy(disk, d, nbytes))
  {
    hide Fits, Returned, FlatByte;
    var f := disk.inodes[d.inode];
    Delivers(f.length, d.position, nbytes);
    var n := Answer(f.length, d.position, nbytes);
    SliceOf(disk, f, d.position, n);
  }

  /** Whatever calls are mixed with them, reads that keep their guard hand over, on every descriptor, the file from its
      start with nothing lost, doubled or taken from another file. */
  lemma {:induction false} InterleavedReads(disk: Disk, directory: seq<Dentry>, s: Files, calls: seq<Call>)
    requires WellFormed(directory) && Shaped(s.fds) && Stretches(disk, s) && GoodCalls(calls)
    requires AllKeep(disk, directory, s, calls)
    ensures Shaped(AfterCalls(disk, directory, s, calls).fds)
    ensures Stretches(disk, AfterCalls(disk, directory, s, calls))
    decreases |calls|
  {
    hide Called, Keeps, Stretches, WellFormed, Shaped;
    if calls != [] {
      CallStretches(disk, directory, s, calls[0]);
      InterleavedReads(disk, directory, Called(disk, directory, s, calls[0]), calls[1..]);
    }
  }

  lemma {:induction false} CallsJoin(disk: Disk, directory: seq<Dentry>, s: Files, early: seq<Call>, late: seq<Call>)
    ensures AfterCalls(disk, directory, s, early + late)
            == AfterCalls(disk, directory, AfterCalls(disk, directory, s, early), late)
    decreases |early|
  {
    hide Called;
    if early == [] {
      assert early + late == late;
    } else {
      assert (early + late)[1..] == early[1..] + late;
      CallsJoin(disk, directory, Called(disk, directory, s, early[0]), early[1..], late);
    }
  }

  lemma {:induction false} KeepEarly(disk: Disk, directory: seq<Dentry>, s: Files, early: seq<Call>, late: seq<Call>)
    requires AllKeep(disk, directory, s, early + late)
    ensures AllKeep(disk, directory, s, early)
    decreases |early|
  {
    hide Called, Keeps;
    if early != [] {
      assert (early + late)[1..] == early[1..] + late;
      KeepEarly(disk, directory, Called(disk, directory, s, early[0]), early[1..], late);
    }
  }

  /** Only closing it makes a busy descriptor stand for something else. */
  lemma CallLeaves(disk: Disk, directory: seq<Dentry>, s: Files, c: Call, k: int)
    requires Shaped(s.fds) && LOW_FD <= k < MAX_NUM_FILE && s.fds[k].flags == 1 && c != CloseCall(k)
    ensures var now := Called(disk, directory, s, c).fds[k]; now == s.fds[k].(position := now.position)
  {
    hide Returned, Fits, HandedBy, Lookup;
    if c.ReadCall? && Bounded(disk, s.fds, c.fd, c.given, c.nbytes) {
      ReadConsistent(disk, s.fds, c.fd, c.given, c.nbytes, c.outside);
    }
  }

  lemma {:induction false} CallsLeave(disk: Disk, directory: seq<Dentry>, s: Files, calls: seq<Call>, k: int)
    requires WellFormed(directory) && Shaped(s.fds) && Stretches(disk, s) && GoodCalls(calls)
    requires AllKeep(disk, directory, s, calls)
    requires LOW_FD <= k < MAX_NUM_FILE && s.fds[k].flags == 1 && CloseCall(k) !in calls
    ensures var now := AfterCalls(disk, directory, s, calls).fds[k]; now == s.fds[k].(position := now.position)
    decreases |calls|
  {
    hide Called, Keeps, Stretches, WellFormed, Shaped;
    if calls != [] {
      CallStretches(disk, directory, s, calls[0]);
      CallLeaves(disk, directory, s, calls[0], k);
      CallsLeave(disk, directory, Called(disk, directory, s, calls[0]), calls[1..], k);
    }
  }

  /** From the call that opens a name until the one that closes the descriptor, whatever comes in between: what the
      descriptor has handed over is the start of the file that the first directory entry of this name names. */
  lemma NamedReads(disk: Disk, directory: seq<Dentry>, s: Files, early: seq<Call>, fname: seq<byte>, late: seq<Call>,
      k: int, i: int)
    requires WellFormed(directory) && Shaped(s.fds) && Stretches(disk, s)
    requires var calls := early + [OpenCall(fname)] + late;
             GoodCalls(calls) && AllKeep(disk, directory, s, calls)
    requires NextFree(AfterCalls(disk, directory, s, early).fds, k) && CloseCall(k) !in late
    requires FirstNamed(directory, fname, i) && directory[i].fileType == REGULAR_TYPE
    requires directory[i].inode < |disk.inodes|
    ensures var t := AfterCalls(disk, directory, s, early + [OpenCall(fname)] + late);
            var f := disk.inodes[directory[i].inode];
            && t.fds[k].flags == 1 && t.fds[k].ops == FileOps && t.fds[k].position <= f.length
            && t.got[k] == Contents(disk, f)[..t.fds[k].position]
  {
    hide Keeps, Stretches, WellFormed, Shaped, NameOf, Contents;
    var opening := [OpenCall(fname)];
    var calls, begun := early + opening + late, AfterCalls(disk, directory, s, early + opening);
    assert GoodCalls(early + opening) && GoodCalls(late);
    OpenedNow(disk, directory, AfterCalls(disk, directory, s, early), fname, k, i);
    CallsJoin(disk, directory, s, early, opening);
    CallsJoin(disk, directory, s, early + opening, late);
    KeepEarly(disk, directory, s, early + opening, late);
    KeepLate(disk, directory, s, early + opening, late);
    InterleavedReads(disk, directory, s, early + opening);
    InterleavedReads(disk, directory, s, calls);
    CallsLeave(disk, directory, begun, late, k);
    StretchOf(disk, AfterCalls(disk, directory, s, calls), k);
  }

  lemma {:induction false} KeepLate(disk: Disk, directory: seq<Dentry>, s: Files, early: seq<Call>, late: seq<Call>)
    requires AllKeep(disk, directory, s, early + late)
    ensures AllKeep(disk, directory, AfterCalls(disk, directory, s, early), late)
    decreases |early|
  {
    hide Called, Keeps;
    if early == [] {
      assert early + late == late;
    } else {
      assert (early + late)[1..] == early[1..] + late;
      KeepLate(disk, directory, Called(disk, directory, s, early[0]), early[1..], late);
    }
  }

  lemma StretchOf(disk: Disk, s: Files, k: int)
    requires Stretches(disk, s) && LOW_FD <= k < MAX_NUM_FILE && s.fds[k].flags == 1
    ensures Stretch(disk, s.fds[k], s.got[k])
  {
  }

  lemma OpenedNow(disk: Disk, directory: seq<Dentry>, s: Files, fname: seq<byte>, k: int, i: int)
    requires WellFormed(directory) && NextFree(s.fds, k) && FirstNamed(directory, fname, i)
    ensures StartsOn(AfterCalls(disk, directory, s, [OpenCall(fname)]).fds[k], directory[i])
  {
    OpenMeans(directory, s.fds, fname);
    hide Open, NameOf;
    var t := Called(disk, directory, s, OpenCall(fname));
    assert AfterCalls(disk, directory, t, []) == t;
  }

  /** Every descriptor is read in chunks of its own size, which divides the block. */
  ghost predicate Chunked(chunks: seq<Size>, calls: seq<Call>) {
    && |chunks| == MAX_NUM_FILE && (forall k | 0 <= k < MAX_NUM_FILE :: 0 < chunks[k] && Divides(chunks[k], BLOCK))
    && forall c | c in calls && c.ReadCall? && LOW_FD <= c.fd < MAX_NUM_FILE :: c.nbytes == chunks[c.fd]
  }

  /** Positions are whole chunks, or the end of the file. */
  ghost predicate InChunks(disk: Disk, s: Files, chunks: seq<Size>)
    requires |chunks| == MAX_NUM_FILE && forall k | 0 <= k < MAX_NUM_FILE :: 0 < chunks[k]
  {
    forall k | LOW_FD <= k < MAX_NUM_FILE && s.fds[k].flags == 1 :: ChunkAt(disk, s.fds[k], chunks[k])
  }

  ghost predicate ChunkAt(disk: Disk, d: Descriptor, chunk: Size)
    requires 0 < chunk
  {
    d.ops == FileOps && d.inode < |disk.inodes| ==>
      d.position == disk.inodes[d.inode].length || Divides(chunk, d.position)
  }

  /** A read answers just what is due. */
  predicate ReadsDue(disk: Disk, s: Files, c: Call) {
    c.ReadCall? && OnFile(disk, s.fds, c.fd, c.given, c.nbytes) ==>
      var size, p := disk.inodes[s.fds[c.fd].inode].length, s.fds[c.fd].position;
      p <= size && c.nbytes < 0x8000_0000 && Answer(size, p, c.nbytes) == Available(size, p, c.nbytes)
  }

  predicate AllDue(disk: Disk, directory: seq<Dentry>, s: Files, calls: seq<Call>)
    decreases |calls|
  {
    calls == []
    || (ReadsDue(disk, s, calls[0]) && AllDue(disk, directory, Called(disk, directory, s, calls[0]), calls[1..]))
  }

  lemma CallChunked(disk: Disk, directory: seq<Dentry>, s: Files, c: Call, chunks: seq<Size>)
    requires WellFormed(directory) && Shaped(s.fds) && InFiles(disk, s.fds) && GoodCalls([c]) && Chunked(chunks, [c])
    requires InChunks(disk, s, chunks)
    ensures Keeps(disk, s, c) && ReadsDue(disk, s, c)
    ensures InChunks(disk, Called(disk, directory, s, c), chunks)
  {
    hide HandedBy, Fits, Returned, Divides;
    assert c in [c];
    match c
    case OpenCall(fname) =>
      forall k | LOW_FD <= k < MAX_NUM_FILE ensures Divides(chunks[k], 0) {
        MultipleOf(0, chunks[k]);
      }
    case CloseCall(fd) =>
    case ReadCall(fd, given, nbytes, outside) =>
      InFileBounded(disk, s.fds, fd, given, nbytes);
      ReadConsistent(disk, s.fds, fd, given, nbytes, outside);
      if OnFile(disk, s.fds, fd, given, nbytes) {
        ReadGuard(disk, s, c);
        assert ChunkAt(disk, s.fds[fd], chunks[fd]);
        var size := disk.inodes[s.fds[fd].inode].length;
        AlignedRead(size, s.fds[fd].position, nbytes);
        assert Called(disk, directory, s, c).fds[fd].position == Advanced(size, s.fds[fd].position, nbytes);
      }
  }

  /** Reads in chunks that divide the block are such reads: however they are interleaved, each answers what is due. */
  lemma {:induction false} ChunkedReads(disk: Disk, directory: seq<Dentry>, s: Files, calls: seq<Call>,
      chunks: seq<Size>)
    requires WellFormed(directory) && Shaped(s.fds) && InFiles(disk, s.fds) && GoodCalls(calls)
    requires Chunked(chunks, calls) && InChunks(disk, s, chunks)
    ensures AllKeep(disk, directory, s, calls) && AllDue(disk, directory, s, calls)
    decreases |calls|
  {
    hide Called, Keeps, ReadsDue, InChunks, InFiles, WellFormed, Shaped;
    if calls != [] {
      CallChunked(disk, directory, s, calls[0], chunks);
      CallKeeps(disk, directory, s, calls[0]);
      ChunkedReads(disk, directory, Called(disk, directory, s, calls[0]), calls[1..], chunks);
    }
  }
}
