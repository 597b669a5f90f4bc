/** Opening, reading and closing files (syscall.c over file_system_driver.c), and the program that copies a file to the
    terminal (ece391cat.c). */
module FileSystem {
  import opened Common
  import opened FileData

  const NAME_LENGTH := 32
  const MAX_NUM_FILE := 8
  const LOW_FD := 2
  const ACTUAL_MAX_DIRS := 17
  const CAT_CHUNK := 1024

  /** A string, without its terminating NUL. */
  type CString = s: seq<byte> | forall i | 0 <= i < |s| :: s[i] != 0 witness []

  /** A directory entry; the name is padded with NULs to 32 bytes. */
  datatype Dentry = Dentry(name: seq<byte>, fileType: int, inode: nat)

  const RTC_TYPE := 0
  const DIRECTORY_TYPE := 1
  const REGULAR_TYPE := 2

  /** The functions a descriptor's table points at. */
  datatype Ops = NoOps | KeyboardOps | DisplayOps | RtcOps | DirectoryOps | FileOps

  /** A file descriptor; named says that name_of_file is not a null pointer. */
  datatype Descriptor = Descriptor(ops: Ops, named: bool, inode: nat, position: nat, fileType: int, flags: int)

  /** The bytes of a message. */
  function Ascii(s: string): seq<byte> {
    seq<byte>(|s|, i requires 0 <= i < |s| => s[i] as int % 256)
  }

  /** The name of an entry: up to the first NUL, if there is one. */
  function NameOf(name: seq<byte>): (r: seq<byte>)
    ensures |r| <= |name|
  {
    if name == [] || name[0] == 0 then [] else [name[0]] + NameOf(name[1..])
  }

  /** The byte of a string at an index, its NUL included. */
  function At(s: CString, i: nat): byte {
    if i < |s| then s[i] else 0
  }

  /** Where two strings part. */
  lemma {:induction false} NameDiffers(name: seq<byte>, s: CString, i: nat)
    requires i < |name| && i <= |s| && name[..i] == s[..i]
    requires name[i] != At(s, i) || name[i] == 0
    ensures NameOf(name) == s <==> name[i] == At(s, i)
  {
    if i > 0 {
      assert name[0] == s[0] && s == [s[0]] + s[1..];
      assert name[1..][..i - 1] == s[1..][..i - 1];
      NameDiffers(name[1..], s[1..], i - 1);
      if NameOf(name) == s {
        assert NameOf(name[1..]) == s[1..];
      }
    }
  }

  lemma {:induction false} NameWhole(name: seq<byte>)
    requires forall i | 0 <= i < |name| :: name[i] != 0
    ensures NameOf(name) == name
  {
    if name != [] {
      NameWhole(name[1..]);
    }
  }

  /** The first entry with a name. */
  function Lookup(directory: seq<Dentry>, fname: seq<byte>): (r: Option<Dentry>)
    ensures r.None? <==> forall e | e in directory :: NameOf(e.name) != fname
    ensures r.Some? ==> r.value in directory && NameOf(r.value.name) == fname
  {
    if directory == [] then None
    else if NameOf(directory[0].name) == fname then Some(directory[0])
    else Lookup(directory[1..], fname)
  }

  /** It is the first one: no entry before it has the name. */
  lemma {:induction false} LookupFirst(directory: seq<Dentry>, fname: seq<byte>) returns (i: nat)
    requires Lookup(directory, fname).Some?
    ensures i < |directory| && Lookup(directory, fname) == Some(directory[i])
    ensures forall k | 0 <= k < i :: NameOf(directory[k].name) != fname
  {
    i := 0;
    if NameOf(directory[0].name) != fname {
      var j := LookupFirst(directory[1..], fname);
      i := j + 1;
    }
  }

  /** Entry i is the first one with that name. */
  ghost predicate FirstNamed(directory: seq<Dentry>, fname: seq<byte>, i: int) {
    && 0 <= i < |directory| && NameOf(directory[i].name) == fname
    && forall k | 0 <= k < i :: NameOf(directory[k].name) != fname
  }

  ghost predicate Nameless(directory: seq<Dentry>, fname: seq<byte>) {
    forall k | 0 <= k < |directory| :: NameOf(directory[k].name) != fname
  }

  lemma LookupNamed(directory: seq<Dentry>, fname: seq<byte>)
    ensures Lookup(directory, fname).None? <==> Nameless(directory, fname)
    ensures forall i :: FirstNamed(directory, fname, i) ==> Lookup(directory, fname) == Some(directory[i])
    ensures !Nameless(directory, fname) ==> exists i :: FirstNamed(directory, fname, i)
  {
    if Lookup(directory, fname).Some? {
      var j := LookupFirst(directory, fname);
      assert FirstNamed(directory, fname, j);
    }
  }

  lemma {:induction false} LookupFrom(directory: seq<Dentry>, fname: seq<byte>, i: nat)
    requires i <= |directory| && forall k | 0 <= k < i :: NameOf(directory[k].name) != fname
    ensures Lookup(directory, fname) == Lookup(directory[i..], fname)
  {
    if i > 0 {
      LookupFrom(directory[1..], fname, i - 1);
      assert directory[1..][i - 1..] == directory[i..];
    } else {
      assert directory[0..] == directory;
    }
  }

  /** The lowest descriptor from i on that is not busy, or 8. */
  function FreeFrom(fds: seq<Descriptor>, i: nat): (r: nat)
    requires |fds| == MAX_NUM_FILE && i <= MAX_NUM_FILE
    ensures i <= r <= MAX_NUM_FILE
    ensures forall k | i <= k < r :: fds[k].flags == 1
    ensures r < MAX_NUM_FILE ==> fds[r].flags != 1
    decreases MAX_NUM_FILE - i
  {
    if i == MAX_NUM_FILE || fds[i].flags != 1 then i else FreeFrom(fds, i + 1)
  }

  /** A descriptor for an entry. */
  function Opened(d: Descriptor, e: Dentry): Descriptor {
    if e.fileType == RTC_TYPE then Descriptor(RtcOps, true, 0, 0, RTC_TYPE, 1)
    else if e.fileType == DIRECTORY_TYPE then Descriptor(DirectoryOps, true, 0, 0, DIRECTORY_TYPE, 1)
    else if e.fileType == REGULAR_TYPE then Descriptor(FileOps, true, e.inode, 0, REGULAR_TYPE, 1)
    else d.(flags := 1)
  }

  /** A descriptor after a read that answered r. */
  function Moved(d: Descriptor, r: int): Descriptor {
    if d.fileType == REGULAR_TYPE then d.(position := (d.position + r) % WORD)
    else if d.fileType == DIRECTORY_TYPE then d.(position := (d.position + 1) % WORD)
    else d.(position := 0)
  }

  function Closed(d: Descriptor): Descriptor {
    Descriptor(NoOps, true, d.inode, 0, 0, 0)
  }

  /** What sys_open does to the descriptors, and what it answers. */
  function Open(directory: seq<Dentry>, fds: seq<Descriptor>, fname: seq<byte>): (r: (int, seq<Descriptor>))
    requires |fds| == MAX_NUM_FILE
    ensures |r.1| == MAX_NUM_FILE
  {
    var entry := Lookup(directory, fname);
    var free: int := FreeFrom(fds, LOW_FD);
    if entry.None? || free == MAX_NUM_FILE then (-1, fds) else (free, fds[free := Opened(fds[free], entry.value)])
  }

  /** What sys_close does to the descriptors, and what it answers. */
  function Close(fds: seq<Descriptor>, fd: int): (r: (int, seq<Descriptor>))
    requires |fds| == MAX_NUM_FILE
    ensures |r.1| == MAX_NUM_FILE
  {
    if fd < LOW_FD || fd >= MAX_NUM_FILE || fds[fd].flags == 0 then (-1, fds) else (0, fds[fd := Closed(fds[fd])])
  }

  /** Directory entries are well formed: names of 32 bytes, one of the three types. */
  ghost predicate WellFormed(directory: seq<Dentry>) {
    forall e | e in directory :: |e.name| == NAME_LENGTH && RTC_TYPE <= e.fileType <= REGULAR_TYPE
  }

  /** Every busy descriptor has the functions of its type. */
  ghost predicate Shaped(fds: seq<Descriptor>) {
    && |fds| == MAX_NUM_FILE
    && fds[0].ops == KeyboardOps && fds[1].ops == DisplayOps
    && forall k | LOW_FD <= k < MAX_NUM_FILE ::
         && (fds[k].flags == 0 || fds[k].flags == 1)
         && (fds[k].flags == 1 ==> Working(fds[k]))
  }

  ghost predicate Working(d: Descriptor) {
    && d.named
    && ((d.fileType == RTC_TYPE && d.ops == RtcOps)
        || (d.fileType == DIRECTORY_TYPE && d.ops == DirectoryOps)
        || (d.fileType == REGULAR_TYPE && d.ops == FileOps))
  }

  /** The position is one of the file. */
  ghost predicate InFile(disk: Disk, d: Descriptor) {
    d.ops == FileOps && d.inode < |disk.inodes| ==> d.position <= disk.inodes[d.inode].length
  }

  /** No busy descriptor is past the end of its file. */
  ghost predicate InFiles(disk: Disk, fds: seq<Descriptor>)
    requires |fds| == MAX_NUM_FILE
  {
    forall k | LOW_FD <= k < MAX_NUM_FILE && fds[k].flags == 1 :: InFile(disk, fds[k])
  }

  lemma OpenConsistent(disk: Disk, directory: seq<Dentry>, fds: seq<Descriptor>, fname: seq<byte>)
    requires WellFormed(directory) && Shaped(fds)
    ensures Shaped(Open(directory, fds, fname).1)
    ensures InFiles(disk, fds) ==> InFiles(disk, Open(directory, fds, fname).1)
    ensures Open(directory, fds, fname).0 == -1 <==>
            || (forall e | e in directory :: NameOf(e.name) != fname)
            || (forall k | LOW_FD <= k < MAX_NUM_FILE :: fds[k].flags == 1)
  {
  }

  /** Descriptor k is the one that is claimed next: the lowest from 2 on that is not busy. */
  ghost predicate NextFree(fds: seq<Descriptor>, k: int)
    requires |fds| == MAX_NUM_FILE
  {
    LOW_FD <= k < MAX_NUM_FILE && fds[k].flags != 1 && forall j | LOW_FD <= j < k :: fds[j].flags == 1
  }

  ghost predicate AllBusy(fds: seq<Descriptor>)
    requires |fds| == MAX_NUM_FILE
  {
    forall j | LOW_FD <= j < MAX_NUM_FILE :: fds[j].flags == 1
  }

  /** A busy descriptor at the start of what the entry names. */
  ghost predicate StartsOn(d: Descriptor, e: Dentry) {
    && d.flags == 1 && d.named && d.position == 0 && d.fileType == e.fileType
    && (e.fileType == RTC_TYPE ==> d.ops == RtcOps)
    && (e.fileType == DIRECTORY_TYPE ==> d.ops == DirectoryOps)
    && (e.fileType == REGULAR_TYPE ==> d.ops == FileOps && d.inode == e.inode)
  }

  /** What opening a name comes to: the lowest free descriptor is at the start of what the first entry of that name
      names, and every other descriptor is as it was; or nothing changes, without such an entry or descriptor. */
  ghost predicate OpenedAs(directory: seq<Dentry>, fname: seq<byte>, was: seq<Descriptor>, fd: int,
                           now: seq<Descriptor>)
    requires |was| == MAX_NUM_FILE
  {
    if Nameless(directory, fname) || AllBusy(was) then fd == -1 && now == was
    else
      && NextFree(was, fd) && |now| == |was|
      && (forall k | 0 <= k < |was| && k != fd :: now[k] == was[k])
      && (forall i :: FirstNamed(directory, fname, i) ==> StartsOn(now[fd], directory[i]))
  }

  lemma OpenMeans(directory: seq<Dentry>, fds: seq<Descriptor>, fname: seq<byte>)
    requires |fds| == MAX_NUM_FILE && WellFormed(directory)
    ensures OpenedAs(directory, fname, fds, Open(directory, fds, fname).0, Open(directory, fds, fname).1)
  {
    LookupNamed(directory, fname);
    hide NameOf, Lookup, Nameless, FirstNamed;
  }

  lemma CloseConsistent(disk: Disk, fds: seq<Descriptor>, fd: int)
    requires Shaped(fds)
    ensures Shaped(Close(fds, fd).1)
    ensures InFiles(disk, fds) ==> InFiles(disk, Close(fds, fd).1)
    ensures Close(fds, fd).0 == 0 <==> LOW_FD <= fd < MAX_NUM_FILE && fds[fd].flags == 1
    ensures Close(fds, fd).0 == 0 ==> Close(fds, fd).1[fd].flags == 0
    ensures Close(fds, fd).0 != 0 ==> Close(fds, fd) == (-1, fds)
    ensures forall k | 0 <= k < MAX_NUM_FILE && k != fd :: Close(fds, fd).1[k] == fds[k]
  {
  }

  /** A descriptor that was just opened is at the start; closing it makes the same number available again, with every
      other descriptor as before. */
  lemma OpenThenClose(directory: seq<Dentry>, fds: seq<Descriptor>, fname: seq<byte>)
    requires |fds| == MAX_NUM_FILE && Open(directory, fds, fname).0 != -1
    ensures var fd, now := Open(directory, fds, fname).0, Open(directory, fds, fname).1;
            && LOW_FD <= fd < MAX_NUM_FILE && fds[fd].flags != 1 && now[fd].flags == 1
            && Close(now, fd).0 == 0
            && (forall k | 0 <= k < MAX_NUM_FILE && k != fd :: Close(now, fd).1[k] == fds[k])
            && Open(directory, Close(now, fd).1, fname).0 == fd
  {
    var fd, now := Open(directory, fds, fname).0, Open(directory, fds, fname).1;
    var after := Close(now, fd).1;
    FreeAgain(fds, after, LOW_FD);
  }

  /** The lowest free descriptor stays the lowest while it is free and those below it busy. */
  lemma {:induction false} FreeAgain(fds: seq<Descriptor>, after: seq<Descriptor>, i: nat)
    requires |fds| == |after| == MAX_NUM_FILE && i < MAX_NUM_FILE && FreeFrom(fds, i) < MAX_NUM_FILE
    requires after[FreeFrom(fds, i)].flags != 1 && forall k | i <= k < FreeFrom(fds, i) :: after[k] == fds[k]
    ensures FreeFrom(after, i) == FreeFrom(fds, i)
    decreases MAX_NUM_FILE - i
  {
    if fds[i].flags == 1 {
      FreeAgain(fds, after, i + 1);
    }
  }

  /** What a read on the descriptor of a regular file answers. */
  function FileAnswer(disk: Disk, d: Descriptor, nbytes: nat): int
    requires d.inode < |disk.inodes| ==> Fits(disk.inodes[d.inode].length, d.position, nbytes)
  {
    if !d.named || d.inode >= |disk.inodes| then -1 else Returned(disk.inodes[d.inode].length, d.position, nbytes)
  }

  /** The checks of sys_read are passed. */
  predicate Readable(fds: seq<Descriptor>, fd: int, given: bool, nbytes: int)
    requires |fds| == MAX_NUM_FILE
  {
    && given && 0 < nbytes && 0 <= fd < MAX_NUM_FILE
    && !(fds[fd].fileType == DIRECTORY_TYPE && fds[fd].position == ACTUAL_MAX_DIRS)
    && (if fd >= LOW_FD then fds[fd].flags != 0 else fds[fd].ops != DisplayOps)
  }

  /** The read gets to the data of a regular file. */
  predicate OnFile(disk: Disk, fds: seq<Descriptor>, fd: int, given: bool, nbytes: int)
    requires |fds| == MAX_NUM_FILE
  {
    Readable(fds, fd, given, nbytes) && fds[fd].ops == FileOps && fds[fd].inode < |disk.inodes|
  }

  /** The data that the read gets to, if any, fits its buffer. */
  predicate Bounded(disk: Disk, fds: seq<Descriptor>, fd: int, given: bool, nbytes: int)
    requires |fds| == MAX_NUM_FILE
  {
    OnFile(disk, fds, fd, given, nbytes) ==> Fits(disk.inodes[fds[fd].inode].length, fds[fd].position, nbytes)
  }

  /** That is so for every descriptor at a position of its file. */
  lemma InFileBounded(disk: Disk, fds: seq<Descriptor>, fd: int, given: bool, nbytes: int)
    requires Shaped(fds) && nbytes < 0x8000_0000
    requires OnFile(disk, fds, fd, given, nbytes) ==> InFile(disk, fds[fd])
    ensures Bounded(disk, fds, fd, given, nbytes)
  {
    hide Fits;
    if OnFile(disk, fds, fd, given, nbytes) {
      Delivers(disk.inodes[fds[fd].inode].length, fds[fd].position, nbytes);
    }
  }

  /** What sys_read does to the descriptors, and what it answers; outside is the answer of a read function that is
      not for regular files. */
  function Read(disk: Disk, fds: seq<Descriptor>, fd: int, given: bool, nbytes: int, outside: int)
    : (r: (int, seq<Descriptor>))
    requires |fds| == MAX_NUM_FILE && Bounded(disk, fds, fd, given, nbytes)
    ensures |r.1| == MAX_NUM_FILE
  {
    if !Readable(fds, fd, given, nbytes) then
      (if given && 0 < nbytes && 0 <= fd < MAX_NUM_FILE
          && fds[fd].fileType == DIRECTORY_TYPE && fds[fd].position == ACTUAL_MAX_DIRS then 0 else -1, fds)
    else
      var r := if fds[fd].ops == FileOps then FileAnswer(disk, fds[fd], nbytes) else outside;
      if r == -1 then (-1, fds) else (r, fds[fd := Moved(fds[fd], r)])
  }

  /** A read moves at most the position of its own descriptor. */
  lemma ReadConsistent(disk: Disk, fds: seq<Descriptor>, fd: int, given: bool, nbytes: int, outside: int)
    requires Shaped(fds) && Bounded(disk, fds, fd, given, nbytes)
    ensures var after := Read(disk, fds, fd, given, nbytes, outside).1;
            && Shaped(after)
            && (forall k | 0 <= k < MAX_NUM_FILE && k != fd :: after[k] == fds[k])
            && (0 <= fd < MAX_NUM_FILE ==> after[fd] == fds[fd].(position := after[fd].position))
  {
    hide Returned, Fits;
  }

  /** When a read fails: without a buffer or a count, on no busy descriptor or on the display, on a file without a name
      or with a bad index node, or when the function of another kind of descriptor does. The end of a directory is no
      failure. */
  lemma ReadFails(disk: Disk, fds: seq<Descriptor>, fd: int, given: bool, nbytes: int, outside: int)
    requires Shaped(fds) && Bounded(disk, fds, fd, given, nbytes)
    ensures Read(disk, fds, fd, given, nbytes, outside).0 == -1 <==>
            || !given || nbytes <= 0 || fd < 0 || fd >= MAX_NUM_FILE
            || (var d := fds[fd];
                var end := d.fileType == DIRECTORY_TYPE && d.position == ACTUAL_MAX_DIRS;
                && !end
                && (fd == 1 || (fd >= LOW_FD && d.flags != 1)
                    || (if fd >= LOW_FD && d.fileType == REGULAR_TYPE then d.inode >= |disk.inodes|
                        else outside == -1)))
    ensures Read(disk, fds, fd, given, nbytes, outside).0 == -1 ==>
              Read(disk, fds, fd, given, nbytes, outside).1 == fds
  {
    hide Returned, Fits;
  }

  /** Where a read that does not fail leaves the position: behind what it answered, behind one directory entry more, or
      at the start. */
  lemma ReadMoves(disk: Disk, fds: seq<Descriptor>, fd: int, given: bool, nbytes: int, outside: int)
    requires Shaped(fds) && Bounded(disk, fds, fd, given, nbytes) && LOW_FD <= fd < MAX_NUM_FILE
    requires Read(disk, fds, fd, given, nbytes, outside).0 != -1
    requires !(fds[fd].fileType == DIRECTORY_TYPE && fds[fd].position == ACTUAL_MAX_DIRS)
    ensures var (r, now) := Read(disk, fds, fd, given, nbytes, outside);
            now[fd].position ==
            if fds[fd].fileType == REGULAR_TYPE then (fds[fd].position + r) % 0x1_0000_0000
            else if fds[fd].fileType == DIRECTORY_TYPE then (fds[fd].position + 1) % 0x1_0000_0000
            else 0
  {
    hide Returned, Fits;
  }

  /** If no descriptor was past the end of its file, a read keeps that so exactly when the position does not go past the
      end, which ReturnSound tells before the read. */
  lemma ReadInFiles(disk: Disk, fds: seq<Descriptor>, fd: int, given: bool, nbytes: int, outside: int)
    requires Shaped(fds) && InFiles(disk, fds) && nbytes < 0x8000_0000
    ensures Bounded(disk, fds, fd, given, nbytes)
    ensures InFiles(disk, Read(disk, fds, fd, given, nbytes, outside).1) <==>
            !OnFile(disk, fds, fd, given, nbytes)
            || (var size := disk.inodes[fds[fd].inode].length; Advanced(size, fds[fd].position, nbytes) <= size)
  {
    hide Returned, Fits;
    InFileBounded(disk, fds, fd, given, nbytes);
    ReadConsistent(disk, fds, fd, given, nbytes, outside);
    var after := Read(disk, fds, fd, given, nbytes, outside).1;
    if OnFile(disk, fds, fd, given, nbytes) {
      assert after[fd].position == Advanced(disk.inodes[fds[fd].inode].length, fds[fd].position, nbytes);
      assert fds[fd].flags == 1 && after[fd].flags == 1;
    } else if LOW_FD <= fd < MAX_NUM_FILE && fds[fd].flags == 1 {
      assert InFile(disk, fds[fd]);
    }
  }

  /** The buffer starts with the content; the rest is as it was. */
  ghost predicate Filled(now: seq<byte>, was: seq<byte>, content: seq<byte>) {
    |content| <= |was| && now == content + was[|content|..]
  }

  lemma Untouched(s: seq<byte>)
    ensures Filled(s, s, [])
  {
  }

  /** What was put in the buffer from an offset before the end starts with the file from there on, as much as is due. */
  lemma SliceOfFile(disk: Disk, f: Inode, offset: nat, due: nat, written: nat, now: seq<byte>, was: seq<byte>)
    requires Filled(now, was, Bytes(disk, f, offset, written)) && due <= written && offset + due <= f.length
    ensures now[..due] == Contents(disk, f)[offset..offset + due]
  {
  }

  lemma DueDelivered(disk: Disk, f: Inode, offset: nat, length: nat, now: seq<byte>, was: seq<byte>)
    requires length < WORD && length <= |now|
    requires Filled(now, was, Bytes(disk, f, offset, Written(f.length, offset, length)))
    ensures offset <= f.length ==> var due := Available(f.length, offset, length);
                                   due <= |now| && now[..due] == Contents(disk, f)[offset..offset + due]
  {
    if offset <= f.length {
      Delivers(f.length, offset, length);
      SliceOfFile(disk, f, offset, Available(f.length, offset, length), Written(f.length, offset, length), now, was);
    }
  }

  /** A read of the cat program from position p answered cnt, all it could, and these bytes are in the buffer. */
  ghost predicate Chunk(disk: Disk, f: Inode, p: nat, cnt: int, now: seq<byte>) {
    && p <= f.length && cnt == Available(f.length, p, CAT_CHUNK) && cnt <= |now|
    && now[..cnt] == Contents(disk, f)[p..p + cnt]
    && (p + cnt == f.length || Divides(CAT_CHUNK, p + cnt))
  }

  /** The loop of the cat program: out is the file up to p, and the last read answered cnt. */
  ghost predicate Copying(disk: Disk, d: Descriptor, p: nat, cnt: int, now: seq<byte>, out: seq<byte>) {
    if d.inode >= |disk.inodes| then cnt == -1 && out == []
    else 0 <= cnt && Chunk(disk, disk.inodes[d.inode], p, cnt, now) && out == Contents(disk, disk.inodes[d.inode])[..p]
  }

  ghost function ToGo(disk: Disk, d: Descriptor, p: nat): int {
    if d.inode < |disk.inodes| then disk.inodes[d.inode].length - p else 0
  }

  lemma CopyStep(disk: Disk, d: Descriptor, p: nat, cnt: int, now: seq<byte>, out: seq<byte>)
    requires Copying(disk, d, p, cnt, now, out) && cnt != 0 && cnt != -1
    ensures d.inode < |disk.inodes| && 0 < cnt <= |now| && p + cnt <= disk.inodes[d.inode].length
    ensures p + cnt == disk.inodes[d.inode].length || Divides(CAT_CHUNK, p + cnt)
    ensures out + now[..cnt] == Contents(disk, disk.inodes[d.inode])[..p + cnt]
    ensures 0 <= ToGo(disk, d, p + cnt) < ToGo(disk, d, p)
  {
  }

  /** When a read answers 0, all of the file is out. */
  lemma CopyDone(disk: Disk, d: Descriptor, p: nat, now: seq<byte>, out: seq<byte>)
    requires Copying(disk, d, p, 0, now, out)
    ensures d.inode < |disk.inodes| && p == disk.inodes[d.inode].length && out == Contents(disk, disk.inodes[d.inode])
  {
  }

  /** A process, its descriptors, and the file system below. */
  class Process {
    const disk: Disk
    const directory: seq<Dentry>
    const fds: array<Descriptor>

    ghost predicate Valid()
      reads fds
    {
      fds.Length == MAX_NUM_FILE && WellFormed(directory) && Shaped(fds[..])
    }

    /** The descriptors of a new process (sys_execute), in memory that held anything before. */
    constructor (disk: Disk, directory: seq<Dentry>, before: array<Descriptor>)
      requires WellFormed(directory) && before.Length == MAX_NUM_FILE
      modifies before
      ensures Valid() && this.disk == disk && this.directory == directory && fds == before
      ensures forall k | LOW_FD <= k < MAX_NUM_FILE :: fds[k].flags == 0
    {
      this.disk, this.directory, fds := disk, directory, before;
      new;
      fds[0] := fds[0].(ops := KeyboardOps);
      fds[1] := fds[1].(ops := DisplayOps);
      var k := LOW_FD;
      while k < MAX_NUM_FILE
        invariant LOW_FD <= k <= MAX_NUM_FILE && fds[0].ops == KeyboardOps && fds[1].ops == DisplayOps
        invariant forall j | LOW_FD <= j < k :: fds[j].flags == 0
      {
        fds[k] := fds[k].(named := true, position := 0, ops := NoOps, flags := 0, inode := WORD - 1);
        k := k + 1;
      }
    }

    /** strncmp over the 32 bytes of a name: zero exactly when the entry has the name. */
    static method CompareName(name: seq<byte>, fname: CString) returns (r: int)
      requires |name| == NAME_LENGTH && |fname| <= NAME_LENGTH
      ensures r == 0 <==> NameOf(name) == fname
    {
      var i := 0;
      while i < NAME_LENGTH
        invariant 0 <= i <= NAME_LENGTH && i <= |fname| && name[..i] == fname[..i]
      {
        if name[i] != At(fname, i) || name[i] == 0 {
          NameDiffers(name, fname, i);
          return name[i] - At(fname, i);
        }
        i := i + 1;
      }
      NameWhole(name);
      return 0;
    }

    /** read_dentry_by_name: the first entry with exactly this name. */
    method ReadDentryByName(fname: CString) returns (r: Option<Dentry>)
      requires WellFormed(directory)
      ensures r == Lookup(directory, fname)
    {
      if |fname| > NAME_LENGTH {
        assert forall e | e in directory :: |NameOf(e.name)| <= NAME_LENGTH;
        return None;
      }
      var i := 0;
      while i < |directory|
        invariant 0 <= i <= |directory|
        invariant forall k | 0 <= k < i :: NameOf(directory[k].name) != fname
      {
        var difference := CompareName(directory[i].name, fname);
        if difference == 0 {
          LookupFrom(directory, fname, i);
          return Some(directory[i]);
        }
        i := i + 1;
      }
      LookupFrom(directory, fname, i);
      return None;
    }

    /** free_idx_fd: claim the first descriptor that is not busy. */
    method FreeIdxFd() returns (i: nat)
      requires fds.Length == MAX_NUM_FILE
      modifies fds
      ensures i == FreeFrom(old(fds[..]), LOW_FD)
      ensures fds[..] == if i < MAX_NUM_FILE then old(fds[..])[i := old(fds[i]).(flags := 1)] else old(fds[..])
    {
      i := LOW_FD;
      while i < MAX_NUM_FILE
        invariant LOW_FD <= i <= MAX_NUM_FILE && fds[..] == old(fds[..])
        invariant FreeFrom(fds[..], LOW_FD) == FreeFrom(fds[..], i)
      {
        if fds[i].flags != 1 {
          fds[i] := fds[i].(flags := 1);
          break;
        }
        i := i + 1;
      }
    }

    /** sys_open */
    method SysOpen(fname: CString) returns (fd: int)
      requires Valid()
      modifies fds
      ensures Valid() && (fd, fds[..]) == Open(directory, old(fds[..]), fname)
      ensures OpenedAs(directory, fname, old(fds[..]), fd, fds[..])
    {
      hide OpenedAs, NameOf;
      OpenConsistent(disk, directory, fds[..], fname);
      OpenMeans(directory, fds[..], fname);
      var entry := ReadDentryByName(fname);
      if entry.None? {
        return -1;
      }
      var free := FreeIdxFd();
      if free == MAX_NUM_FILE {
        return -1;
      }
      match entry.value.fileType {
        case 0 => fds[free] := Descriptor(RtcOps, true, 0, 0, RTC_TYPE, fds[free].flags);
        case 1 => fds[free] := Descriptor(DirectoryOps, true, 0, 0, DIRECTORY_TYPE, fds[free].flags);
        case 2 => fds[free] := Descriptor(FileOps, true, entry.value.inode, 0, REGULAR_TYPE, fds[free].flags);
        case _ =>
      }
      assert fds[..] == old(fds[..])[free := Opened(old(fds[..])[free], entry.value)];
      return free;
    }

    /** sys_close */
    method SysClose(fd: int) returns (r: int)
      requires Valid()
      modifies fds
      ensures Valid() && (r, fds[..]) == Close(old(fds[..]), fd)
    {
      CloseConsistent(disk, fds[..], fd);
      if fd < LOW_FD || fd >= MAX_NUM_FILE || fds[fd].flags == 0 {
        return -1;
      }
      fds[fd] := fds[fd].(position := 0, ops := NoOps, fileType := 0, flags := 0, named := true);
      return 0;
    }

    /** memcpy of part of a block into the buffer, behind what was put there already. */
    method CopyOut(buf: array<byte>, at: nat, block: Block, from: nat, n: nat, ghost was: seq<byte>,
        ghost content: seq<byte>)
      requires at + n <= buf.Length && from + n <= BLOCK
      requires |content| == at && Filled(buf[..], was, content)
      modifies buf
      ensures Filled(buf[..], was, content + block[from..from + n])
    {
      forall i | 0 <= i < n {
        buf[at + i] := block[from + i];
      }
    }

    /** read_data across a block boundary: the rest of the first block, whole blocks, the rest. */
    method ReadAcross(f: Inode, offset: nat, buf: array<byte>, length: nat) returns (r: nat)
      requires Fragment(offset) <= length <= buf.Length
      modifies buf
      ensures r == LastPiece(length - Fragment(offset))
      ensures Filled(buf[..], old(buf[..]), Bytes(disk, f, offset, length))
    {
      hide FlatByte, Filled, Bytes, Fragment, LastPiece;
      ghost var was := buf[..];
      var first := Fragment(offset);
      BytesInBlock(disk, f, offset, first);
      Untouched(was);
      CopyOut(buf, 0, disk.blocks(f.blockNum(offset / BLOCK)), offset % BLOCK, first, was, []);
      assert [] + Bytes(disk, f, offset, first) == Bytes(disk, f, offset, first);
      var bytesToRead := length - first;
      var idx := 0;
      var current := disk.blocks(f.blockNum(offset / BLOCK + 1));
      while bytesToRead > BLOCK
        invariant idx >= 0 && bytesToRead == length - first - BLOCK * idx && bytesToRead >= 0
        invariant current == disk.blocks(f.blockNum(offset / BLOCK + idx + 1))
        invariant Filled(buf[..], was, Bytes(disk, f, offset, first + BLOCK * idx))
        invariant LastPiece(bytesToRead) == LastPiece(length - first)
      {
        PieceStep(bytesToRead);
        CopyNext(f, offset, buf, first + BLOCK * idx, current, BLOCK, idx, was);
        idx := idx + 1;
        current := disk.blocks(f.blockNum(offset / BLOCK + idx + 1));
        bytesToRead := bytesToRead - BLOCK;
      }
      PieceStep(bytesToRead);
      CopyNext(f, offset, buf, first + BLOCK * idx, current, bytesToRead, idx, was);
      r := bytesToRead;
    }

    /** The start of the next block goes behind the first piece and idx blocks. */
    method CopyNext(f: Inode, ghost offset: nat, buf: array<byte>, done: nat, block: Block, n: nat, ghost idx: nat,
        ghost was: seq<byte>)
      requires done == Fragment(offset) + BLOCK * idx && n <= BLOCK && done + n <= buf.Length
      requires block == disk.blocks(f.blockNum(offset / BLOCK + idx + 1))
      requires Filled(buf[..], was, Bytes(disk, f, offset, done))
      modifies buf
      ensures Filled(buf[..], was, Bytes(disk, f, offset, done + n))
    {
      hide FlatByte, Filled, Bytes, Fragment;
      NextBlock(f, offset, done, n, idx);
      assert block[0..n] == block[..n];
      CopyOut(buf, done, block, 0, n, was, Bytes(disk, f, offset, done));
    }

    /** After the first piece and idx blocks, the next bytes are the start of the next block. */
    lemma NextBlock(f: Inode, offset: nat, done: nat, n: nat, idx: nat)
      requires done == Fragment(offset) + BLOCK * idx && n <= BLOCK
      ensures Bytes(disk, f, offset, done + n) ==
              Bytes(disk, f, offset, done) + disk.blocks(f.blockNum(offset / BLOCK + idx + 1))[..n]
    {
      assert (offset + done) % BLOCK == 0 && (offset + done) / BLOCK == offset / BLOCK + idx + 1;
      BytesInBlock(disk, f, offset + done, n);
      BytesAppend(disk, f, offset, done, n);
    }

    /** read_data */
    method ReadData(inode: nat, offset: nat, buf: array<byte>, length: nat) returns (r: int)
      requires length <= buf.Length && length < WORD
      requires inode < |disk.inodes| ==> Fits(disk.inodes[inode].length, offset, length)
      modifies buf
      ensures inode >= |disk.inodes| ==> r == -1 && buf[..] == old(buf[..])
      ensures inode < |disk.inodes| ==>
                var f := disk.inodes[inode];
                && r == Returned(f.length, offset, length)
                && (offset <= f.length ==> var due := Available(f.length, offset, length);
                                           buf[..due] == Contents(disk, f)[offset..offset + due])
                && Filled(buf[..], old(buf[..]), Bytes(disk, f, offset, Written(f.length, offset, length)))
    {
      hide Bytes, FlatByte, Filled, Contents, LastPiece, Fragment, Available;
      if inode >= |disk.inodes| {
        return -1;
      }
      var f := disk.inodes[inode];
      var asked := length;
      if (length + offset) % WORD > f.length {
        asked := (f.length - offset) % WORD;
      }
      if asked <= Fragment(offset) {
        ReadWithin(f, offset, buf, asked);
        r := asked;
      } else {
        r := ReadAcross(f, offset, buf, length);
      }
      DueDelivered(disk, f, offset, length, buf[..], old(buf[..]));
    }

    /** read_data inside one block. */
    method ReadWithin(f: Inode, offset: nat, buf: array<byte>, n: nat)
      requires n <= Fragment(offset) && n <= buf.Length
      modifies buf
      ensures Filled(buf[..], old(buf[..]), Bytes(disk, f, offset, n))
    {
      hide FlatByte, Filled, Bytes;
      BytesInBlock(disk, f, offset, n);
      Untouched(buf[..]);
      CopyOut(buf, 0, disk.blocks(f.blockNum(offset / BLOCK)), offset % BLOCK, n, buf[..], []);
      assert [] + Bytes(disk, f, offset, n) == Bytes(disk, f, offset, n);
    }

    /** file_read */
    method FileRead(d: Descriptor, buf: array<byte>, nbytes: nat) returns (r: int)
      requires nbytes <= buf.Length && nbytes < WORD
      requires d.inode < |disk.inodes| ==> Fits(disk.inodes[d.inode].length, d.position, nbytes)
      modifies buf
      ensures !d.named || d.inode >= |disk.inodes| ==> r == -1 && buf[..] == old(buf[..])
      ensures d.named && d.inode < |disk.inodes| ==>
                var f := disk.inodes[d.inode];
                r == Returned(f.length, d.position, nbytes)
                    && Filled(buf[..], old(buf[..]), Bytes(disk, f, d.position, Written(f.length, d.position, nbytes)))
    {
      if !d.named {
        return -1;
      }
      r := ReadData(d.inode, d.position, buf, nbytes);
    }

    /** sys_read. It asks that the read it comes to keeps inside its buffer; no other descriptor matters. */
    method SysRead(fd: int, buf: array?<byte>, nbytes: int, outside: int) returns (r: int)
      requires Valid() && nbytes < 0x8000_0000 && (buf != null ==> nbytes <= buf.Length)
      requires Bounded(disk, fds[..], fd, buf != null, nbytes)
      modifies fds, buf
      ensures Valid() && (r, fds[..]) == Read(disk, old(fds[..]), fd, buf != null, nbytes, outside)
      ensures old(OnFile(disk, fds[..], fd, buf != null, nbytes)) ==>
                var d := old(fds[fd]);
                var f := disk.inodes[d.inode];
                && r == Returned(f.length, d.position, nbytes) && r <= nbytes
                && Filled(buf[..], old(buf[..]), Bytes(disk, f, d.position, Written(f.length, d.position, nbytes)))
                && (d.position <= f.length ==>
                      var due := Available(f.length, d.position, nbytes);
                      due <= buf.Length && buf[..due] == Contents(disk, f)[d.position..d.position + due])
    {
      hide Returned, Available, Written, Bytes, Filled, Contents, FlatByte, Asked, Fits;
      ReadConsistent(disk, fds[..], fd, buf != null, nbytes, outside);
      if buf == null || nbytes <= 0 || fd > 7 || fd < 0 {
        return -1;
      }
      var d := fds[fd];
      if d.fileType == DIRECTORY_TYPE && d.position == ACTUAL_MAX_DIRS {
        return 0;
      }
      if (fd >= LOW_FD && d.flags == 0) || (fd < LOW_FD && d.ops == DisplayOps) {
        return -1;
      }
      if d.ops == FileOps {
        r := FileRead(d, buf, nbytes);
        if d.inode < |disk.inodes| {
          AnswerInBuffer(disk.inodes[d.inode].length, d.position, nbytes);
          DueDelivered(disk, disk.inodes[d.inode], d.position, nbytes, buf[..], old(buf[..]));
        }
      } else {
        r := outside;
      }
      if r == -1 {
        return -1;
      }
      if d.fileType == REGULAR_TYPE {
        fds[fd] := d.(position := (d.position + r) % WORD);
      } else if d.fileType == DIRECTORY_TYPE {
        fds[fd] := d.(position := (d.position + 1) % WORD);
      } else {
        fds[fd] := d.(position := 0);
      }
    }

    /** The cat program: open a file, read it in chunks of 1024 bytes until a read answers 0, writing what was
        read to the terminal. */
    method Cat(fname: CString) returns (status: int, out: seq<byte>)
      requires Valid()
      requires forall i :: FirstNamed(directory, fname, i) ==> directory[i].fileType == REGULAR_TYPE
      modifies fds
      ensures var fd, now := Open(directory, old(fds[..]), fname).0, Open(directory, old(fds[..]), fname).1;
              fds[..] == if fd == -1 || now[fd].inode >= |disk.inodes| then now
                         else now[fd := now[fd].(position := disk.inodes[now[fd].inode].length)]
      ensures if Nameless(directory, fname) || old(AllBusy(fds[..])) then
                status == 2 && out == Ascii("file not found\n")
              else
                forall i | FirstNamed(directory, fname, i) ::
                  if directory[i].inode >= |disk.inodes| then status == 3 && out == Ascii("file read failed\n")
                  else status == 0 && out == Contents(disk, disk.inodes[directory[i].inode])
    {
      hide Contents, Ascii, NameOf, Nameless, FirstNamed, Lookup, WellFormed;
      LookupNamed(directory, fname);
      var buf := new byte[CAT_CHUNK];
      var fd := SysOpen(fname);
      if fd == -1 {
        return 2, Ascii("file not found\n");
      }
      status, out := CopyFile(fd, buf);
    }

    /** One read of the cat program from an aligned position. */
    method ReadChunk(fd: int, buf: array<byte>, ghost p: nat) returns (cnt: int)
      requires Valid() && Readable(fds[..], fd, true, CAT_CHUNK) && buf.Length == CAT_CHUNK
      requires fds[fd].ops == FileOps && fds[fd].position == p
      requires fds[fd].inode < |disk.inodes| ==>
                 && p <= disk.inodes[fds[fd].inode].length
                 && (p == disk.inodes[fds[fd].inode].length || Divides(CAT_CHUNK, p))
      modifies fds, buf
      ensures Valid()
      ensures old(fds[fd].inode) >= |disk.inodes| ==> cnt == -1 && fds[..] == old(fds[..])
      ensures old(fds[fd].inode) < |disk.inodes| ==>
                && 0 <= cnt && Chunk(disk, disk.inodes[old(fds[fd].inode)], p, cnt, buf[..])
                && fds[..] == old(fds[..])[fd := old(fds[fd]).(position := p + cnt)]
    {
      hide Returned, Fits, Asked, Written, Bytes, Filled, Contents;
      if fds[fd].inode < |disk.inodes| {
        AlignedRead(disk.inodes[fds[fd].inode].length, p, CAT_CHUNK);
      }
      InFileBounded(disk, fds[..], fd, true, CAT_CHUNK);
      cnt := SysRead(fd, buf, CAT_CHUNK, 0);
    }

    /** The loop of the cat program on a fresh descriptor. */
    method CopyFile(fd: int, buf: array<byte>) returns (status: int, out: seq<byte>)
      requires Valid() && Readable(fds[..], fd, true, CAT_CHUNK) && buf.Length == CAT_CHUNK
      requires fds[fd].ops == FileOps && fds[fd].fileType == REGULAR_TYPE && fds[fd].position == 0
      modifies fds, buf
      ensures if old(fds[fd].inode) >= |disk.inodes| then
                status == 3 && out == Ascii("file read failed\n") && fds[..] == old(fds[..])
              else
                var f := disk.inodes[old(fds[fd].inode)];
                status == 0 && out == Contents(disk, f)
                    && fds[..] == old(fds[..])[fd := old(fds[fd]).(position := f.length)]
    {
      hide Contents, Shaped, Chunk, Ascii;
      out := [];
      ghost var p, was := 0, fds[..];
      var cnt := ReadChunk(fd, buf, p);
      while cnt != 0
        invariant Valid() && Copying(disk, was[fd], p, cnt, buf[..], out)
        invariant fds[..] == if cnt == -1 then was else was[fd := was[fd].(position := p + cnt)]
        decreases ToGo(disk, was[fd], p)
      {
        if cnt == -1 {
          return 3, out + Ascii("file read failed\n");
        }
        CopyStep(disk, was[fd], p, cnt, buf[..], out);
        out := out + buf[..cnt];
        p := p + cnt;
        cnt := ReadChunk(fd, buf, p);
      }
      CopyDone(disk, was[fd], p, buf[..], out);
      status := 0;
    }
  }
}
