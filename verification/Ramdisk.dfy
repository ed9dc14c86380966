/**
  The file system on the initial ramdisk: kernel/filesystem/initrd.c, the
  dispatch of kernel/filesystem/file.c, and the listing loop of
  kernel/kernel.c, over one memory of bytes.
*/
module Ramdisk {
  import opened Bytes
  import opened CString
  import opened Options
  import opened RamdiskImage
  import opened RamdiskMount

  const FS_FILE: nat := 0x01
  const FS_DIRECTORY: nat := 0x02

  /** The functions that a node's pointers can name. */
  datatype Function = Null | InitrdRead | InitrdReaddir | InitrdFinddir

  datatype FsNode = FsNode(
    flags: nat, mask: nat, uid: nat, gid: nat, inode: nat, length: nat, impl: nat,
    read: Function, write: Function, open: Function, close: Function,
    readdir: Function, finddir: Function, ptr: nat)

  const ZERO_NODE: FsNode := FsNode(0, 0, 0, 0, 0, 0, 0, Null, Null, Null, Null, Null, Null, 0)

  /** The root and the device directory. */
  function DirectoryNode(i: nat): FsNode {
    ZERO_NODE.(flags := FS_DIRECTORY, inode := i, readdir := InitrdReaddir, finddir := InitrdFinddir)
  }

  /** The node's numbers have 32 bits. */
  function FileNode(i: nat, length: nat): FsNode {
    ZERO_NODE.(flags := FS_FILE, inode := i % U32, length := length % U32, read := InitrdRead)
  }

  /** Entries 0 and 1 are directories, every other one is a file. */
  function NodeOf(files: seq<File>, i: nat): FsNode
    requires i < |files| + 2
  {
    if i < 2 then DirectoryNode(i) else FileNode(i, files[i - 2].length)
  }

  /** The fields of a file's node, one by one. */
  predicate FileNodeIs(n: FsNode, inode: nat, length: nat) {
    && n.flags == 1 && n.inode == inode && n.length == length % 0x1_0000_0000 && n.read == InitrdRead
    && n.readdir == Null && n.finddir == Null && n.write == Null && n.open == Null && n.close == Null
    && n.mask == 0 && n.uid == 0 && n.gid == 0 && n.impl == 0 && n.ptr == 0
  }

  /** And those of a directory's. */
  predicate DirectoryNodeIs(n: FsNode, inode: nat) {
    && n.flags == 2 && n.inode == inode && n.length == 0 && n.read == Null
    && n.readdir == InitrdReaddir && n.finddir == InitrdFinddir && n.write == Null && n.open == Null && n.close == Null
    && n.mask == 0 && n.uid == 0 && n.gid == 0 && n.impl == 0 && n.ptr == 0
  }

  /** All nodes of a mounted ramdisk. */
  predicate NodesAre(nodes: seq<FsNode>, files: seq<File>) {
    && |nodes| == |files| + 2 && DirectoryNodeIs(nodes[0], 0) && DirectoryNodeIs(nodes[1], 1)
    && forall k {:trigger files[k]} :: 0 <= k < |files| ==> FileNodeIs(nodes[k + 2], k + 2, files[k].length)
  }

  lemma NodesAsTheyAre(nodes: seq<FsNode>, files: seq<File>)
    requires |nodes| == |files| + 2 <= U32 && forall i :: 0 <= i < |nodes| ==> nodes[i] == NodeOf(files, i)
    ensures NodesAre(nodes, files)
  {
  }

  // ---------- reads ----------

  /** How many bytes a read copies; the sum of offset and size wraps around. */
  function ReadCount(length: nat, offset: nat, size: nat): nat {
    if offset > length then 0
    else if Wrapped(offset + size) > length then length - offset
    else size
  }

  /** The read starts behind the file, or the sum does not wrap. */
  predicate Tame(length: nat, offset: nat, size: nat) {
    offset < U64 && size < U64 && (offset > length || offset + size < U64)
  }

  /** A read stays within the file exactly if it starts behind the file or the sum does not wrap. */
  lemma ReadStaysInsideIff(length: nat, offset: nat, size: nat)
    requires length < U64 && offset < U64 && size < U64
    ensures ReadCount(length, offset, size) == 0 || offset + ReadCount(length, offset, size) <= length
            <==> Tame(length, offset, size)
  {
  }

  /** What a read gives the caller. */
  function ReadBytes(file: seq<Byte>, offset: nat, size: nat): seq<Byte>
    requires Tame(|file|, offset, size)
  {
    if offset > |file| then [] else file[offset..offset + ReadCount(|file|, offset, size)]
  }

  lemma ReadBytesIs(file: seq<Byte>, offset: nat, size: nat)
    requires Tame(|file|, offset, size)
    ensures ReadBytes(file, offset, size) ==
            if offset > |file| then []
            else if offset + size > |file| then file[offset..]
            else file[offset..offset + size]
  {
  }

  /** One read is the same as two that follow each other. */
  lemma ReadsCompose(file: seq<Byte>, offset: nat, a: nat, b: nat)
    requires offset + a + b < U64
    ensures ReadBytes(file, offset, a + b) == ReadBytes(file, offset, a) + ReadBytes(file, offset + a, b)
  {
    ReadBytesIs(file, offset, a + b);
    ReadBytesIs(file, offset, a);
    ReadBytesIs(file, offset + a, b);
  }

  /** Reads of `chunk` bytes, one after the other, until one gives nothing. */
  function ReadInChunks(file: seq<Byte>, offset: nat, chunk: nat): seq<Byte>
    requires chunk > 0 && offset + chunk < U64 && |file| + chunk + chunk < U64
    decreases |file| + chunk - offset
  {
    var part := ReadBytes(file, offset, chunk);
    if part == [] then [] else part + ReadInChunks(file, offset + chunk, chunk)
  }

  lemma JoinParts(file: seq<Byte>, offset: nat, chunk: nat, part: seq<Byte>, rest: seq<Byte>)
    requires offset <= |file|
    requires part == if offset + chunk > |file| then file[offset..] else file[offset..offset + chunk]
    requires rest == if offset + chunk <= |file| then file[offset + chunk..] else []
    ensures part + rest == file[offset..]
  {
  }

  /** Chunked reads end and rebuild the file. */
  lemma {:induction false} ChunksRebuildFile(file: seq<Byte>, offset: nat, chunk: nat)
    requires chunk > 0 && |file| + chunk + chunk < U64 && offset <= |file| + chunk
    ensures ReadInChunks(file, offset, chunk) == if offset <= |file| then file[offset..] else []
    decreases |file| + chunk - offset
  {
    var part := ReadBytes(file, offset, chunk);
    ReadBytesIs(file, offset, chunk);
    if offset < |file| {
      var rest := ReadInChunks(file, offset + chunk, chunk);
      ChunksRebuildFile(file, offset + chunk, chunk);
      assert part != [] && ReadInChunks(file, offset, chunk) == part + rest;
      JoinParts(file, offset, chunk, part, rest);
    }
  }

  // ---------- the mounted file system ----------

  const LISTING_BUFFER: nat := 256

  /** One line of the listing: the entry's name, the node found for it, and the
      buffer as it is printed; directories print none. */
  datatype Line = Line(name: seq<Byte>, node: nat, buffer: seq<Byte>)

  ghost predicate FoundFirst(files: seq<File>, name: seq<Byte>, r: Option<nat>) {
    match r
    case None => forall i :: 0 <= i < |files| + 2 ==> EntryName(files, i) != name
    case Some(i) =>
      && i < |files| + 2 && EntryName(files, i) == name
      && forall j :: 0 <= j < i ==> EntryName(files, j) != name
  }

  /** Looking up an entry's own name finds that entry exactly if no entry before it has the name. */
  lemma LookupFindsSelfIff(files: seq<File>, i: nat, r: Option<nat>)
    requires i < |files| + 2 && FoundFirst(files, EntryName(files, i), r)
    ensures r == Some(i) <==> forall j :: 0 <= j < i ==> EntryName(files, j) != EntryName(files, i)
  {
    if r.Some? && r.value != i {
      assert EntryName(files, r.value) == EntryName(files, i);
    }
  }

  /** The line names entry `i` and shows the first entry of that name; behind
      the file's bytes the buffer is zero, if it has been used and cleared before. */
  ghost predicate Shows(m0: seq<Byte>, p: Place, files: seq<File>, i: nat, line: Line, cleared: bool) {
    && i < |files| + 2 && line.name == EntryName(files, i)
    && FoundFirst(files, line.name, Some(line.node))
    && if line.node < 2 then line.buffer == [] else ShowsFile(m0, p, files[line.node - 2], line.buffer, cleared)
  }

  ghost predicate ShowsFile(m0: seq<Byte>, p: Place, f: File, buffer: seq<Byte>, cleared: bool) {
    && p.location + f.offset + f.length <= |m0| && |buffer| == LISTING_BUFFER
    && var bytes := ReadBytes(FileBytes(m0, p, f), 0, LISTING_BUFFER);
       && |bytes| <= LISTING_BUFFER && buffer[..|bytes|] == bytes
       && (cleared ==> forall x :: |bytes| <= x < LISTING_BUFFER ==> buffer[x] == 0)
  }

  /** Some line before the `i`-th has used the buffer. */
  ghost predicate UsedBefore(lines: seq<Line>, i: nat) {
    exists j :: 0 <= j < i && j < |lines| && lines[j].node >= 2
  }

  ghost predicate Listing(m0: seq<Byte>, p: Place, files: seq<File>, lines: seq<Line>) {
    forall i {:trigger lines[i]} :: 0 <= i < |lines| ==> Shows(m0, p, files, i, lines[i], UsedBefore(lines, i))
  }

  lemma AddLine(m0: seq<Byte>, p: Place, files: seq<File>, lines: seq<Line>, line: Line, cleared: bool)
    requires Listing(m0, p, files, lines) && (UsedBefore(lines, |lines|) ==> cleared)
    requires Shows(m0, p, files, |lines|, line, cleared)
    ensures Listing(m0, p, files, lines + [line])
    ensures UsedBefore(lines + [line], |lines| + 1) ==> UsedBefore(lines, |lines|) || line.node >= 2
  {
    var all := lines + [line];
    forall i | 0 <= i < |all| ensures Shows(m0, p, files, i, all[i], UsedBefore(all, i)) {
      if UsedBefore(all, i) {
        var j :| 0 <= j < i && j < |all| && all[j].node >= 2;
        assert lines[j].node >= 2;
      }
      if i < |lines| {
        assert all[i] == lines[i] && Shows(m0, p, files, i, lines[i], UsedBefore(lines, i));
      }
    }
  }

  /** Every line of a whole listing shows its own entry exactly if no two entries have the same name. */
  lemma ListingShowsOwnEntriesIff(m0: seq<Byte>, p: Place, files: seq<File>, lines: seq<Line>)
    requires Listing(m0, p, files, lines) && |lines| == |files| + 2
    ensures (forall i :: 0 <= i < |lines| ==> lines[i].node == i)
            <==> forall i, j :: 0 <= j < i < |files| + 2 ==> EntryName(files, j) != EntryName(files, i)
  {
    forall i | 0 <= i < |lines|
      ensures lines[i].node == i <==> forall j :: 0 <= j < i ==> EntryName(files, j) != EntryName(files, i)
    {
      LookupFindsSelfIff(files, i, Some(lines[i].node));
    }
  }

  /** What is printed of a short text file, once the buffer has been cleared, is the file. */
  lemma PrintedIsFile(m0: seq<Byte>, p: Place, f: File, buffer: seq<Byte>)
    requires ShowsFile(m0, p, f, buffer, true) && f.length < 256 && 0 !in FileBytes(m0, p, f)
    ensures |buffer| == 256 && Terminated(buffer) && Text(buffer) == FileBytes(m0, p, f)
  {
    var bytes := FileBytes(m0, p, f);
    ReadBytesIs(bytes, 0, LISTING_BUFFER);
    TextIs(buffer, bytes);
  }

  /** `n` bytes at `a` belong neither to the ramdisk nor to the entries. */
  ghost predicate Apart(p: Place, memory: nat, a: nat, n: nat) {
    a + n <= memory && (a + n <= p.location || p.End() <= a) && (a + n <= p.dirents || p.Dirent(p.count + 2) <= a)
  }

  /** The buffer has `n` bytes from `from`. */
  ghost predicate Copied(m: seq<Byte>, m': seq<Byte>, from: nat, buffer: nat, n: nat) {
    && OnlyAt(m, m', buffer, n) && buffer + n <= |m'|
    && (n > 0 ==> from + n <= |m| && m'[buffer..buffer + n] == m[from..from + n])
  }

  /** The buffer has the file's bytes as they were before the mount, and nothing else has changed. */
  ghost predicate ReadDone(m0: seq<Byte>, m: seq<Byte>, m': seq<Byte>, p: Place, f: File,
                           offset: nat, size: nat, buffer: nat, count: nat) {
    && p.location + f.offset + f.length <= |m0| && count == ReadCount(f.length, offset, size)
    && Tame(f.length, offset, size)
    && OnlyAt(m, m', buffer, count) && buffer + count <= |m'|
    && m'[buffer..buffer + count] == ReadBytes(FileBytes(m0, p, f), offset, size)
  }

  /** Reading as many bytes as a file's node says gives the whole file exactly if it is shorter than 4 GiB. */
  lemma NodeLengthReadsFileIff(m0: seq<Byte>, m: seq<Byte>, m': seq<Byte>, p: Place, f: File, n: FsNode, inode: nat,
                               buffer: nat, count: nat)
    requires FileNodeIs(n, inode, f.length) && ReadDone(m0, m, m', p, f, 0, n.length, buffer, count)
    ensures m'[buffer..buffer + count] == FileBytes(m0, p, f) <==> f.length < 0x1_0000_0000
  {
    ReadBytesIs(FileBytes(m0, p, f), 0, n.length);
  }

  class Initrd {
    const mem: array<Byte>
    var fileHeaders: nat
    var rootDirents: nat
    var rootNodes: array<FsNode>
    var nrootNodes: nat
    /** Memory before the mount, where the ramdisk is, and the files on it. */
    ghost var image: seq<Byte>
    ghost var place: Place
    ghost var files: seq<File>

    /** The memory of a mounted ramdisk, and the pointers into it. */
    ghost predicate InPlace()
      reads this, mem
    {
      && Mounted(image, mem[..], place, files)
      && fileHeaders == place.location + COUNT_SIZE && rootDirents == place.dirents
    }

    ghost predicate Valid()
      reads this, mem, rootNodes
    {
      && InPlace()
      && nrootNodes == |files| + 2 == rootNodes.Length
      && forall i :: 0 <= i < nrootNodes ==> rootNodes[i] == NodeOf(files, i)
    }

    function HeaderAddress(k: nat): nat
      reads this
    {
      fileHeaders + HEADER_SIZE * k
    }

    function DirentAddress(i: nat): nat
      reads this
    {
      rootDirents + DIRENT_SIZE * i
    }

    constructor (mem: array<Byte>)
      ensures this.mem == mem && fresh(rootNodes)
    {
      this.mem := mem;
      this.fileHeaders, this.rootDirents, this.nrootNodes := 0, 0, 0;
      this.rootNodes := new FsNode[0];
      this.image, this.place, this.files := [], Place(0, 0, 0, 0), [];
    }

    /** The copy of a name relies on the zero behind it. */
    method WriteName(a: nat, name: seq<Byte>)
      requires Terminated(name) && a + |Text(name)| < mem.Length && At(mem[..], a + |Text(name)|) == 0
      modifies mem
      ensures IsString(mem[..], a, Text(name)) && OnlyAt(old(mem[..]), mem[..], a, |Text(name)|)
    {
      TextOverZero(mem[..], a, Text(name));
      Strcpy(mem, a, name);
    }

    /** Fills in one directory entry. */
    method WriteDirent(i: nat, name: seq<Byte>)
      requires rootDirents == place.dirents && place.Dirent(i + 1) <= mem.Length && i < U32
      requires Terminated(name) && |Text(name)| < NAME_SIZE && At(mem[..], place.Dirent(i) + |Text(name)|) == 0
      modifies mem
      ensures EntryDone(mem[..], place, i, Text(name))
      ensures OnlyAt(old(mem[..]), mem[..], place.Dirent(i), DIRENT_SIZE)
    {
      ghost var m := mem[..];
      WriteName(DirentAddress(i), name);
      ghost var m1 := mem[..];
      FitsDword(i);
      StoreNumber(mem, DirentAddress(i) + INO_FIELD, Dword(), i);
      NumberBehindName(m, m1, mem[..], place, i, Text(name));
    }

    ghost predicate Located()
      reads this
    {
      && fileHeaders == place.location + COUNT_SIZE && rootDirents == place.dirents
      && mem.Length == |image| && Holds(image, place, files)
    }

    ghost predicate Filled(h: nat, i: nat)
      reads this, mem
    {
      Located() && Progress(image, mem[..], place, files, h, i)
    }

    /** One more directory entry. */
    method AddDirent(i: nat, name: seq<Byte>, ghost h: nat)
      requires Filled(h, i) && i < |files| + 2
      requires Terminated(name) && Text(name) == EntryName(files, i) && |Text(name)| < NAME_SIZE
      modifies mem
      ensures Filled(h, i + 1)
    {
      ghost var m := mem[..];
      ZeroBehindName(image, m, place, files, h, i, |Text(name)|);
      WriteDirent(i, name);
      EntryStep(image, m, place, files, h, i, mem[..]);
    }

    /** Turns one header's offset into an address. */
    method RelocateHeader(k: nat, location: nat, ghost i: nat)
      requires Filled(k, i) && k < |files| && location == place.location
      modifies mem
      ensures Filled(k + 1, i)
    {
      ghost var m := mem[..];
      var a := HeaderAddress(k) + OFFSET_FIELD;
      ghost var relocated := RelocatedOffset(image, m, place, files, k, a);
      var address := Wrapped(NumberAt(mem[..], a, Qword()) + location);
      StoreNumber(mem, a, Qword(), address);
      RelocateStep(image, m, place, files, k, i, mem[..]);
    }

    /** The entry of one file, named as its header names it. */
    method AddFileDirent(i: nat)
      requires 2 <= i < |files| + 2 && Filled(i - 1, i)
      modifies mem
      ensures Filled(i - 1, i + 1)
    {
      HeaderName(image, mem[..], place, files, i - 2, i - 1);
      AddDirent(i, mem[..][HeaderAddress(i - 2) + NAME_FIELD..], i - 1);
    }

    /** The body of the loop over the files, but for the node. */
    method AddFile(i: nat, location: nat)
      requires 2 <= i < |files| + 2 && Filled(i - 2, i) && location == place.location
      modifies mem
      ensures Filled(i - 1, i + 1)
    {
      RelocateHeader(i - 2, location, i);
      AddFileDirent(i);
    }

    /** The node of one file. */
    method AddNode(i: nat, ghost h: nat)
      requires 2 <= i < |files| + 2 == rootNodes.Length && Filled(h, i + 1)
      modifies rootNodes
      ensures rootNodes[i] == NodeOf(files, i)
      ensures forall j :: 0 <= j < rootNodes.Length && j != i ==> rootNodes[j] == old(rootNodes[j])
    {
      HeaderLength(image, mem[..], place, files, i - 2, h);
      var length := NumberAt(mem[..], HeaderAddress(i - 2) + LENGTH_FIELD, Qword());
      rootNodes[i] := FileNode(i, length);
    }

    /** The loop over the files. */
    method AddFiles(location: nat)
      requires nrootNodes == |files| + 2 == rootNodes.Length && Filled(0, 2) && location == place.location
      modifies mem, rootNodes
      ensures Filled(|files|, |files| + 2)
      ensures forall j :: 0 <= j < rootNodes.Length ==>
                rootNodes[j] == if j < 2 then old(rootNodes[j]) else NodeOf(files, j)
    {
      for i := 2 to nrootNodes
        invariant Filled(i - 2, i)
        invariant forall j :: 0 <= j < rootNodes.Length && j < i ==>
                    rootNodes[j] == if j < 2 then old(rootNodes[j]) else NodeOf(files, j)
      {
        AddFile(i, location);
        AddNode(i, i - 1);
      }
    }

    /** The entries of the root and of the device directory. */
    method AddDirectories()
      requires Filled(0, 0)
      modifies mem
      ensures Filled(0, 2)
    {
      TextIs(SLASH + [0], SLASH);
      AddDirent(0, SLASH + [0], 0);
      TextIs(DEV + [0], DEV);
      AddDirent(1, DEV + [0], 0);
    }

    /** Entries and nodes of the directories, then of the files. */
    method Populate(location: nat)
      requires nrootNodes == |files| + 2 == rootNodes.Length && Filled(0, 0) && location == place.location
      modifies mem, rootNodes
      ensures Filled(|files|, |files| + 2)
      ensures forall j :: 0 <= j < rootNodes.Length ==> rootNodes[j] == NodeOf(files, j)
    {
      AddDirectories();
      rootNodes[0] := DirectoryNode(0);
      rootNodes[1] := DirectoryNode(1);
      AddFiles(location);
    }

    /** The global pointers and the memory for the nodes. */
    method Locate(location: nat, dirents: nat, ghost p: Place, ghost fs: seq<File>)
      requires p.location == location && p.dirents == dirents
      requires Holds(mem[..], p, fs) && ZeroFrom(mem[..], p, 0)
      modifies this
      ensures image == old(mem[..]) && place == p && files == fs && fresh(rootNodes)
      ensures nrootNodes == |fs| + 2 == rootNodes.Length && Filled(0, 0)
    {
      image, place, files := mem[..], p, fs;
      fileHeaders := location + COUNT_SIZE;
      rootDirents := dirents;
      nrootNodes := NumberAt(mem[..], location, Qword()) + 2;
      rootNodes := new FsNode[nrootNodes](_ => ZERO_NODE);
      ProgressStarts(image, p, fs);
    }

    /** The ramdisk's files become nodes and directory entries; the entries lie
        in memory that the allocator has zeroed. */
    method InitialiseInitrd(location: nat, dirents: nat, ghost p: Place, ghost fs: seq<File>)
      requires p.location == location && p.dirents == dirents
      requires Holds(mem[..], p, fs) && ZeroFrom(mem[..], p, 0)
      modifies this, mem
      ensures Valid() && image == old(mem[..]) && place == p && files == fs && fresh(rootNodes)
      ensures Elsewhere(image, mem[..], p)
      ensures NodesAre(rootNodes[..], fs) && nrootNodes == |fs| + 2
      ensures ImageLayout(old(mem[..]), location, fs) && DirectoryLayout(mem[..], dirents, fs)
      ensures RelocatedLayout(mem[..], location, fs)
    {
      Locate(location, dirents, p, fs);
      Populate(location);
      MountedHasLayout(image, mem[..], p, fs);
      NodesAsTheyAre(rootNodes[..], fs);
    }

    // ---------- using it ----------

    /** The index of the entry, or NULL behind the last one. */
    method ReadDirectory(index: nat) returns (r: Option<nat>)
      requires Valid()
      ensures r == if index < |files| + 2 then Some(index) else None
    {
      if index >= nrootNodes {
        return None;
      }
      return Some(index);
    }

    /** Whether an entry has the name. */
    method NameMatches(name: seq<Byte>, i: nat) returns (b: bool)
      requires Valid() && Terminated(name) && i < |files| + 2
      ensures b <==> EntryName(files, i) == Text(name)
    {
      MountedEntry(image, mem[..], place, files, i);
      var order := Strcmp(name, mem[..][DirentAddress(i)..]);
      CompareEqual(Text(name), StringAt(mem[..], place.Dirent(i)));
      b := order == 0;
    }

    /** The node of the first entry with the name. */
    method FindDirectory(name: seq<Byte>) returns (r: Option<nat>)
      requires Valid() && Terminated(name)
      ensures FoundFirst(files, Text(name), r)
    {
      for i := 0 to nrootNodes
        invariant forall j :: 0 <= j < i && j < |files| + 2 ==> EntryName(files, j) != Text(name)
      {
        var matches := NameMatches(name, i);
        if matches {
          return Some(i);
        }
      }
      return None;
    }

    /** The header's offset, by now an address, and its length. */
    method ReadHeader(k: nat, ghost f: File) returns (start: nat, length: nat)
      requires fileHeaders == place.location + COUNT_SIZE && HeaderNames(mem[..], place, k, f)
      ensures start == place.location + f.offset && length == f.length
    {
      var a := HeaderAddress(k);
      assert a == place.Header(k) && place.Header(k + 1) == a + HEADER_SIZE;
      start := NumberAt(mem[..], a + OFFSET_FIELD, Qword());
      length := NumberAt(mem[..], a + LENGTH_FIELD, Qword());
    }

    /** Whatever is read is the file's, unless the sum of offset and size wraps within the file. */
    method ReadFile(k: nat, offset: nat, size: nat, buffer: nat) returns (count: nat)
      requires InPlace() && k < |files| && Tame(files[k].length, offset, size)
      requires Apart(place, mem.Length, buffer, ReadCount(files[k].length, offset, size))
      modifies mem
      ensures InPlace() && ReadDone(image, old(mem[..]), mem[..], place, files[k], offset, size, buffer, count)
    {
      ghost var m := mem[..];
      MountedHeader(image, m, place, files, k);
      var start, length := ReadHeader(k, files[k]);
      count := CopyClamped(start, length, offset, size, buffer);
      ReadStep(image, m, mem[..], place, files, k, offset, size, buffer, count);
    }

    /** `initrd_read` of a file's node. */
    method Read(inode: nat, offset: nat, size: nat, buffer: nat) returns (count: nat)
      requires Valid() && 2 <= inode < |files| + 2 && Tame(files[inode - 2].length, offset, size)
      requires Apart(place, mem.Length, buffer, ReadCount(files[inode - 2].length, offset, size))
      modifies mem
      ensures Valid()
      ensures ReadDone(image, old(mem[..]), mem[..], place, files[inode - 2], offset, size, buffer, count)
    {
      count := ReadFile(inode - 2, offset, size, buffer);
    }

    method CopyOut(from: nat, buffer: nat, count: nat)
      requires from + count <= mem.Length && buffer + count <= mem.Length
      requires buffer + count <= from || from + count <= buffer
      modifies mem
      ensures Copied(old(mem[..]), mem[..], from, buffer, count)
    {
      ghost var m := mem[..];
      Memcpy(mem, buffer, from, count);
      StoredIsCopied(m, mem[..], from, buffer, count);
    }

    /** The reading itself: nothing behind the file, else at most what is left of it. */
    method CopyClamped(start: nat, length: nat, offset: nat, size: nat, buffer: nat) returns (count: nat)
      requires Tame(length, offset, size) && start + length <= mem.Length
      requires var n := ReadCount(length, offset, size);
               buffer + n <= mem.Length && (buffer + n <= start || start + length <= buffer)
      modifies mem
      ensures count == ReadCount(length, offset, size) && Copied(old(mem[..]), mem[..], start + offset, buffer, count)
    {
      if offset > length {
        return 0;
      }
      count := size;
      if Wrapped(offset + size) > length {
        count := length - offset;
      }
      CopyOut(start + offset, buffer, count);
    }

    // ---------- through the node's pointers, as kernel/filesystem/file.c does ----------

    method ReaddirFs(node: FsNode, index: nat) returns (r: Option<nat>)
      requires Valid()
      ensures r == if node.readdir != Null && node.flags % 8 == FS_DIRECTORY && index < |files| + 2
                   then Some(index) else None
    {
      if node.readdir != Null && node.flags % 8 == FS_DIRECTORY {
        r := ReadDirectory(index);
      } else {
        r := None;
      }
    }

    method FinddirFs(node: FsNode, name: seq<Byte>) returns (r: Option<nat>)
      requires Valid() && Terminated(name)
      ensures if node.finddir != Null && node.flags % 8 == FS_DIRECTORY then FoundFirst(files, Text(name), r)
              else r == None
    {
      if node.finddir != Null && node.flags % 8 == FS_DIRECTORY {
        r := FindDirectory(name);
      } else {
        r := None;
      }
    }

    /** Directories cannot be read. */
    method ReadFs(i: nat, offset: nat, size: nat, buffer: nat) returns (count: nat)
      requires Valid() && i < |files| + 2 && size < U32
      requires (i >= 2 ==> Tame(files[i - 2].length, offset, size)) && Apart(place, mem.Length, buffer, size)
      modifies mem
      ensures Valid()
      ensures if i < 2 then count == 0 && mem[..] == old(mem[..])
              else ReadDone(image, old(mem[..]), mem[..], place, files[i - 2], offset, size, buffer, count)
    {
      var node := rootNodes[i];
      if node.read != Null {
        count := Read(node.inode, offset, size, buffer);
      } else {
        count := 0;
      }
    }

    // ---------- the listing of kernel/kernel.c ----------

    /** The first file whose name is that of entry `i`; there is one. */
    method LookUp(i: nat) returns (name: seq<Byte>, k: nat)
      requires Valid() && i < |files| + 2
      ensures name == EntryName(files, i) && k < |files| + 2 && FoundFirst(files, name, Some(k))
    {
      MountedEntry(image, mem[..], place, files, i);
      var pointer := mem[..][DirentAddress(i)..];
      name := Text(pointer);
      var found := FinddirFs(rootNodes[0], pointer);
      k := found.value;
    }

    /** Shows a file in the buffer, and clears the buffer. */
    method ShowFile(k: nat, buf: nat, ghost cleared: bool) returns (shown: seq<Byte>)
      requires Valid() && 2 <= k < |files| + 2 && Apart(place, mem.Length, buf, LISTING_BUFFER)
      requires cleared ==> ZeroAt(mem[..], buf, LISTING_BUFFER)
      modifies mem
      ensures Valid() && OnlyAt(old(mem[..]), mem[..], buf, LISTING_BUFFER) && ZeroAt(mem[..], buf, LISTING_BUFFER)
      ensures ShowsFile(image, place, files[k - 2], shown, cleared)
    {
      ghost var m := mem[..];
      var count := ReadFs(k, 0, LISTING_BUFFER, buf);
      ghost var m1 := mem[..];
      shown := mem[..][buf..buf + LISTING_BUFFER];
      ReadIsShown(image, m, m1, place, files[k - 2], buf, count, cleared);
      Memset(mem, buf, 0, LISTING_BUFFER);
      ClearedBuffer(m, m1, mem[..], buf, count);
      StaysMounted(image, m1, place, files, mem[..], buf, LISTING_BUFFER);
    }

    method ShowEntry(i: nat, buf: nat, ghost cleared: bool) returns (line: Line)
      requires Valid() && i < |files| + 2 && Apart(place, mem.Length, buf, LISTING_BUFFER)
      requires cleared ==> ZeroAt(mem[..], buf, LISTING_BUFFER)
      modifies mem
      ensures Valid() && OnlyAt(old(mem[..]), mem[..], buf, LISTING_BUFFER)
      ensures cleared || line.node >= 2 ==> ZeroAt(mem[..], buf, LISTING_BUFFER)
      ensures Shows(image, place, files, i, line, cleared)
    {
      var name, k := LookUp(i);
      var shown := [];
      if rootNodes[k].flags % 8 != FS_DIRECTORY {
        shown := ShowFile(k, buf, cleared);
      }
      line := Line(name, k, shown);
    }

    /** The listing so far, and whether the buffer has been cleared. */
    ghost predicate ListDone(m0: seq<Byte>, lines: seq<Line>, cleared: bool, buf: nat)
      reads this, mem, rootNodes
    {
      && Valid() && OnlyAt(m0, mem[..], buf, LISTING_BUFFER)
      && |lines| <= |files| + 2 && Listing(image, place, files, lines)
      && (UsedBefore(lines, |lines|) ==> cleared) && (cleared ==> ZeroAt(mem[..], buf, LISTING_BUFFER))
    }

    /** One round of the loop. */
    method ListEntry(i: nat, buf: nat, lines: seq<Line>, ghost cleared: bool, ghost m0: seq<Byte>)
      returns (more: seq<Line>, ghost cleared': bool)
      requires i == |lines| < |files| + 2 && ListDone(m0, lines, cleared, buf)
      requires Apart(place, mem.Length, buf, LISTING_BUFFER)
      modifies mem
      ensures |more| == i + 1 && ListDone(m0, more, cleared', buf)
    {
      ghost var m := mem[..];
      var line := ShowEntry(i, buf, cleared);
      AddLine(image, place, files, lines, line, cleared);
      OnlyAtTwice(m0, m, mem[..], buf, LISTING_BUFFER);
      cleared' := cleared || line.node >= 2;
      more := lines + [line];
    }

    /** Visits every entry once, in order; the counter is an `int`. */
    method List(buf: nat) returns (lines: seq<Line>)
      requires Valid() && Apart(place, mem.Length, buf, LISTING_BUFFER) && |files| + 2 < 0x8000_0000
      modifies mem
      ensures Valid() && OnlyAt(old(mem[..]), mem[..], buf, LISTING_BUFFER)
      ensures |lines| == |files| + 2 && Listing(image, place, files, lines)
    {
      lines := [];
      ghost var cleared := false;
      var i := 0;
      var entry := ReaddirFs(rootNodes[0], i);
      while entry != None
        invariant ListDone(old(mem[..]), lines, cleared, buf)
        invariant i == |lines| && entry == if i < |files| + 2 then Some(i) else None
        decreases |files| + 2 - i
      {
        lines, cleared := ListEntry(entry.value, buf, lines, cleared, old(mem[..]));
        i := i + 1;
        entry := ReaddirFs(rootNodes[0], i);
      }
    }

    /** Mounting and listing: every entry of the ramdisk as it was before the mount is shown once. */
    method MountAndList(location: nat, dirents: nat, buf: nat, ghost p: Place, ghost fs: seq<File>)
      returns (lines: seq<Line>)
      requires p.location == location && p.dirents == dirents && |fs| + 2 < 0x8000_0000
      requires Holds(mem[..], p, fs) && ZeroFrom(mem[..], p, 0) && Apart(p, mem.Length, buf, LISTING_BUFFER)
      modifies this, mem
      ensures Valid() && |lines| == |fs| + 2 && Listing(old(mem[..]), p, fs, lines)
    {
      InitialiseInitrd(location, dirents, p, fs);
      lines := List(buf);
    }
  }

  lemma OnlyAtTwice(m: seq<Byte>, m': seq<Byte>, m'': seq<Byte>, a: nat, n: nat)
    requires OnlyAt(m, m', a, n) && OnlyAt(m', m'', a, n)
    ensures OnlyAt(m, m'', a, n)
  {
    forall x | 0 <= x < |m| && !(a <= x < a + n) ensures At(m'', x) == At(m, x) {
      assert At(m', x) == At(m, x);
    }
  }

  lemma ReadIsShown(m0: seq<Byte>, m: seq<Byte>, m1: seq<Byte>, p: Place, f: File, buf: nat, n: nat, cleared: bool)
    requires ReadDone(m0, m, m1, p, f, 0, LISTING_BUFFER, buf, n) && buf + LISTING_BUFFER <= |m|
    requires cleared ==> ZeroAt(m, buf, LISTING_BUFFER)
    ensures ShowsFile(m0, p, f, m1[buf..buf + LISTING_BUFFER], cleared)
  {
    var shown := m1[buf..buf + LISTING_BUFFER];
    assert shown[..n] == m1[buf..buf + n];
    forall x | cleared && n <= x < LISTING_BUFFER ensures shown[x] == 0 {
      assert At(m1, buf + x) == At(m, buf + x);
    }
  }

  lemma ClearedBuffer(m: seq<Byte>, m1: seq<Byte>, m2: seq<Byte>, buf: nat, n: nat)
    requires OnlyAt(m, m1, buf, n) && n <= LISTING_BUFFER && |m2| == |m1|
    requires forall x :: 0 <= x < |m2| ==> m2[x] == if buf <= x < buf + LISTING_BUFFER then 0 else m1[x]
    ensures OnlyAt(m1, m2, buf, LISTING_BUFFER) && OnlyAt(m, m2, buf, LISTING_BUFFER) && ZeroAt(m2, buf, LISTING_BUFFER)
  {
  }

  lemma StoredIsCopied(m: seq<Byte>, m': seq<Byte>, from: nat, buffer: nat, n: nat)
    requires from + n <= |m| && buffer + n <= |m| && m' == Stored(m, buffer, m[from..from + n])
    ensures Copied(m, m', from, buffer, n)
  {
    StoredSlice(m, buffer, m[from..from + n]);
  }

  lemma ReadIsFileBytes(m: seq<Byte>, m': seq<Byte>, p: Place, f: File, offset: nat, size: nat, buffer: nat, n: nat)
    requires p.location + f.offset + f.length <= |m| && Tame(f.length, offset, size)
    requires n == ReadCount(f.length, offset, size)
    requires Copied(m, m', p.location + f.offset + offset, buffer, n)
    ensures m'[buffer..buffer + n] == ReadBytes(FileBytes(m, p, f), offset, size)
  {
    if n > 0 {
      SliceOfSlice(m, p.location + f.offset, f.length, offset, offset + n);
    }
  }

  lemma ReadStep(m0: seq<Byte>, m: seq<Byte>, m': seq<Byte>, p: Place, files: seq<File>, k: nat,
                 offset: nat, size: nat, buffer: nat, n: nat)
    requires Mounted(m0, m, p, files) && k < |files| && Tame(files[k].length, offset, size)
    requires n == ReadCount(files[k].length, offset, size)
    requires Apart(p, |m|, buffer, n) && Copied(m, m', p.location + files[k].offset + offset, buffer, n)
    ensures Mounted(m0, m', p, files) && ReadDone(m0, m, m', p, files[k], offset, size, buffer, n)
  {
    MountedBytes(m0, m, p, files, k);
    ReadIsFileBytes(m, m', p, files[k], offset, size, buffer, n);
    StaysMounted(m0, m, p, files, m', buffer, n);
  }
}
