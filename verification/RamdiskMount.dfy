/**
  What mounting the ramdisk does to memory, piece by piece: the headers'
  offsets become addresses, and the directory entries get their names. `m0` is
  memory as the boot loader and the allocator left it.
*/
module RamdiskMount {
  import opened Bytes
  import opened CString
  import opened RamdiskImage

  /** The first `n` offsets have become addresses; everything else of the ramdisk is as it was. */
  ghost predicate Headers(m0: seq<Byte>, m: seq<Byte>, p: Place, files: seq<File>, n: nat) {
    && (forall k {:trigger HeaderDone(m, p, k, files[k])} :: 0 <= k < n && k < |files|
          ==> HeaderDone(m, p, k, files[k]))
    && (forall k {:trigger HeaderLeft(m0, m, p, k)} :: n <= k < |files| ==> HeaderLeft(m0, m, p, k))
    && (forall k {:trigger HeaderKept(m0, m, p, k)} :: 0 <= k < |files| ==> HeaderKept(m0, m, p, k))
    && Same(m0, m, p.location, p.location + COUNT_SIZE)
    && Same(m0, m, p.Data(), p.End())
  }

  ghost predicate HeaderDone(m: seq<Byte>, p: Place, k: nat, f: File) {
    p.Header(k + 1) <= |m| && NumberAt(m, p.Header(k) + OFFSET_FIELD, Qword()) == p.location + f.offset
  }

  ghost predicate HeaderLeft(m0: seq<Byte>, m: seq<Byte>, p: Place, k: nat) {
    Same(m0, m, p.Header(k) + OFFSET_FIELD, p.Header(k) + LENGTH_FIELD)
  }

  ghost predicate HeaderKept(m0: seq<Byte>, m: seq<Byte>, p: Place, k: nat) {
    && Same(m0, m, p.Header(k), p.Header(k) + OFFSET_FIELD)
    && Same(m0, m, p.Header(k) + LENGTH_FIELD, p.Header(k) + HEADER_SIZE)
  }

  /** The first `i` directory entries have their names; the others are still zero. */
  ghost predicate Entries(m: seq<Byte>, p: Place, files: seq<File>, i: nat) {
    && (forall j {:trigger EntryDone(m, p, j, EntryName(files, j))} :: 0 <= j < i && j < |files| + 2 ==>
          EntryDone(m, p, j, EntryName(files, j)))
    && ZeroFrom(m, p, i)
  }

  ghost predicate EntryDone(m: seq<Byte>, p: Place, j: nat, name: seq<Byte>) {
    && p.Dirent(j + 1) <= |m| && |name| < NAME_SIZE && IsString(m, p.Dirent(j), name)
    && NumberAt(m, p.Dirent(j) + INO_FIELD, Dword()) == j
  }

  ghost predicate ZeroFrom(m: seq<Byte>, p: Place, i: nat) {
    forall x {:trigger At(m, x)} :: p.Dirent(i) <= x < p.Dirent(p.count + 2) && x < |m| ==> At(m, x) == 0
  }

  ghost predicate Elsewhere(m0: seq<Byte>, m: seq<Byte>, p: Place) {
    && |m| == |m0|
    && forall x {:trigger At(m, x)} ::
         0 <= x < |m| && !(p.location <= x < p.End()) && !(p.dirents <= x < p.Dirent(p.count + 2))
         ==> At(m, x) == At(m0, x)
  }

  ghost predicate Mounted(m0: seq<Byte>, m: seq<Byte>, p: Place, files: seq<File>) {
    && |m| == |m0| && Holds(m0, p, files)
    && Headers(m0, m, p, files, |files|) && Entries(m, p, files, |files| + 2)
  }

  // ---------- the layout, byte by byte ----------

  /** The image: the number of files at its start, then 88 bytes for each, with
      the name behind one byte, the offset at 72 and the length at 80. */
  ghost predicate ImageLayout(m0: seq<Byte>, location: nat, files: seq<File>) {
    && location + 8 + 88 * |files| <= |m0| && NumberAt(m0, location, Qword()) == |files|
    && forall k {:trigger ImageHeader(m0, location + 8 + 88 * k, files[k])} :: 0 <= k < |files| ==>
         ImageHeader(m0, location + 8 + 88 * k, files[k])
  }

  ghost predicate ImageHeader(m0: seq<Byte>, h: nat, f: File) {
    && h + 88 <= |m0| && IsString(m0, h + 1, f.name)
    && NumberAt(m0, h + 72, Qword()) == f.offset && NumberAt(m0, h + 80, Qword()) == f.length
  }

  /** 132 bytes for an entry: the name, and the inode number at 128. */
  ghost predicate EntryLayout(m: seq<Byte>, a: nat, name: seq<Byte>, inode: nat) {
    a + 132 <= |m| && IsString(m, a, name) && NumberAt(m, a + 128, Dword()) == inode
  }

  /** The entries: "/", "dev", and the files' names. */
  ghost predicate DirectoryLayout(m: seq<Byte>, dirents: nat, files: seq<File>) {
    && EntryLayout(m, dirents, [47], 0) && EntryLayout(m, dirents + 132, [100, 101, 118], 1)
    && forall k {:trigger EntryLayout(m, dirents + 132 * (k + 2), files[k].name, k + 2)} :: 0 <= k < |files| ==>
         EntryLayout(m, dirents + 132 * (k + 2), files[k].name, k + 2)
  }

  /** The offsets have become addresses. */
  ghost predicate RelocatedLayout(m: seq<Byte>, location: nat, files: seq<File>) {
    forall k {:trigger files[k]} :: 0 <= k < |files| ==>
      location + 8 + 88 * k + 88 <= |m|
      && NumberAt(m, location + 8 + 88 * k + 72, Qword()) == location + files[k].offset
  }

  lemma ImageHasLayout(m0: seq<Byte>, p: Place, files: seq<File>)
    requires Holds(m0, p, files)
    ensures ImageLayout(m0, p.location, files)
  {
    forall k | 0 <= k < |files| ensures ImageHeader(m0, p.location + 8 + 88 * k, files[k]) {
      assert HeaderHolds(m0, p, k, files[k]);
    }
  }

  lemma EntryHasLayout(m: seq<Byte>, p: Place, files: seq<File>, i: nat)
    requires Entries(m, p, files, |files| + 2) && i < |files| + 2
    ensures EntryLayout(m, p.dirents + 132 * i, EntryName(files, i), i)
  {
    assert EntryDone(m, p, i, EntryName(files, i));
  }

  lemma DirectoryHasLayout(m: seq<Byte>, p: Place, files: seq<File>)
    requires Entries(m, p, files, |files| + 2)
    ensures DirectoryLayout(m, p.dirents, files)
  {
    EntryHasLayout(m, p, files, 0);
    EntryHasLayout(m, p, files, 1);
    forall k | 0 <= k < |files| ensures EntryLayout(m, p.dirents + 132 * (k + 2), files[k].name, k + 2) {
      EntryHasLayout(m, p, files, k + 2);
    }
  }

  lemma HeadersHaveLayout(m0: seq<Byte>, m: seq<Byte>, p: Place, files: seq<File>)
    requires Headers(m0, m, p, files, |files|)
    ensures RelocatedLayout(m, p.location, files)
  {
    forall k | 0 <= k < |files|
      ensures p.location + 8 + 88 * k + 88 <= |m|
      ensures NumberAt(m, p.location + 8 + 88 * k + 72, Qword()) == p.location + files[k].offset
    {
      assert HeaderDone(m, p, k, files[k]);
    }
  }

  lemma MountedHasLayout(m0: seq<Byte>, m: seq<Byte>, p: Place, files: seq<File>)
    requires Mounted(m0, m, p, files)
    ensures ImageLayout(m0, p.location, files) && DirectoryLayout(m, p.dirents, files)
    ensures RelocatedLayout(m, p.location, files)
  {
    ImageHasLayout(m0, p, files);
    DirectoryHasLayout(m, p, files);
    HeadersHaveLayout(m0, m, p, files);
  }

  // ---------- the two areas do not disturb each other ----------

  lemma HeadersLocal(m0: seq<Byte>, m: seq<Byte>, m': seq<Byte>, p: Place, files: seq<File>, n: nat)
    requires Holds(m0, p, files) && |m| == |m0| && Headers(m0, m, p, files, n) && Same(m, m', p.location, p.End())
    ensures Headers(m0, m', p, files, n)
  {
    forall k | 0 <= k < |files|
      ensures HeaderKept(m0, m', p, k)
      ensures k < n ==> HeaderDone(m', p, k, files[k])
      ensures k >= n ==> HeaderLeft(m0, m', p, k)
    {
      assert HeaderKept(m0, m, p, k) && p.Header(k) + HEADER_SIZE <= p.End();
      if k < n {
        assert HeaderDone(m, p, k, files[k]);
        SameNumber(m, m', p.Header(k) + OFFSET_FIELD, Qword());
      } else {
        assert HeaderLeft(m0, m, p, k);
      }
    }
  }

  lemma EntriesLocal(m: seq<Byte>, m': seq<Byte>, p: Place, files: seq<File>, i: nat)
    requires p.Fits(|m|) && p.count == |files| && Entries(m, p, files, i)
    requires Same(m, m', p.dirents, p.Dirent(p.count + 2))
    ensures Entries(m', p, files, i)
  {
    forall j | 0 <= j < i && j < |files| + 2
      ensures EntryDone(m', p, j, EntryName(files, j))
    {
      assert EntryDone(m, p, j, EntryName(files, j));
      EntryLocal(m, m', p, j, EntryName(files, j));
    }
  }

  lemma EntryLocal(m: seq<Byte>, m': seq<Byte>, p: Place, j: nat, name: seq<Byte>)
    requires EntryDone(m, p, j, name) && Same(m, m', p.Dirent(j), p.Dirent(j + 1))
    ensures EntryDone(m', p, j, name)
  {
    SameString(m, m', p.Dirent(j), name);
    SameNumber(m, m', p.Dirent(j) + INO_FIELD, Dword());
  }

  // ---------- one header ----------

  /** The offset of header `k` is the file's own until the loop gets there, and adding
      the ramdisk's address does not wrap. */
  lemma OffsetBefore(m0: seq<Byte>, m: seq<Byte>, p: Place, files: seq<File>, k: nat)
    requires Holds(m0, p, files) && |m| == |m0| && k < |files| && Headers(m0, m, p, files, k)
    ensures p.Header(k + 1) <= p.End() && p.location + files[k].offset < U64
    ensures NumberAt(m, p.Header(k) + OFFSET_FIELD, Qword()) == files[k].offset
  {
    assert HeaderHolds(m0, p, k, files[k]) && HeaderLeft(m0, m, p, k);
    SameNumber(m0, m, p.Header(k) + OFFSET_FIELD, Qword());
  }

  /** The address that the loop computes from the offset. */
  lemma RelocatedOffset(m0: seq<Byte>, m: seq<Byte>, p: Place, files: seq<File>, k: nat, a: nat) returns (address: nat)
    requires Holds(m0, p, files) && |m| == |m0| && k < |files| && Headers(m0, m, p, files, k)
    requires a == p.Header(k) + OFFSET_FIELD
    ensures a + Qword() <= |m| && address == Wrapped(NumberAt(m, a, Qword()) + p.location)
    ensures address == p.location + files[k].offset && Fits(address, Qword())
  {
    OffsetBefore(m0, m, p, files, k);
    address := Wrapped(NumberAt(m, a, Qword()) + p.location);
    FitsQword(address);
  }

  lemma WriteHeader(m0: seq<Byte>, m: seq<Byte>, p: Place, files: seq<File>, k: nat, m': seq<Byte>)
    requires Holds(m0, p, files) && |m| == |m0| && k < |files| && Headers(m0, m, p, files, k)
    requires OnlyAt(m, m', p.Header(k) + OFFSET_FIELD, Qword()) && HeaderDone(m', p, k, files[k])
    ensures Headers(m0, m', p, files, k + 1)
  {
    forall j | 0 <= j < |files|
      ensures HeaderKept(m0, m', p, j)
      ensures j < k + 1 ==> HeaderDone(m', p, j, files[j])
      ensures j >= k + 1 ==> HeaderLeft(m0, m', p, j)
    {
      assert HeaderKept(m0, m, p, j);
      if j < k {
        assert HeaderDone(m, p, j, files[j]);
        SameNumber(m, m', p.Header(j) + OFFSET_FIELD, Qword());
      } else if j > k {
        assert HeaderLeft(m0, m, p, j);
      }
    }
  }

  // ---------- one entry ----------

  lemma WriteEntry(m: seq<Byte>, m': seq<Byte>, p: Place, files: seq<File>, i: nat)
    requires p.Fits(|m|) && p.count == |files| && i < |files| + 2 && Entries(m, p, files, i)
    requires EntryDone(m', p, i, EntryName(files, i)) && OnlyAt(m, m', p.Dirent(i), DIRENT_SIZE)
    ensures Entries(m', p, files, i + 1)
  {
    forall j | 0 <= j < i + 1
      ensures EntryDone(m', p, j, EntryName(files, j))
    {
      if j < i {
        assert EntryDone(m, p, j, EntryName(files, j));
        EntryLocal(m, m', p, j, EntryName(files, j));
      }
    }
  }

  // ---------- one file ----------

  /** The name in a header is not touched by the mount. */
  lemma HeaderName(m0: seq<Byte>, m: seq<Byte>, p: Place, files: seq<File>, k: nat, n: nat)
    requires Holds(m0, p, files) && |m| == |m0| && Headers(m0, m, p, files, n) && k < |files|
    ensures var a := p.Header(k) + NAME_FIELD;
            a <= |m| && HasString(m, a) && StringAt(m, a) == files[k].name && |files[k].name| < NAME_SIZE
  {
    assert HeaderHolds(m0, p, k, files[k]) && HeaderKept(m0, m, p, k);
    SameString(m0, m, p.Header(k) + NAME_FIELD, files[k].name);
    IsStringText(m, p.Header(k) + NAME_FIELD, files[k].name);
  }

  lemma HeaderLength(m0: seq<Byte>, m: seq<Byte>, p: Place, files: seq<File>, k: nat, n: nat)
    requires Holds(m0, p, files) && |m| == |m0| && Headers(m0, m, p, files, n) && k < |files|
    ensures p.Header(k + 1) <= |m| && NumberAt(m, p.Header(k) + LENGTH_FIELD, Qword()) == files[k].length
  {
    assert HeaderHolds(m0, p, k, files[k]) && HeaderKept(m0, m, p, k);
    SameNumber(m0, m, p.Header(k) + LENGTH_FIELD, Qword());
  }

  /** `h` headers and `i` entries are done. */
  ghost predicate Progress(m0: seq<Byte>, m: seq<Byte>, p: Place, files: seq<File>, h: nat, i: nat) {
    && |m| == |m0| && Holds(m0, p, files)
    && Headers(m0, m, p, files, h) && Entries(m, p, files, i) && Elsewhere(m0, m, p)
  }

  lemma RelocateStep(m0: seq<Byte>, m: seq<Byte>, p: Place, files: seq<File>, k: nat, i: nat, m1: seq<Byte>)
    requires Progress(m0, m, p, files, k, i) && k < |files|
    requires OnlyAt(m, m1, p.Header(k) + OFFSET_FIELD, Qword()) && HeaderDone(m1, p, k, files[k])
    ensures Progress(m0, m1, p, files, k + 1, i)
  {
    WriteHeader(m0, m, p, files, k, m1);
    assert p.Header(k + 1) <= p.End();
    EntriesLocal(m, m1, p, files, i);
    ElsewhereKept(m0, m, p, m1, p.Header(k) + OFFSET_FIELD, Qword());
  }

  lemma EntryStep(m0: seq<Byte>, m: seq<Byte>, p: Place, files: seq<File>, h: nat, i: nat, m1: seq<Byte>)
    requires Progress(m0, m, p, files, h, i) && i < |files| + 2
    requires OnlyAt(m, m1, p.Dirent(i), DIRENT_SIZE) && EntryDone(m1, p, i, EntryName(files, i))
    ensures Progress(m0, m1, p, files, h, i + 1)
  {
    WriteEntry(m, m1, p, files, i);
    HeadersLocal(m0, m, m1, p, files, h);
    ElsewhereKept(m0, m, p, m1, p.Dirent(i), DIRENT_SIZE);
  }

  lemma ElsewhereKept(m0: seq<Byte>, m: seq<Byte>, p: Place, m': seq<Byte>, a: nat, n: nat)
    requires Elsewhere(m0, m, p) && OnlyAt(m, m', a, n)
    requires (p.location <= a && a + n <= p.End()) || (p.dirents <= a && a + n <= p.Dirent(p.count + 2))
    ensures Elsewhere(m0, m', p)
  {
  }

  /** There is a zero behind a name that is about to be written. */
  lemma ZeroBehindName(m0: seq<Byte>, m: seq<Byte>, p: Place, files: seq<File>, h: nat, i: nat, n: nat)
    requires Progress(m0, m, p, files, h, i) && i < |files| + 2 && n < DIRENT_SIZE
    ensures p.Dirent(i + 1) <= |m| && i < U32 && At(m, p.Dirent(i) + n) == 0
  {
  }

  /** Text written over zeros is a string. */
  lemma TextOverZero(m: seq<Byte>, d: nat, t: seq<Byte>)
    requires d + |t| < |m| && 0 !in t && At(m, d + |t|) == 0
    ensures IsString(Stored(m, d, t), d, t) && OnlyAt(m, Stored(m, d, t), d, |t|)
  {
    forall k | 0 <= k < |t| ensures t[k] != 0 { assert t[k] in t; }
  }

  /** The inode number is written behind the name. */
  lemma NumberBehindName(m: seq<Byte>, m1: seq<Byte>, m2: seq<Byte>, p: Place, i: nat, t: seq<Byte>)
    requires p.Dirent(i + 1) <= |m| && |t| < NAME_SIZE && OnlyAt(m, m1, p.Dirent(i), |t|)
    requires IsString(m1, p.Dirent(i), t)
    requires OnlyAt(m1, m2, p.Dirent(i) + INO_FIELD, Dword()) && NumberAt(m2, p.Dirent(i) + INO_FIELD, Dword()) == i
    ensures EntryDone(m2, p, i, t) && OnlyAt(m, m2, p.Dirent(i), DIRENT_SIZE)
  {
  }

  /** Nothing is done yet in memory as it was found. */
  lemma ProgressStarts(m0: seq<Byte>, p: Place, files: seq<File>)
    requires Holds(m0, p, files) && ZeroFrom(m0, p, 0)
    ensures Progress(m0, m0, p, files, 0, 0)
  {
  }

  // ---------- the mounted ramdisk ----------

  lemma MountedEntry(m0: seq<Byte>, m: seq<Byte>, p: Place, files: seq<File>, i: nat)
    requires Mounted(m0, m, p, files) && i < |files| + 2
    ensures p.Dirent(i) <= |m| && HasString(m, p.Dirent(i)) && StringAt(m, p.Dirent(i)) == EntryName(files, i)
  {
    assert EntryDone(m, p, i, EntryName(files, i));
    IsStringText(m, p.Dirent(i), EntryName(files, i));
  }

  /** The header of a mounted file: its offset is the address of the file's data. */
  ghost predicate HeaderNames(m: seq<Byte>, p: Place, k: nat, f: File) {
    && p.Header(k + 1) <= |m| && p.location + f.offset + f.length <= p.End() <= |m|
    && NumberAt(m, p.Header(k) + OFFSET_FIELD, Qword()) == p.location + f.offset
    && NumberAt(m, p.Header(k) + LENGTH_FIELD, Qword()) == f.length
  }

  lemma MountedHeader(m0: seq<Byte>, m: seq<Byte>, p: Place, files: seq<File>, k: nat)
    requires Mounted(m0, m, p, files) && k < |files|
    ensures HeaderNames(m, p, k, files[k])
  {
    assert HeaderDone(m, p, k, files[k]) && HeaderHolds(m0, p, k, files[k]);
    HeaderLength(m0, m, p, files, k, |files|);
  }

  /** The mount does not touch the files' bytes. */
  lemma MountedBytes(m0: seq<Byte>, m: seq<Byte>, p: Place, files: seq<File>, k: nat)
    requires Mounted(m0, m, p, files) && k < |files|
    ensures p.location + files[k].offset + files[k].length <= p.End() <= |m0|
    ensures FileBytes(m, p, files[k]) == FileBytes(m0, p, files[k])
    ensures p.location <= p.location + files[k].offset
  {
    assert HeaderHolds(m0, p, k, files[k]);
    SameBytes(m0, m, p.location + files[k].offset, files[k].length, p.Data(), p.End());
  }

  lemma SameBytes(m0: seq<Byte>, m: seq<Byte>, a: nat, n: nat, from: nat, to: nat)
    requires Same(m0, m, from, to) && from <= a && a + n <= to <= |m|
    ensures m[a..a + n] == m0[a..a + n]
  {
    forall x | a <= x < a + n ensures m[x] == m0[x] { assert At(m, x) == At(m0, x); }
  }

  /** Writing outside the ramdisk and the entries does not unmount it. */
  lemma StaysMounted(m0: seq<Byte>, m: seq<Byte>, p: Place, files: seq<File>, m': seq<Byte>, a: nat, n: nat)
    requires Mounted(m0, m, p, files) && OnlyAt(m, m', a, n)
    requires a + n <= p.location || p.End() <= a
    requires a + n <= p.dirents || p.Dirent(p.count + 2) <= a
    ensures Mounted(m0, m', p, files)
  {
    HeadersLocal(m0, m, m', p, files, |files|);
    EntriesLocal(m, m', p, files, |files| + 2);
  }
}
