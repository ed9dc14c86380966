/**
  The format of the initial ramdisk (kernel/filesystem/initrd.h): the number
  of files, one header per file, and the files' bytes.
*/
module RamdiskImage {
  import opened Bytes
  import opened CString

  const COUNT_SIZE: nat := 8
  /** `initrd_file_header_t`: magic, name, seven bytes of padding, offset, length. */
  const HEADER_SIZE: nat := 88
  const NAME_FIELD: nat := 1
  const NAME_SIZE: nat := 64
  const OFFSET_FIELD: nat := 72
  const LENGTH_FIELD: nat := 80
  /** `struct dirent`: a name of 128 bytes, then the inode number. */
  const DIRENT_SIZE: nat := 132
  const INO_FIELD: nat := 128

  const SLASH: seq<Byte> := [47]
  const DEV: seq<Byte> := [100, 101, 118]

  /** Where the ramdisk and the directory entries are: `size` bytes at
      `location`, and room for `count + 2` entries at `dirents`. */
  datatype Place = Place(location: nat, size: nat, count: nat, dirents: nat) {
    function Header(k: nat): nat { location + COUNT_SIZE + HEADER_SIZE * k }

    function Dirent(i: nat): nat { dirents + DIRENT_SIZE * i }

    function Data(): nat { Header(count) }

    function End(): nat { location + size }

    /** The two areas are in memory, apart from each other, and numbers of 64 and 32 bits can name them. */
    predicate Fits(memory: nat) {
      && Data() <= End() <= memory && Dirent(count + 2) <= memory < U64 && count + 2 <= U32
      && (End() <= dirents || Dirent(count + 2) <= location)
    }
  }

  /** A file as its header describes it; the offset counts from the ramdisk's start. */
  datatype File = File(name: seq<Byte>, offset: nat, length: nat)

  /** The characters of `t`, none of them NUL, stand at `a`, and a NUL behind them. */
  ghost predicate IsString(m: seq<Byte>, a: nat, t: seq<Byte>) {
    && a + |t| < |m| && At(m, a + |t|) == 0
    && forall i :: 0 <= i < |t| ==> t[i] != 0 && At(m, a + i) == t[i]
  }

  lemma IsStringText(m: seq<Byte>, a: nat, t: seq<Byte>)
    requires IsString(m, a, t)
    ensures HasString(m, a) && StringAt(m, a) == t
  {
    assert m[a..][..|t|] == t && m[a..][|t|] == 0;
    TextIs(m[a..], t);
  }

  /** Header `k` describes `f`: the name ends within its field, and the data lies behind the headers. */
  ghost predicate HeaderHolds(m: seq<Byte>, p: Place, k: nat, f: File) {
    && p.Header(k + 1) <= |m|
    && IsString(m, p.Header(k) + NAME_FIELD, f.name) && |f.name| < NAME_SIZE
    && NumberAt(m, p.Header(k) + OFFSET_FIELD, Qword()) == f.offset
    && NumberAt(m, p.Header(k) + LENGTH_FIELD, Qword()) == f.length
    && p.Data() <= p.location + f.offset && p.location + f.offset + f.length <= p.End()
  }

  /** Memory holds a well-formed ramdisk with these files. */
  ghost predicate Holds(m: seq<Byte>, p: Place, files: seq<File>) {
    && p.Fits(|m|) && p.count == |files| && NumberAt(m, p.location, Qword()) == p.count
    && forall k {:trigger HeaderHolds(m, p, k, files[k])} :: 0 <= k < |files| ==> HeaderHolds(m, p, k, files[k])
  }

  function FileBytes(m: seq<Byte>, p: Place, f: File): seq<Byte>
    requires p.location + f.offset + f.length <= |m|
  {
    m[p.location + f.offset..p.location + f.offset + f.length]
  }

  /** The names of the directory entries: the root, the device directory, the files. */
  function EntryName(files: seq<File>, i: nat): seq<Byte>
    requires i < |files| + 2
  {
    if i == 0 then SLASH else if i == 1 then DEV else files[i - 2].name
  }

  // ---------- memory in parts ----------

  /** The memories agree from `a` up to `b`. */
  ghost predicate Same(m: seq<Byte>, m': seq<Byte>, a: nat, b: nat) {
    |m| == |m'| && forall x {:trigger At(m', x)} :: a <= x < b && x < |m| ==> At(m', x) == At(m, x)
  }

  lemma SameNumber(m: seq<Byte>, m': seq<Byte>, a: nat, n: nat)
    requires a + n <= |m| && Same(m, m', a, a + n)
    ensures NumberAt(m', a, n) == NumberAt(m, a, n)
  {
    NumberSame(m, m', a, n);
  }

  lemma SameString(m: seq<Byte>, m': seq<Byte>, a: nat, t: seq<Byte>)
    requires IsString(m, a, t) && Same(m, m', a, a + |t| + 1)
    ensures IsString(m', a, t)
  {
  }
}
