/**
  The memory and string routines of kernel/lib/string.c. A pointer into a
  memory is an index; a pointer that is only read is the memory from it on.
*/
module CString {
  import opened Bytes

  /** There is a NUL somewhere. */
  predicate Terminated(s: seq<Byte>) { 0 in s }

  /** The index of the first NUL at or after `i`, or the length. */
  function NulFrom(s: seq<Byte>, i: nat): (n: nat)
    requires i <= |s|
    ensures i <= n <= |s| && (n < |s| ==> s[n] == 0)
    ensures forall k :: i <= k < n ==> s[k] != 0
    decreases |s| - i
  {
    if i == |s| || s[i] == 0 then i else NulFrom(s, i + 1)
  }

  /** The characters before the first NUL. */
  function Text(s: seq<Byte>): (t: seq<Byte>)
    ensures |t| <= |s| && 0 !in t && t == s[..|t|]
    ensures forall i :: 0 <= i < |t| ==> t[i] == s[i] && s[i] != 0
    ensures Terminated(s) <==> |t| < |s|
    ensures |t| < |s| ==> s[|t|] == 0
  {
    s[..NulFrom(s, 0)]
  }

  /** The text is the one sequence without NUL that comes right before a NUL. */
  lemma TextIs(s: seq<Byte>, t: seq<Byte>)
    requires |t| < |s| && 0 !in t && t == s[..|t|] && s[|t|] == 0
    ensures Text(s) == t
  {
    assert forall k :: 0 <= k < |t| ==> s[k] == t[k] && t[k] in t;
  }

  predicate HasString(mem: seq<Byte>, p: nat) { p <= |mem| && Terminated(mem[p..]) }

  /** The string at `p`. */
  function StringAt(mem: seq<Byte>, p: nat): (t: seq<Byte>)
    requires p <= |mem|
    ensures p + |t| <= |mem| && t == mem[p..p + |t|] && 0 !in t
    ensures HasString(mem, p) ==> p + |t| < |mem| && mem[p + |t|] == 0
  {
    Text(mem[p..])
  }

  // ---------- copying ----------

  method Memset(mem: array<Byte>, p: nat, c: Byte, n: nat)
    requires p + n <= mem.Length
    modifies mem
    ensures forall i :: 0 <= i < mem.Length ==> mem[i] == if p <= i < p + n then c else old(mem[i])
  {
    for i := 0 to n
      invariant forall j :: 0 <= j < mem.Length ==> mem[j] == if p <= j < p + i then c else old(mem[j])
    {
      mem[p + i] := c;
    }
  }

  /** The loop that memcpy and one branch of memmove run, from the first byte up. */
  method CopyUp(mem: array<Byte>, dest: nat, src: nat, n: nat)
    requires dest + n <= mem.Length && src + n <= mem.Length
    requires dest <= src || src + n <= dest
    modifies mem
    ensures mem[..] == Stored(old(mem[..]), dest, old(mem[..])[src..src + n])
  {
    for i := 0 to n
      invariant forall j {:trigger mem[j]} :: 0 <= j < mem.Length ==>
                  mem[j] == if dest <= j < dest + i then old(mem[src + j - dest]) else old(mem[j])
    {
      mem[dest + i] := mem[src + i];
    }
  }

  /** The other branch's loop, from the last byte down. */
  method CopyDown(mem: array<Byte>, dest: nat, src: nat, n: nat)
    requires dest + n <= mem.Length && src + n <= mem.Length && src <= dest
    modifies mem
    ensures mem[..] == Stored(old(mem[..]), dest, old(mem[..])[src..src + n])
  {
    for i := n downto 0
      invariant forall j {:trigger mem[j]} :: 0 <= j < mem.Length ==>
                  mem[j] == if dest + i <= j < dest + n then old(mem[src + j - dest]) else old(mem[j])
    {
      mem[dest + i] := mem[src + i];
    }
  }

  /** The areas must not overlap, unless the destination is the lower one. */
  method Memcpy(mem: array<Byte>, dest: nat, src: nat, n: nat)
    requires dest + n <= mem.Length && src + n <= mem.Length
    requires dest <= src || src + n <= dest
    modifies mem
    ensures mem[..] == Stored(old(mem[..]), dest, old(mem[..])[src..src + n])
  {
    CopyUp(mem, dest, src, n);
  }

  /** For every overlap of the two areas the destination gets the old source. */
  method Memmove(mem: array<Byte>, dest: nat, src: nat, n: nat)
    requires dest + n <= mem.Length && src + n <= mem.Length
    modifies mem
    ensures mem[..] == Stored(old(mem[..]), dest, old(mem[..])[src..src + n])
  {
    if src > dest {
      CopyUp(mem, dest, src, n);
    } else if src < dest {
      CopyDown(mem, dest, src, n);
    }
  }

  // ---------- strings ----------

  /** Reads up to the first NUL and no further. */
  method Strlen(str: seq<Byte>) returns (ret: nat)
    requires Terminated(str)
    ensures ret == |Text(str)|
  {
    ret := 0;
    while str[ret] != 0
      invariant ret <= |Text(str)|
      decreases |str| - ret
    {
      ret := ret + 1;
    }
  }

  /** Copies the characters but not the NUL. */
  method Strcpy(mem: array<Byte>, dest: nat, src: seq<Byte>)
    requires Terminated(src) && dest + |Text(src)| <= mem.Length
    modifies mem
    ensures mem[..] == Stored(old(mem[..]), dest, Text(src))
  {
    var length := Strlen(src);
    for i := 0 to length
      invariant forall j {:trigger mem[j]} :: 0 <= j < mem.Length ==>
                  mem[j] == if dest <= j < dest + i then Text(src)[j - dest] else old(mem[j])
    {
      mem[dest + i] := src[i];
    }
  }

  /** The copy reads as the source exactly if a NUL was already behind it. */
  lemma StrcpyNeedsZero(mem: seq<Byte>, dest: nat, text: seq<Byte>)
    requires dest + |text| < |mem| && 0 !in text
    ensures StringAt(Stored(mem, dest, text), dest) == text <==> mem[dest + |text|] == 0
  {
    var s := Stored(mem, dest, text)[dest..];
    assert s[..|text|] == text && s[|text|] == mem[dest + |text|];
    if mem[dest + |text|] == 0 { TextIs(s, text); }
  }

  // ---------- comparing ----------

  /** The value of a character: `char` is signed on this processor. */
  function Char(b: Byte): int { if b < 128 then b else b - 256 }

  function First(s: seq<Byte>): int { if s == [] then 0 else Char(s[0]) }

  function Rest(s: seq<Byte>): seq<Byte> { if s == [] then [] else s[1..] }

  /** The difference of the first characters that differ, where the end counts as NUL. */
  function Compare(s: seq<Byte>, t: seq<Byte>): int
    decreases |s| + |t|
  {
    if s == [] && t == [] then 0
    else if First(s) != First(t) then First(s) - First(t)
    else Compare(Rest(s), Rest(t))
  }

  /** Verified for strings that end at their NUL, so it reads past neither terminator. */
  method Strcmp(str1: seq<Byte>, str2: seq<Byte>) returns (r: int)
    requires Terminated(str1) && Terminated(str2)
    ensures r == Compare(Text(str1), Text(str2))
  {
    ghost var s, t := Text(str1), Text(str2);
    var i := 0;
    while str1[i] != 0 || str2[i] != 0
      invariant i <= |s| && i <= |t|
      invariant Compare(s[i..], t[i..]) == Compare(s, t)
      decreases |s| - i
    {
      assert First(s[i..]) == Char(str1[i]) by { if i < |s| { assert s[i] == str1[i]; } }
      assert First(t[i..]) == Char(str2[i]) by { if i < |t| { assert t[i] == str2[i]; } }
      if str1[i] != str2[i] {
        return Char(str1[i]) - Char(str2[i]);
      }
      assert i < |s| && i < |t|;
      assert Rest(s[i..]) == s[i + 1..] && Rest(t[i..]) == t[i + 1..];
      i := i + 1;
    }
    assert s[i..] == [] && t[i..] == [];
    r := 0;
  }

  lemma {:induction false} CompareEqual(s: seq<Byte>, t: seq<Byte>)
    requires 0 !in s && 0 !in t
    ensures Compare(s, t) == 0 <==> s == t
    decreases |s|
  {
    if s != [] && t != [] && s[0] == t[0] {
      CompareEqual(s[1..], t[1..]);
      assert s == [s[0]] + s[1..] && t == [t[0]] + t[1..];
    } else if s != [] || t != [] {
      if s != [] { assert s[0] in s; }
      if t != [] { assert t[0] in t; }
    }
  }

  /** The sign tells which text has the smaller character where they first
      differ; characters from 128 on count as negative, and the end as NUL. */
  lemma {:induction false} CompareAtDifference(s: seq<Byte>, t: seq<Byte>, i: nat)
    requires i <= |s| && i <= |t| && s[..i] == t[..i] && 0 !in s && 0 !in t
    requires (if i < |s| then s[i] else 0) != (if i < |t| then t[i] else 0)
    ensures var a: int, b: int := (if i < |s| then s[i] else 0), (if i < |t| then t[i] else 0);
            Compare(s, t) == (if a < 128 then a else a - 256) - (if b < 128 then b else b - 256)
    decreases i
  {
    if i > 0 {
      assert s[0] == s[..i][0] && t[0] == t[..i][0] && s[1..][..i - 1] == s[..i][1..] && t[1..][..i - 1] == t[..i][1..];
      CompareAtDifference(s[1..], t[1..], i - 1);
    }
  }

  lemma {:induction false} CompareAntisymmetric(s: seq<Byte>, t: seq<Byte>)
    ensures Compare(s, t) == -Compare(t, s)
    decreases |s| + |t|
  {
    if (s != [] || t != []) && First(s) == First(t) {
      CompareAntisymmetric(Rest(s), Rest(t));
    }
  }

  lemma {:induction false} CompareTransitive(s: seq<Byte>, t: seq<Byte>, u: seq<Byte>)
    requires 0 !in s && 0 !in t && 0 !in u
    requires Compare(s, t) <= 0 && Compare(t, u) <= 0
    ensures Compare(s, u) <= 0 && (Compare(s, u) == 0 ==> s == t == u)
    decreases |s| + |t| + |u|
  {
    CompareEqual(s, t);
    CompareEqual(t, u);
    CompareEqual(s, u);
    if First(s) == First(t) == First(u) && (s != [] || t != [] || u != []) {
      assert s != [] ==> s[0] in s;
      assert t != [] ==> t[0] in t;
      assert u != [] ==> u[0] in u;
      CompareTransitive(Rest(s), Rest(t), Rest(u));
    }
  }

  // ---------- reversing ----------

  function Reversed(s: seq<Byte>): (r: seq<Byte>)
    ensures |r| == |s|
    ensures forall k :: 0 <= k < |s| ==> r[k] == s[|s| - 1 - k]
  {
    if s == [] then [] else Reversed(s[1..]) + [s[0]]
  }

  /** The loop: swaps from both ends of `n` bytes until the indices meet. */
  method ReverseRange(mem: array<Byte>, p: nat, n: nat)
    requires p + n <= mem.Length
    modifies mem
    ensures mem[..] == Stored(old(mem[..]), p, Reversed(old(mem[..])[p..p + n]))
  {
    ghost var before := mem[..];
    var i: int, j: int := 0, n - 1;
    while i < j
      invariant 0 <= i <= j + 1 && j == n - 1 - i
      invariant forall k {:trigger mem[k]} :: 0 <= k < mem.Length ==>
                  mem[k] == if p <= k < p + i || p + j < k < p + n then before[p + p + n - 1 - k] else before[k]
    {
      var tmp := mem[p + i];
      mem[p + i] := mem[p + j];
      mem[p + j] := tmp;
      i, j := i + 1, j - 1;
    }
    ReversedAt(before, mem[..], p, n);
  }

  /** Reverses the string at `p` in place. */
  method Reverse(mem: array<Byte>, p: nat)
    requires HasString(mem[..], p)
    modifies mem
    ensures mem[..] == Stored(old(mem[..]), p, Reversed(StringAt(old(mem[..]), p)))
  {
    ghost var before := mem[..];
    var n := Strlen(mem[..][p..]);
    assert n == |StringAt(before, p)|;
    ReverseRange(mem, p, n);
    assert before[p..p + n] == StringAt(before, p);
  }

  lemma ReversedByte(s: seq<Byte>, p: nat, n: nat, k: nat)
    requires p + n <= |s| && k < n
    ensures Reversed(s[p..p + n])[k] == s[p + n - 1 - k]
  {
    var t := s[p..p + n];
    assert Reversed(t)[k] == t[n - 1 - k] == s[p + (n - 1 - k)];
  }

  lemma ReversedAt(before: seq<Byte>, after: seq<Byte>, p: nat, n: nat)
    requires p + n <= |before| == |after|
    requires forall k {:trigger after[k]} :: 0 <= k < |after| ==>
               after[k] == if p <= k < p + n then before[p + p + n - 1 - k] else before[k]
    ensures after == Stored(before, p, Reversed(before[p..p + n]))
  {
    var r := Reversed(before[p..p + n]);
    forall k | 0 <= k < |after| ensures after[k] == Stored(before, p, r)[k] {
      if p <= k < p + n { ReversedByte(before, p, n, k - p); }
    }
  }
}
