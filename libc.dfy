/**
  The pieces of the C library and of the host that dbversion.c relies on:
  bytes and NUL-terminated strings, memchr, strlen, strcpy and strcat over a
  heap buffer, malloc/free, and the 32-bit `int` the version tag is stored as.
*/
module LibC {
  import opened Wrappers

  /** A C `char`, taken as an 8-bit unsigned byte. */
  newtype byte = x: int | 0 <= x < 256

  const NUL: byte := 0
  const COLON: byte := 0x3A

  /** The contents of a NUL-terminated C string, without its terminator. */
  type CStr = s: seq<byte> | NUL !in s

  /** memchr(s, c, |s|): the index of the first `c` in `s`, or None for NULL. */
  function MemChr(s: seq<byte>, c: byte): (r: Option<nat>)
    ensures r.None? <==> c !in s
    ensures r.Some? ==> r.value < |s| && s[r.value] == c && c !in s[..r.value]
  {
    if |s| == 0 then None
    else if s[0] == c then Some(0)
    else match MemChr(s[1..], c)
      case None => None
      case Some(i) =>
        assert s[..i + 1] == [s[0]] + s[1..][..i];
        Some(i + 1)
  }

  /** Any index holding the first `c` of `s` is the one memchr finds. */
  lemma MemChrFirst(s: seq<byte>, c: byte, k: nat)
    requires k < |s| && s[k] == c && c !in s[..k]
    ensures MemChr(s, c) == Some(k)
  {
  }

  /** strlen(buf): the index of the first NUL in the buffer. */
  method StrLen(buf: array<byte>) returns (n: nat)
    requires NUL in buf[..]
    ensures n < buf.Length && buf[n] == NUL && NUL !in buf[..n]
  {
    n := 0;
    while buf[n] != NUL
      invariant n < buf.Length
      invariant NUL !in buf[..n]
      invariant NUL in buf[n..]
      decreases buf.Length - n
    {
      assert buf[..n + 1] == buf[..n] + [buf[n]];
      assert buf[n..] == [buf[n]] + buf[n + 1..];
      n := n + 1;
    }
  }

  /** strcpy(buf + at, s): copies `s` and its terminator into `buf` from index `at`. */
  method CopyAt(buf: array<byte>, at: nat, s: CStr)
    requires at + |s| < buf.Length
    modifies buf
    ensures buf[..at] == old(buf[..at])
    ensures buf[at..at + |s|] == s
    ensures buf[at + |s|] == NUL
    ensures buf[at + |s| + 1..] == old(buf[at + |s| + 1..])
  {
    var i := 0;
    while i < |s|
      invariant 0 <= i <= |s|
      invariant buf[..at] == old(buf[..at])
      invariant buf[at..at + i] == s[..i]
      invariant buf[at + i..] == old(buf[at + i..])
    {
      buf[at + i] := s[i];
      i := i + 1;
    }
    buf[at + |s|] := NUL;
  }

  /** strcpy(buf, s). */
  method StrCpy(buf: array<byte>, s: CStr)
    requires |s| < buf.Length
    modifies buf
    ensures buf[..|s|] == s && buf[|s|] == NUL
    ensures buf[|s| + 1..] == old(buf[|s| + 1..])
  {
    CopyAt(buf, 0, s);
  }

  /**
    strcat(buf, s): appends `s` at the first NUL of `buf`, whose index is
    `MemChr(buf[..], NUL)`.
  */
  method StrCat(buf: array<byte>, s: CStr)
    requires MemChr(buf[..], NUL).Some?
    requires MemChr(buf[..], NUL).value + |s| < buf.Length
    modifies buf
    ensures var n := old(MemChr(buf[..], NUL).value);
      && buf[..n] == old(buf[..n])
      && buf[n..n + |s|] == s
      && buf[n + |s|] == NUL
      && buf[n + |s| + 1..] == old(buf[n + |s| + 1..])
  {
    ghost var g := MemChr(buf[..], NUL).value;
    var n := StrLen(buf);
    MemChrFirst(buf[..], NUL, n);
    assert n == g;
    CopyAt(buf, n, s);
  }

  /**
    The process heap as far as dbversion.c uses it: the set of buffers that
    malloc handed out and that have not been freed.
  */
  class Heap {
    var live: set<array<byte>>

    constructor ()
      ensures live == {}
    {
      live := {};
    }

    /**
      malloc(n). `available` says whether the allocator has memory to give;
      without it malloc returns NULL.
    */
    method Malloc(n: nat, available: bool) returns (p: Option<array<byte>>)
      modifies this
      ensures available ==> p.Some? && fresh(p.value) && p.value.Length == n
                            && live == old(live) + {p.value}
      ensures !available ==> p.None? && live == old(live)
    {
      if available {
        var a := new byte[n];
        live := live + {a};
        p := Some(a);
      } else {
        p := None;
      }
    }

    /** free(p) of a buffer obtained from Malloc and not freed yet. */
    method Free(p: array<byte>)
      requires p in live
      modifies this
      ensures live == old(live) - {p}
    {
      live := live - {p};
    }
  }

  /** A host `int`: 32-bit two's complement. */
  newtype int32 = x: int | -0x8000_0000 <= x < 0x8000_0000

  /** sizeof(int). */
  const IntSize: nat := 4

  /** The bytes of an `int` in memory, least significant first. */
  function IntBytes(v: int32): (b: seq<byte>)
    ensures |b| == IntSize
  {
    var u0 := (v as int) % 0x1_0000_0000;
    var u1 := u0 / 0x100;
    var u2 := u1 / 0x100;
    [(u0 % 0x100) as byte, (u1 % 0x100) as byte, (u2 % 0x100) as byte, (u2 / 0x100) as byte]
  }

  /** The unsigned value of four bytes, least significant first. */
  function Unsigned(b: seq<byte>): int
    requires |b| == IntSize
  {
    b[0] as int + 0x100 * (b[1] as int + 0x100 * (b[2] as int + 0x100 * b[3] as int))
  }

  /** The `int` whose memory holds the given bytes, least significant first. */
  function IntOfBytes(b: seq<byte>): (v: int32)
    requires |b| == IntSize
    // two's complement: the value agrees with the unsigned reading modulo 2^32 ...
    ensures (v as int) % 0x1_0000_0000 == Unsigned(b)
    // ... and is negative exactly when the sign bit of the last byte is set
    ensures v < 0 <==> b[3] >= 0x80
  {
    var u := Unsigned(b);
    (if u < 0x8000_0000 then u else u - 0x1_0000_0000) as int32
  }

  /** Euclidean division by 256 of a number written as low byte plus 256 times the rest. */
  lemma DivMod256(x: int, lo: int, hi: int)
    requires 0 <= lo < 0x100 && x == lo + 0x100 * hi
    ensures x % 0x100 == lo && x / 0x100 == hi
  {
  }

  /** Storing an `int` and loading it back gives the same value. */
  lemma IntBytesRoundTrip(v: int32)
    ensures IntOfBytes(IntBytes(v)) == v
  {
    var u0 := (v as int) % 0x1_0000_0000;
    var u1 := u0 / 0x100;
    var u2 := u1 / 0x100;
    assert u2 == u2 % 0x100 + 0x100 * (u2 / 0x100);
    assert u1 == u1 % 0x100 + 0x100 * u2;
    assert u0 == u0 % 0x100 + 0x100 * u1;
    assert Unsigned(IntBytes(v)) == u0;
  }

  /** Loading an `int` and storing it back gives the same bytes. */
  lemma IntOfBytesRoundTrip(b: seq<byte>)
    requires |b| == IntSize
    ensures IntBytes(IntOfBytes(b)) == b
  {
    var u2 := b[2] as int + 0x100 * b[3] as int;
    var u1 := b[1] as int + 0x100 * u2;
    var u0 := b[0] as int + 0x100 * u1;
    assert Unsigned(b) == u0;
    assert (IntOfBytes(b) as int) % 0x1_0000_0000 == u0;
    DivMod256(u0, b[0] as int, u1);
    DivMod256(u1, b[1] as int, u2);
    DivMod256(u2, b[2] as int, b[3] as int);
  }
}
