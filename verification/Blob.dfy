/** Bytes, little-endian numbers, and SQBlob: the growable byte stream. */
module Blobs {
  import opened Seqs

  type Byte = b: int | 0 <= b < 256

  // ---------- little-endian numbers ----------

  function Pow256(w: nat): (p: nat)
    ensures p > 0
  {
    if w == 0 then 1 else 256 * Pow256(w - 1)
  }

  /** The low `w` bytes of `n`. */
  function LE(n: nat, w: nat): (bs: seq<Byte>)
    ensures |bs| == w
  {
    if w == 0 then [] else [n % 256] + LE(n / 256, w - 1)
  }

  function FromLE(bs: seq<Byte>): (n: nat) {
    if bs == [] then 0 else bs[0] + 256 * FromLE(bs[1..])
  }

  lemma {:induction false} FromLEOfLE(n: nat, w: nat)
    requires n < Pow256(w)
    ensures FromLE(LE(n, w)) == n
  {
    if w > 0 {
      FromLEOfLE(n / 256, w - 1);
      assert LE(n, w)[1..] == LE(n / 256, w - 1);
    }
  }

  /** The lower bytes come first. */
  lemma {:induction false} LowFirst(a: seq<Byte>, b: seq<Byte>)
    ensures FromLE(a + b) == FromLE(a) + Pow256(|a|) * FromLE(b)
  {
    if a == [] {
      assert a + b == b;
    } else {
      assert (a + b)[1..] == a[1..] + b;
      LowFirst(a[1..], b);
      Regroup(Pow256(|a| - 1), FromLE(b));
    }
  }

  lemma Regroup(p: nat, n: nat)
    ensures 256 * (p * n) == (256 * p) * n
  {
  }

  lemma {:induction false} FromLEBound(bs: seq<Byte>)
    ensures FromLE(bs) < Pow256(|bs|)
  {
    if bs != [] {
      FromLEBound(bs[1..]);
    }
  }

  // ---------- the stream ----------

  /** `bs` laid over `was` from position `p` on. */
  function Overwrite(was: seq<Byte>, p: nat, bs: seq<Byte>): (r: seq<Byte>)
    requires p <= |was|
  {
    if p + |bs| <= |was| then was[..p] + bs + was[p + |bs|..] else was[..p] + bs
  }

  lemma OverwriteTwice(was: seq<Byte>, p: nat, a: seq<Byte>, b: seq<Byte>)
    requires p <= |was|
    ensures Overwrite(Overwrite(was, p, a), p + |a|, b) == Overwrite(was, p, a + b)
  {
    var x, q := Overwrite(was, p, a), p + |a|;
    assert x[..q] == was[..p] + a;
    if q + |b| <= |was| {
      assert x[q + |b|..] == was[q + |b|..];
      assert was[..p] + a + b + was[q + |b|..] == was[..p] + (a + b) + was[q + |b|..];
    } else {
      assert was[..p] + a + b == was[..p] + (a + b);
    }
  }

  /** Writing into a buffer whose first bytes are the old contents overwrites those. */
  lemma OverwriteGrown(was: seq<Byte>, now: seq<Byte>, after: seq<Byte>, size: nat, p: nat, bs: seq<Byte>)
    requires p <= |was| <= size <= |now| && was == now[..|was|]
    requires p + |bs| <= size && (size == |was| || size == p + |bs|)
    requires after == now[..p] + bs + now[p + |bs|..]
    ensures after[..size] == Overwrite(was, p, bs)
  {
  }

  datatype Origin = FromStart | FromHere | FromEnd | Unknown

  class Blob {
    /** `buf.Length` is _allocated. */
    var buf: array<Byte>
    var size: nat
    var ptr: nat

    ghost predicate Valid()
      reads this
    {
      ptr <= size <= buf.Length
    }

    ghost function Contents(): (s: seq<Byte>)
      requires Valid()
      reads this, buf
    {
      buf[..size]
    }

    constructor (n: nat)
      ensures Valid() && fresh(buf) && ptr == 0 && Contents() == seq(n, _ => 0)
    {
      size, ptr := n, 0;
      buf := new Byte[n](_ => 0);
    }

    method Resize(n: int) returns (ok: bool)
      requires Valid()
      modifies this
      ensures Valid() && ok == (n >= 0) && (buf == old(buf) || fresh(buf))
      ensures !ok ==> buf == old(buf) && size == old(size) && ptr == old(ptr)
      ensures ok ==> buf.Length == n && Contents() == (if old(size) > n then old(Contents())[..n] else old(Contents()))
      ensures ok ==> ptr == if old(ptr) > n then n else old(ptr)
    {
      if n < 0 {
        return false;
      }
      if n != buf.Length {
        var keep := if size > n then n else size;
        var newbuf := new Byte[n](_ => 0);
        var i := 0;
        while i < keep
          invariant 0 <= i <= keep
          invariant newbuf[..i] == buf[..i]
          modifies newbuf
        {
          newbuf[i] := buf[i];
          i := i + 1;
        }
        buf := newbuf;
        size := keep;
        if ptr > n {
          ptr := n;
        }
      }
      ok := true;
    }

    /** Makes the stream `n` bytes longer; what the new bytes hold is the caller's business. */
    method GrowBufOf(n: nat)
      requires Valid()
      modifies this
      ensures Valid() && (buf == old(buf) || fresh(buf)) && ptr == old(ptr)
      ensures size == old(size) + n && Contents()[..old(size)] == old(Contents())
      ensures buf.Length == if size <= old(buf.Length) then old(buf.Length)
                            else if size > old(size) * 2 then size else old(size) * 2
    {
      ghost var was := Contents();
      if size + n > buf.Length {
        var _ := Resize(if size + n > size * 2 then size + n else size * 2);
      }
      assert was == buf[..size];
      size := size + n;
    }

    method Write(bs: seq<Byte>)
      requires Valid()
      modifies this, buf
      ensures Valid() && (buf == old(buf) || fresh(buf))
      ensures ptr == old(ptr) + |bs| && Contents() == Overwrite(old(Contents()), old(ptr), bs)
    {
      hide Overwrite;
      ghost var was := Contents();
      if ptr + |bs| > size {
        GrowBufOf(ptr + |bs| - size);
      }
      ghost var now := buf[..];
      CopyIn(buf, ptr, bs);
      assert buf[..] == buf[..ptr] + buf[ptr..ptr + |bs|] + buf[ptr + |bs|..];
      OverwriteGrown(was, now, buf[..], size, ptr, bs);
      ptr := ptr + |bs|;
    }

    /** Up to `n` bytes from the read position; fewer only at the end of the stream. */
    method Read(n: nat) returns (bs: seq<Byte>)
      requires Valid()
      modifies `ptr
      ensures Valid() && Contents() == old(Contents())
      ensures ptr == if old(ptr) + n <= size then old(ptr) + n else size
      ensures bs == Contents()[old(ptr)..ptr]
    {
      var k := n;
      if ptr + n > size {
        if size - ptr > 0 {
          k := size - ptr;
        } else {
          return [];
        }
      }
      bs := buf[ptr..ptr + k];
      ptr := ptr + k;
    }

    method Seek(offset: int, origin: Origin) returns (r: int)
      requires Valid()
      modifies `ptr
      ensures Valid() && Contents() == old(Contents()) && (r == 0 || r == -1)
      ensures r == -1 ==> ptr == old(ptr)
      ensures r == 0 <==>
                && !origin.Unknown?
                && 0 <= offset + (if origin.FromStart? then 0 else if origin.FromHere? then old(ptr) else size) <= size
      ensures r == 0 ==> ptr == offset + (if origin.FromStart? then 0 else if origin.FromHere? then old(ptr) else size)
    {
      match origin {
      case FromStart =>
        if offset > size || offset < 0 { return -1; }
        ptr := offset;
      case FromHere =>
        if ptr + offset > size || ptr + offset < 0 { return -1; }
        ptr := ptr + offset;
      case FromEnd =>
        if size + offset > size || size + offset < 0 { return -1; }
        ptr := size + offset;
      case Unknown =>
        return -1;
      }
      r := 0;
    }
  }
}
