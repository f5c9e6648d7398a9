/** Byte strings, the little-endian 16-bit fields used on the wire, and the
    Python slicing conventions (`s[:n]`, `s[n:]`) that the tools rely on. */
module Bytes {

  type byte = b: int | 0 <= b < 0x100
  type u16 = x: int | 0 <= x < 0x1_0000
  type Bytes = seq<byte>

  /** `struct.pack('<H', x)`: least significant byte first. */
  function LeU16(x: u16): (r: Bytes)
    ensures |r| == 2 && U16At(r, 0) == x
  {
    [x % 0x100, x / 0x100]
  }

  /** `struct.unpack('<H', s[i:i+2])`. */
  function U16At(s: Bytes, i: nat): u16
    requires i + 2 <= |s|
  {
    s[i] as int + 0x100 * (s[i + 1] as int)
  }

  lemma U16AtPrefix(a: Bytes, b: Bytes, i: nat)
    requires i + 2 <= |a|
    ensures U16At(a + b, i) == U16At(a, i)
  {
  }

  lemma LeU16Injective(x: u16, y: u16)
    requires LeU16(x) == LeU16(y)
    ensures x == y
  {
    assert U16At(LeU16(x), 0) == x;
  }

  /** Python's `s[:n]` for `n >= 0`: a prefix, clamped to the length of `s`. */
  function Take(s: Bytes, n: nat): (r: Bytes)
    ensures |r| == if n <= |s| then n else |s|
    ensures r <= s
  {
    if n <= |s| then s[..n] else s
  }

  /** Python's `s[n:]` for `n >= 0`: the rest after the prefix, empty when `n >= |s|`. */
  function Drop(s: Bytes, n: nat): (r: Bytes)
    ensures |r| == if n <= |s| then |s| - n else 0
  {
    if n <= |s| then s[n..] else []
  }

  /** The prefix and the rest make up the whole. */
  lemma TakeDrop(s: Bytes, n: nat)
    ensures Take(s, n) + Drop(s, n) == s
  {
  }

  lemma TakeDropConcat(a: Bytes, b: Bytes)
    ensures Take(a + b, |a|) == a && Drop(a + b, |a|) == b
  {
    assert (a + b)[..|a|] == a;
    assert (a + b)[|a|..] == b;
  }

  /** Concatenation of a sequence of byte strings, in order. */
  function Flatten(parts: seq<Bytes>): Bytes
  {
    if parts == [] then [] else parts[0] + Flatten(parts[1..])
  }

  lemma {:induction false} FlattenAppend(a: seq<Bytes>, b: seq<Bytes>)
    ensures Flatten(a + b) == Flatten(a) + Flatten(b)
  {
    if a == [] {
      assert a + b == b;
    } else {
      assert (a + b)[1..] == a[1..] + b;
      FlattenAppend(a[1..], b);
    }
  }

  /** Cutting `blob` into `a` and the rest, then the rest into `b` and
      what is left, cuts `blob` into `a + b` and that. */
  lemma FlattenCover(a: seq<Bytes>, b: seq<Bytes>, rest: Bytes, left: Bytes, blob: Bytes)
    requires Flatten(a) + rest == blob && Flatten(b) + left == rest
    ensures Flatten(a + b) + left == blob
  {
    FlattenAppend(a, b);
  }

  lemma FlattenCons(p: Bytes, ps: seq<Bytes>)
    ensures Flatten([p] + ps) == p + Flatten(ps)
  {
    assert ([p] + ps)[0] == p && ([p] + ps)[1..] == ps;
  }

  lemma FlattenOne(p: Bytes)
    ensures Flatten([p]) == p
  {
    assert [p][1..] == [];
  }

  /** `ceil(a / b)` for non-negative integers. */
  function CeilDiv(a: nat, b: nat): (q: nat)
    requires b > 0
    ensures q * b >= a && (q == 0 || (q - 1) * b < a)
  {
    (a + b - 1) / b
  }

  function Repeat(n: nat, b: byte): (r: Bytes)
    ensures |r| == n && forall i :: 0 <= i < n ==> r[i] == b
  {
    seq(n, _ => b)
  }

  /** `s` with the bytes from position `at` on replaced by `x`, as a sequence
      of byte stores into a buffer leaves it. */
  function Splice(s: Bytes, at: nat, x: Bytes): (r: Bytes)
    requires at + |x| <= |s|
    ensures |r| == |s|
  {
    s[..at] + x + s[at + |x|..]
  }

  lemma SpliceParts(s: Bytes, at: nat, x: Bytes)
    requires at + |x| <= |s|
    ensures Splice(s, at, x)[..at] == s[..at]
    ensures Splice(s, at, x)[at..at + |x|] == x
    ensures Splice(s, at, x)[at + |x|..] == s[at + |x|..]
  {
    var r := Splice(s, at, x);
    assert r == s[..at] + x + s[at + |x|..];
    assert r[..at] == s[..at];
    assert r[at..at + |x|] == x;
  }

  /** Bytes after a splice keep their value. */
  lemma SpliceBeyond(s: Bytes, at: nat, x: Bytes, i: nat)
    requires at + |x| <= i < |s|
    ensures Splice(s, at, x)[i] == s[i]
  {
  }

  /** One more store right after the spliced bytes extends the splice. */
  lemma SpliceStep(s: Bytes, at: nat, x: Bytes, b: byte)
    requires at + |x| < |s|
    ensures Splice(s, at, x)[at + |x| := b] == Splice(s, at, x + [b])
  {
    var l := Splice(s, at, x)[at + |x| := b];
    var r := Splice(s, at, x + [b]);
    assert |l| == |r|;
    forall i | 0 <= i < |l|
      ensures l[i] == r[i]
    {
      if i < at {
      } else if i < at + |x| {
      } else if i == at + |x| {
      } else {
      }
    }
  }

  /** Splicing `x` and then, right after it, `y`, splices `x + y`. */
  lemma SpliceAdjacent(s: Bytes, at: nat, x: Bytes, y: Bytes)
    requires at + |x| + |y| <= |s|
    ensures Splice(Splice(s, at, x), at + |x|, y) == Splice(s, at, x + y)
  {
    var l := Splice(Splice(s, at, x), at + |x|, y);
    var r := Splice(s, at, x + y);
    assert |l| == |r|;
    forall i | 0 <= i < |l|
      ensures l[i] == r[i]
    {
      if i < at {
      } else if i < at + |x| {
      } else if i < at + |x| + |y| {
      } else {
      }
    }
  }

  /** A later splice at the same place that is at least as long hides the earlier one. */
  lemma SpliceOver(s: Bytes, at: nat, x: Bytes, y: Bytes)
    requires |x| <= |y| && at + |y| <= |s|
    ensures Splice(Splice(s, at, x), at, y) == Splice(s, at, y)
  {
    var l := Splice(Splice(s, at, x), at, y);
    var r := Splice(s, at, y);
    forall i | 0 <= i < |l|
      ensures l[i] == r[i]
    {
      if i < at {
      } else if i < at + |y| {
      } else {
      }
    }
  }

  /** A splice that falls inside an earlier one only changes that part of it. */
  lemma SpliceInside(s: Bytes, at: nat, y: Bytes, off: nat, z: Bytes)
    requires off + |z| <= |y| && at + |y| <= |s|
    ensures Splice(Splice(s, at, y), at + off, z) == Splice(s, at, y[..off] + z + y[off + |z|..])
  {
    var l := Splice(Splice(s, at, y), at + off, z);
    var r := Splice(s, at, y[..off] + z + y[off + |z|..]);
    forall i | 0 <= i < |l|
      ensures l[i] == r[i]
    {
      if i < at {
      } else if i < at + off {
      } else if i < at + off + |z| {
      } else if i < at + |y| {
      } else {
      }
    }
  }

  lemma RepeatAppend(m: nat, n: nat, b: byte)
    ensures Repeat(m, b) + Repeat(n, b) == Repeat(m + n, b)
  {
  }
}
