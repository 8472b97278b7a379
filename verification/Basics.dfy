/** Shared value types: failure-compatible results, bytes and the fixed-width
    integer encodings that the storage files use. */
module Basics {

  datatype Option<+T> = None | Some(value: T)

  datatype Result<+T> = Ok(value: T) | Err(error: string) {
    predicate IsFailure() {
      Err?
    }

    function PropagateFailure<U>(): Result<U>
      requires Err?
    {
      Err(error)
    }

    function Extract(): T
      requires Ok?
    {
      value
    }
  }

  type byte = b: int | 0 <= b < 256

  const U64_MAX: nat := 0xFFFF_FFFF_FFFF_FFFF

  function Max(a: nat, b: nat): nat {
    if a < b then b else a
  }

  /** 256 to the power `width`. */
  function Pow256(width: nat): (p: nat)
    ensures p > 0
  {
    if width == 0 then 1 else 256 * Pow256(width - 1)
  }

  /** Big-endian digits of `v`, `width` bytes wide. */
  function BigEndian(v: nat, width: nat): (s: seq<byte>)
    ensures |s| == width
  {
    if width == 0 then [] else BigEndian(v / 256, width - 1) + [v % 256]
  }

  /** Little-endian digits of `v`, `width` bytes wide. */
  function LittleEndian(v: nat, width: nat): (s: seq<byte>)
    ensures |s| == width
  {
    if width == 0 then [] else [v % 256] + LittleEndian(v / 256, width - 1)
  }

  /** The number whose little-endian digits are `s`. */
  function FromLittleEndian(s: seq<byte>): nat {
    if s == [] then 0 else s[0] + 256 * FromLittleEndian(s[1..])
  }

  /** Reading back a written integer gives the integer again, as long as it is
      within the width of the field. */
  lemma {:induction false} LittleEndianRoundTrip(v: nat, width: nat)
    requires v < Pow256(width)
    ensures FromLittleEndian(LittleEndian(v, width)) == v
  {
    if width > 0 {
      LittleEndianRoundTrip(v / 256, width - 1);
      assert LittleEndian(v, width)[1..] == LittleEndian(v / 256, width - 1);
    }
  }

  /** A `width`-byte field cannot hold more than its range. */
  lemma {:induction false} FromLittleEndianBound(s: seq<byte>)
    ensures FromLittleEndian(s) < Pow256(|s|)
  {
    if s != [] {
      FromLittleEndianBound(s[1..]);
    }
  }

  /** Lexicographic order on byte strings, as `Vec<u8>` compares. */
  predicate LexLess(a: seq<byte>, b: seq<byte>) {
    b != [] && (a == [] || a[0] < b[0] || (a[0] == b[0] && LexLess(a[1..], b[1..])))
  }

  /** Big-endian digits of equal width compare as the numbers do. */
  lemma {:induction false} BigEndianOrder(x: nat, y: nat, width: nat)
    requires x < Pow256(width) && y < Pow256(width)
    ensures LexLess(BigEndian(x, width), BigEndian(y, width)) <==> x < y
    ensures BigEndian(x, width) == BigEndian(y, width) <==> x == y
  {
    if width > 0 {
      BigEndianOrder(x / 256, y / 256, width - 1);
      LexSnoc(BigEndian(x / 256, width - 1), x % 256, BigEndian(y / 256, width - 1), y % 256);
      if BigEndian(x, width) == BigEndian(y, width) {
        assert BigEndian(x, width)[..width - 1] == BigEndian(x / 256, width - 1);
        assert BigEndian(y, width)[..width - 1] == BigEndian(y / 256, width - 1);
        assert BigEndian(x, width)[width - 1] == BigEndian(y, width)[width - 1];
      }
    }
  }

  lemma {:induction false} LexSnoc(a: seq<byte>, x: byte, b: seq<byte>, y: byte)
    requires |a| == |b|
    ensures LexLess(a + [x], b + [y]) <==> LexLess(a, b) || (a == b && x < y)
  {
    if a != [] {
      LexSnoc(a[1..], x, b[1..], y);
      assert (a + [x])[1..] == a[1..] + [x];
      assert (b + [y])[1..] == b[1..] + [y];
      assert a == [a[0]] + a[1..] && b == [b[0]] + b[1..];
    }
  }

  // ---- Sequences taken apart ----

  lemma Around<T>(s: seq<T>, k: nat)
    requires k < |s|
    ensures s == s[..k] + ([s[k]] + s[k + 1..]) && s == s[..k] + [s[k]] + s[k + 1..]
  {
  }

  lemma Halves<T>(s: seq<T>, k: nat)
    requires k <= |s|
    ensures s == s[..k] + s[k..]
  {
  }

  lemma Assoc<T>(a: seq<T>, b: seq<T>, c: seq<T>)
    ensures a + b + c == a + (b + c)
  {
  }

  lemma InSnoc<T>(s: seq<T>, x: T)
    requires s != []
    ensures x in s <==> x in s[..|s| - 1] || x == s[|s| - 1]
  {
    Halves(s, |s| - 1);
  }

  lemma Snoc<T>(s: seq<T>, x: T)
    ensures (s + [x])[..|s|] == s && (s + [x])[|s|] == x && |s + [x]| == |s| + 1
  {
  }

  /** A prefix grows by one element. */
  lemma Longer<T>(s: seq<T>, k: nat)
    requires k < |s|
    ensures s[..k + 1] == s[..k] + [s[k]] && s[..k + 1][..k] == s[..k]
  {
  }

  lemma Slice<T>(s: seq<T>, lo: nat, hi: nat, from: nat, to: nat)
    requires lo <= from <= to <= hi <= |s|
    ensures s[from..to] == s[lo..hi][from - lo..to - lo]
  {
    var x, y := s[from..to], s[lo..hi][from - lo..to - lo];
    assert forall k | 0 <= k < |x| :: x[k] == s[from + k] == s[lo..hi][from - lo + k] == y[k];
    assert x == y;
  }
}
