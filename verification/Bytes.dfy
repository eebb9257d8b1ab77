/** Bytes, fixed-width little-endian numbers and the byte-addressed file that the
    database code reads and writes through fseek, fread and fwrite. */
module Bytes {
  type byte = b: int | 0 <= b < 0x100
  type Bytes = seq<byte>
  type u32 = x: int | 0 <= x < 0x1_0000_0000
  type i16 = x: int | -0x8000 <= x < 0x8000

  /** Unsigned 16-bit number, used for a block's record count. */
  function U16(b: Bytes, at: nat): (v: int)
    requires at + 2 <= |b|
    ensures 0 <= v < 0x1_0000
  {
    var b0: int, b1: int := b[at], b[at + 1];
    b0 + 0x100 * b1
  }

  function PutU16(b: Bytes, at: nat, v: int): (r: Bytes)
    requires at + 2 <= |b| && 0 <= v < 0x1_0000
    ensures |r| == |b|
    ensures U16(r, at) == v
    ensures forall p :: 0 <= p < |b| && !(at <= p < at + 2) ==> r[p] == b[p]
  {
    b[at := v % 0x100][at + 1 := v / 0x100]
  }

  /** Little-endian 32-bit number stored at position `at`. */
  function U32(b: Bytes, at: nat): (v: u32)
    requires at + 4 <= |b|
  {
    U16(b, at) + 0x1_0000 * U16(b, at + 2)
  }

  function PutU32(b: Bytes, at: nat, v: u32): (r: Bytes)
    requires at + 4 <= |b|
    ensures |r| == |b|
    ensures U32(r, at) == v
    ensures forall p :: 0 <= p < |b| && !(at <= p < at + 4) ==> r[p] == b[p]
  {
    PutU16(PutU16(b, at, v % 0x1_0000), at + 2, v / 0x1_0000)
  }

  /** Two's-complement 16-bit number, the type of every stored parameter. */
  function I16(b: Bytes, at: nat): (v: i16)
    requires at + 2 <= |b|
  {
    var u := U16(b, at);
    if u < 0x8000 then u else u - 0x1_0000
  }

  function PutI16(b: Bytes, at: nat, v: i16): (r: Bytes)
    requires at + 2 <= |b|
    ensures |r| == |b|
    ensures I16(r, at) == v
    ensures forall p :: 0 <= p < |b| && !(at <= p < at + 2) ==> r[p] == b[p]
  {
    PutU16(b, at, if v < 0 then v + 0x1_0000 else v)
  }

  function Zeros(n: nat): (z: Bytes)
    ensures |z| == n && forall p :: 0 <= p < n ==> z[p] == 0
  {
    seq(n, _ => 0)
  }

  /** fseek to `at` and fwrite `d`. Writing past the end fills the gap with zeros. */
  function WriteAt(f: Bytes, at: nat, d: Bytes): (r: Bytes)
    ensures |r| == if |f| < at + |d| then at + |d| else |f|
    ensures forall p :: 0 <= p < |r| ==>
              r[p] == if at <= p < at + |d| then d[p - at] else if p < |f| then f[p] else 0
  {
    var g := if |f| < at + |d| then f + Zeros(at + |d| - |f|) else f;
    g[..at] + d + g[at + |d|..]
  }

  /** Reading the range just written gives the written bytes. */
  lemma ReadBack(f: Bytes, at: nat, d: Bytes)
    ensures WriteAt(f, at, d)[at..at + |d|] == d
  {
  }

  /** A range that was readable before and does not meet the write is unchanged. */
  lemma ReadAside(f: Bytes, at: nat, d: Bytes, lo: nat, hi: nat)
    requires lo <= hi <= |f|
    requires hi <= at || at + |d| <= lo
    ensures WriteAt(f, at, d)[lo..hi] == f[lo..hi]
  {
  }

  lemma SameI16(a: Bytes, p: nat, b: Bytes, q: nat)
    requires p + 2 <= |a| && q + 2 <= |b|
    requires a[p] == b[q] && a[p + 1] == b[q + 1]
    ensures I16(a, p) == I16(b, q)
  {
  }

  /** Sixteen-bit values laid out one after another, as fwrite of an int16_t array does. */
  function Encode(vals: seq<i16>): (d: Bytes)
    ensures |d| == 2 * |vals|
    ensures forall i :: 0 <= i < |vals| ==> I16(d, 2 * i) == vals[i]
  {
    if vals == [] then [] else
      var init := Encode(vals[..|vals| - 1]);
      var last := PutI16([0, 0], 0, vals[|vals| - 1]);
      assert forall i :: 0 <= i < |vals| - 1 ==> I16(init + last, 2 * i) == I16(init, 2 * i);
      assert I16(init + last, 2 * (|vals| - 1)) == I16(last, 0);
      init + last
  }

  /** The `n` values that fread takes from position `at`. */
  function Decode(f: Bytes, at: nat, n: nat): (vals: seq<i16>)
    requires at + 2 * n <= |f|
    ensures |vals| == n
    ensures forall i :: 0 <= i < n ==> vals[i] == I16(f, at + 2 * i)
  {
    seq(n, i requires 0 <= i < n => I16(f, at + 2 * i))
  }

  /** Values written as an array come back as the same array. */
  lemma {:induction false} DecodeBack(f: Bytes, at: nat, vals: seq<i16>)
    ensures Decode(WriteAt(f, at, Encode(vals)), at, |vals|) == vals
  {
    var d := Encode(vals);
    var r := WriteAt(f, at, d);
    var back := Decode(r, at, |vals|);
    forall i | 0 <= i < |vals|
      ensures back[i] == vals[i]
    {
      SameI16(r, at + 2 * i, d, 2 * i);
    }
  }

  lemma {:induction false} DecodeAside(f: Bytes, at: nat, d: Bytes, lo: nat, n: nat)
    requires lo + 2 * n <= |f|
    requires lo + 2 * n <= at || at + |d| <= lo
    ensures Decode(WriteAt(f, at, d), lo, n) == Decode(f, lo, n)
  {
    var r := WriteAt(f, at, d);
    var now, before := Decode(r, lo, n), Decode(f, lo, n);
    forall i | 0 <= i < n
      ensures now[i] == before[i]
    {
      SameI16(r, lo + 2 * i, f, lo + 2 * i);
    }
  }
}
