/** Bytes, their bit masks read as arithmetic, and sums of byte sequences. */
module Bytes {

  type byte = b: int | 0 <= b < 256

  const WORD: int := 0x1_0000_0000

  lemma SmallWord(x: nat)
    requires x < WORD
    ensures x % WORD == x
  {
  }

  /** The bit tests of cmd_load.c on a character, read as arithmetic on its code. */
  lemma MaskTests(c: bv8)
    ensures (c & 0xE0 == 0) <==> c as int < 32
    ensures (c & 0x60 == 0x40) <==> c as int / 32 % 4 == 2
    ensures (c & 0x7f == 0x3f) <==> c as int % 128 == 63
  {
  }

  /** Its bit updates. */
  lemma MaskUpdates(c: bv8)
    ensures c & 0x60 == 0x40 ==> (c & !0x40) as int == c as int - 64
    ensures c & 0x7f == 0x3f ==> (c | 0x40) as int == c as int + 64
  {
  }

  /** A slice of a slice is a slice. */
  lemma SliceOfSlice<T>(m: seq<T>, a: nat, b: nat, c: nat, d: nat)
    requires a <= b <= |m| && c <= d <= b - a
    ensures m[a..b][c..d] == m[a + c..a + d]
  {
    var x, y := m[a..b][c..d], m[a + c..a + d];
    forall i | 0 <= i < |x| ensures x[i] == y[i] {
      assert x[i] == m[a..b][c + i];
    }
  }

  /** Two neighbouring slices. */
  lemma SlicesJoin<T>(m: seq<T>, a: nat, b: nat, c: nat)
    requires a <= b <= c <= |m|
    ensures m[a..b] + m[b..c] == m[a..c]
  {
  }

  /** Moving the first element of one sequence to the end of another. */
  lemma MoveOver<T>(done: seq<T>, x: T, rest: seq<T>)
    ensures done + ([x] + rest) == done + [x] + rest
  {
  }

  lemma Regroup<T>(a: seq<T>, b: seq<T>, c: seq<T>, d: seq<T>)
    ensures a + (b + (c + d)) == a + (b + c) + d
  {
  }

  function Sum(s: seq<byte>): (total: nat)
  {
    if s == [] then 0 else s[0] + Sum(s[1..])
  }

  lemma {:induction false} SumAppend(a: seq<byte>, b: seq<byte>)
    ensures Sum(a + b) == Sum(a) + Sum(b)
  {
    if a == [] {
      assert a + b == b;
    } else {
      assert (a + b)[1..] == a[1..] + b;
      SumAppend(a[1..], b);
    }
  }

  lemma SumTake(s: seq<byte>, k: nat)
    requires k < |s|
    ensures Sum(s[..k + 1]) == Sum(s[..k]) + s[k]
  {
    SumAppend(s[..k], [s[k]]);
    assert s[..k + 1] == s[..k] + [s[k]];
  }

  // ----- numbers as bytes, high byte first -----

  function BigEndian(bs: seq<byte>): nat
  {
    if bs == [] then 0 else BigEndian(bs[..|bs| - 1]) * 256 + bs[|bs| - 1]
  }

  lemma BigEndianSnoc(bs: seq<byte>, v: byte)
    ensures BigEndian(bs + [v]) == BigEndian(bs) * 256 + v
  {
    assert (bs + [v])[..|bs|] == bs;
  }

  /** The low `n` bytes of a number, high byte first. */
  function BytesOf(v: nat, n: nat): (bs: seq<byte>)
    ensures |bs| == n
  {
    if n == 0 then [] else BytesOf(v / 256, n - 1) + [v % 256]
  }

  function Limit(n: nat): nat { if n == 0 then 1 else 256 * Limit(n - 1) }

  lemma {:induction false} BytesOfValue(v: nat, n: nat)
    requires v < Limit(n)
    ensures BigEndian(BytesOf(v, n)) == v
  {
    if n > 0 {
      BytesOfValue(v / 256, n - 1);
      assert BytesOf(v, n)[..n - 1] == BytesOf(v / 256, n - 1);
    }
  }
}
