/** Bytes, option and result types, and little-endian words. */
module Bytes {

  type Byte = b: int | 0 <= b < 256

  datatype Option<+T> = None | Some(value: T)

  datatype Result<+T, +E> = Ok(value: T) | Err(error: E)

  const U16_MAX: nat := 0xffff

  /** `n` bytes of `value`, least significant byte first. */
  function LeBytes(value: nat, n: nat): (s: seq<Byte>)
    ensures |s| == n
  {
    if n == 0 then [] else [value % 256] + LeBytes(value / 256, n - 1)
  }

  function LeValue(s: seq<Byte>): (v: nat) {
    if s == [] then 0 else s[0] + 256 * LeValue(s[1..])
  }

  function Pow256(n: nat): (p: nat)
    ensures p > 0
  {
    if n == 0 then 1 else 256 * Pow256(n - 1)
  }

  lemma {:induction false} LeValueOfBytes(value: nat, n: nat)
    requires value < Pow256(n)
    ensures LeValue(LeBytes(value, n)) == value
  {
    if n == 0 {
    } else {
      LeValueOfBytes(value / 256, n - 1);
    }
  }

  lemma {:induction false} LeBytesOfValue(s: seq<Byte>)
    ensures LeValue(s) < Pow256(|s|)
    ensures LeBytes(LeValue(s), |s|) == s
  {
    if s == [] {
    } else {
      LeBytesOfValue(s[1..]);
      assert LeValue(s) % 256 == s[0] && LeValue(s) / 256 == LeValue(s[1..]);
    }
  }

  function Zeros(n: nat): (z: seq<Byte>)
    ensures |z| == n
  {
    seq(n, _ => 0)
  }

  lemma SliceOfPrefix<T>(s: seq<T>, t: seq<T>, a: nat, b: nat)
    requires s <= t && a <= b <= |s|
    ensures t[a..b] == s[a..b]
  {
    assert t[..|s|] == s;
  }

  lemma SliceOfSuffix<T>(s: seq<T>, from: nat, a: nat, b: nat)
    requires from <= |s| && a <= b <= |s| - from
    ensures s[from + a..from + b] == s[from..][a..b]
  {
  }

  lemma SliceOfSlice<T>(s: seq<T>, a: nat, b: nat, x: nat, y: nat)
    requires a <= b <= |s| && x <= y <= b - a
    ensures s[a..b][x..y] == s[a + x..a + y]
  {
    var t := s[a..b][x..y];
    forall k | 0 <= k < y - x
      ensures t[k] == s[a + x..a + y][k]
    {
      assert t[k] == s[a..b][x + k];
    }
  }

  lemma JoinSlices<T>(s: seq<T>, a: nat, b: nat, c: nat)
    requires a <= b <= c <= |s|
    ensures s[a..b] + s[b..c] == s[a..c]
  {
  }

  lemma Assoc<T>(a: seq<T>, b: seq<T>, c: seq<T>)
    ensures a + b + c == a + (b + c)
  {
  }
}
