/** Little-endian byte sequences and two's complement, as memcpy reads them on such a host. */
module Bytes {
  import opened Arithmetic

  type byte = b: int | 0 <= b < 256

  // 256 to the n.
  function Range(n: nat): (r: nat)
    ensures r > 0
    ensures n > 0 ==> r % 256 == 0
  {
    if n == 0 then 1 else 256 * Range(n - 1)
  }

  lemma EightBytes()
    ensures Range(8) == 0x1_0000_0000_0000_0000
  {
    assert Range(2) == 0x1_0000 && Range(4) == 0x1_0000_0000 && Range(6) == 0x1_0000_0000_0000;
  }

  // The sizes of numbers, and how many numbers each has.
  predicate IsNumberSize(n: nat) {
    n == 1 || n == 2 || n == 4 || n == 8
  }

  function CountOfValues(n: nat): nat
    requires IsNumberSize(n)
  {
    if n == 1 then 0x100
    else if n == 2 then 0x1_0000
    else if n == 4 then 0x1_0000_0000
    else 0x1_0000_0000_0000_0000
  }

  lemma CountIsRange(n: nat)
    requires IsNumberSize(n)
    ensures CountOfValues(n) == Range(n)
  {
    assert Range(2) == 256 * Range(1);
    assert Range(3) == 256 * Range(2);
    assert Range(4) == 256 * Range(3);
    EightBytes();
  }

  function FromLE(bs: seq<byte>): (v: nat)
    ensures v < Range(|bs|)
  {
    if bs == [] then 0 else bs[0] + 256 * FromLE(bs[1..])
  }

  function ToLE(n: nat, v: nat): (bs: seq<byte>)
    ensures |bs| == n
  {
    if n == 0 then [] else [v % 256] + ToLE(n - 1, v / 256)
  }

  lemma {:induction false} ReadBack(n: nat, v: nat)
    requires v < Range(n)
    ensures FromLE(ToLE(n, v)) == v
  {
    if n > 0 {
      ReadBack(n - 1, v / 256);
      assert ToLE(n, v)[1..] == ToLE(n - 1, v / 256);
    }
  }

  lemma {:induction false} WriteBack(bs: seq<byte>)
    ensures ToLE(|bs|, FromLE(bs)) == bs
  {
    if bs != [] {
      WriteBack(bs[1..]);
      assert FromLE(bs) % 256 == bs[0] && FromLE(bs) / 256 == FromLE(bs[1..]);
    }
  }

  // Byte k counts 256 to the k.
  lemma {:induction false} ByteWeight(bs: seq<byte>, k: nat)
    requires k < |bs|
    ensures FromLE(bs) - FromLE(bs[k := 0]) == bs[k] * Range(k)
  {
    var cleared := bs[k := 0];
    if k == 0 {
      assert cleared[1..] == bs[1..];
    } else {
      assert cleared[1..] == bs[1..][k - 1 := 0];
      ByteWeight(bs[1..], k - 1);
      Associate(bs[k], Range(k - 1));
    }
  }

  lemma Associate(a: int, b: int)
    ensures 256 * (a * b) == a * (256 * b)
  {
  }

  // The value of an n-byte pattern read as signed.
  function ToSigned(n: nat, v: nat): int
    requires v < Range(n)
  {
    if 2 * v < Range(n) then v else v - Range(n)
  }

  predicate SignedFits(n: nat, i: int) {
    0 <= 2 * i + Range(n) < 2 * Range(n)
  }

  lemma SignedFitsIff(n: nat, i: int)
    requires IsNumberSize(n)
    ensures SignedFits(n, i) <==> -(CountOfValues(n) / 2) <= i < CountOfValues(n) / 2
  {
    CountIsRange(n);
    hide Range;
  }

  // The pattern that stores i in n bytes.
  function FromSigned(n: nat, i: int): (v: nat)
    requires n > 0 && SignedFits(n, i)
    ensures v < Range(n) && ToSigned(n, v) == i
  {
    if i >= 0 then i else i + Range(n)
  }

  // C++ integer division truncates toward zero.
  function Truncate(a: int, b: int): int
    requires b != 0
  {
    if (a >= 0) == (b > 0) then Abs(a) / Abs(b) else -(Abs(a) / Abs(b))
  }

  function Abs(a: int): nat {
    if a < 0 then -a else a
  }

  // q is the quotient of a and b without its fraction: what is left of a has the sign of a and is
  // smaller than b.
  predicate IsTruncated(q: int, a: int, b: int) {
    var rest := a - q * b;
    && (a >= 0 ==> rest >= 0 && (rest < b || rest < -b))
    && (a <= 0 ==> rest <= 0 && (-rest < b || -rest < -b))
  }

  lemma TruncateIsTruncated(a: int, b: int)
    requires b != 0
    ensures IsTruncated(Truncate(a, b), a, b)
  {
    var x, y := Abs(a), Abs(b);
    var q, r := x / y, x % y;
    assert x == q * y + r;
    Negated(q, y);
    hide Abs;
    assert b == y || b + y == 0;
  }

  lemma Negated(q: int, y: int)
    ensures (-q) * y == -(q * y) && q * (-y) == -(q * y) && (-q) * (-y) == q * y
  {
  }

  // There is no other.
  lemma TruncatedUnique(p: int, q: int, a: int, b: int)
    requires b > 0 && IsTruncated(p, a, b) && IsTruncated(q, a, b)
    ensures p == q
  {
    var s, t := p * b, q * b;
    assert (p - q) * b == s - t;
    hide IsTruncated;
    assert -b < s - t < b by {
      RestsAreNear(s, t, a, b, p, q);
    }
    SmallMultiple(p - q, b);
  }

  lemma RestsAreNear(s: int, t: int, a: int, b: int, p: int, q: int)
    requires b > 0 && s == p * b && t == q * b && IsTruncated(p, a, b) && IsTruncated(q, a, b)
    ensures -b < s - t < b
  {
  }

  lemma SmallMultiple(d: int, b: int)
    requires b > 0 && -b < d * b < b
    ensures d == 0
  {
    if d > 0 {
      MulLeq(b, 1, d);
    } else if d < 0 {
      MulLeq(b, d, -1);
    }
  }

  lemma TruncateByOne(a: int)
    ensures Truncate(a, 1) == a
  {
  }
}
