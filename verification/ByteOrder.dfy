/** Byte strings read as big-endian numbers, and the carry that adds one to them. */
module ByteOrder {

  type byte = x: int | 0 <= x < 256

  function Pow256(n: nat): (p: nat)
    ensures p > 0
  {
    if n == 0 then 1 else 256 * Pow256(n - 1)
  }

  function Value(s: seq<byte>): (v: nat)
    ensures v < Pow256(|s|)
  {
    if |s| == 0 then 0 else 256 * Value(s[..|s| - 1]) + s[|s| - 1]
  }

  /** The increment as a right-to-left carry: a byte that wraps to zero passes the carry on. */
  function Successor(s: seq<byte>): (r: seq<byte>)
    ensures |r| == |s|
  {
    if |s| == 0 then []
    else if s[|s| - 1] == 255 then Successor(s[..|s| - 1]) + [0]
    else s[..|s| - 1] + [s[|s| - 1] + 1]
  }

  function Advance(s: seq<byte>, k: nat): (r: seq<byte>)
    ensures |r| == |s|
  {
    if k == 0 then s else Successor(Advance(s, k - 1))
  }

  lemma {:induction false} ValueInjective(a: seq<byte>, b: seq<byte>)
    requires |a| == |b|
    ensures Value(a) == Value(b) <==> a == b
  {
    if |a| == 0 {
    } else if Value(a) == Value(b) {
      var n := |a| - 1;
      ValueInjective(a[..n], b[..n]);
      assert a == a[..n] + [a[n]] && b == b[..n] + [b[n]];
    }
  }

  lemma {:induction false} SuccessorValue(s: seq<byte>)
    ensures Value(Successor(s)) == (Value(s) + 1) % Pow256(|s|)
  {
    if |s| == 0 {
    } else {
      var n := |s| - 1;
      var p, r := s[..n], Successor(s);
      SuccessorValue(p);
      ModOfSmall(Value(p) + 1, Pow256(n));
      ModOfSmall(Value(s) + 1, Pow256(|s|));
      if s[n] == 255 {
        assert r[..n] == Successor(p) && r[n] == 0;
      } else {
        assert r[..n] == p && r[n] == s[n] + 1;
      }
    }
  }

  /** Going round the address space: k increments add k modulo 256 to the length. */
  lemma {:induction false} AdvanceValue(s: seq<byte>, k: nat)
    ensures Value(Advance(s, k)) == (Value(s) + k) % Pow256(|s|)
  {
    var m := Pow256(|s|);
    if k == 0 {
      ModOfSmall(Value(s), m);
    } else {
      AdvanceValue(s, k - 1);
      SuccessorValue(Advance(s, k - 1));
      ModThenAdd(Value(s) + k - 1, 1, m);
    }
  }

  // Modular arithmetic over a variable modulus.

  lemma MulSteps(d: int, m: nat)
    ensures d >= 1 ==> d * m >= m
    ensures d <= 0 ==> d * m <= 0
    ensures d <= -1 ==> d * m <= 0 - m
  {
  }

  lemma ModUnique(x: int, q: int, r: int, m: nat)
    requires m > 0 && 0 <= r < m && x == q * m + r
    ensures x % m == r
  {
    var d := q - x / m;
    assert d * m == x % m - r by {
      assert x == (x / m) * m + x % m;
      assert d * m == q * m - (x / m) * m;
    }
    MulSteps(d, m);
  }

  lemma ModOfSmall(x: nat, m: nat)
    requires 0 <= x <= m && m > 0
    ensures x % m == if x == m then 0 else x
  {
  }

  lemma ModThenAdd(x: int, y: int, m: nat)
    requires m > 0
    ensures (x % m + y) % m == (x + y) % m
  {
    var z := x % m + y;
    assert x + y == (x / m + z / m) * m + z % m by {
      assert x == (x / m) * m + x % m;
      assert z == (z / m) * m + z % m;
    }
    ModUnique(x + y, x / m + z / m, z % m, m);
  }

  /** Fewer than m steps apart on a circle of m means apart. */
  lemma ModApart(x: int, y: int, m: nat)
    requires m > 0 && x < y < x + m
    ensures x % m != y % m
  {
    var q := y / m - x / m;
    assert y - x == q * m + (y % m - x % m) by {
      assert x == (x / m) * m + x % m;
      assert y == (y / m) * m + y % m;
    }
    MulSteps(q, m);
  }
}
