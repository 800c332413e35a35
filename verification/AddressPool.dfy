/** The UE address range of cmd/smf/main.go, materialised address by address. */
module AddressPool {
  import opened ByteOrder

  type Address = seq<byte>

  /** How many increments lead from one address to the other, going round if need be. */
  function Distance(from: Address, to: Address): (d: nat)
    requires |from| == |to|
    ensures d < Pow256(|from|)
  {
    (Value(to) - Value(from)) % Pow256(|from|)
  }

  /** The addresses that the pool holds, in allocation order. */
  function Range(start: Address, end: Address): (r: seq<Address>)
    requires |start| == |end|
    ensures |r| == Distance(start, end)
  {
    seq(Distance(start, end), k requires 0 <= k => Advance(start, k))
  }

  /** On a circle of m points: k steps from s, the rest of the way to e is shorter by k. */
  lemma StepsLeft(s: nat, e: nat, k: nat, m: nat)
    requires s < m && e < m && k <= (e - s) % m
    ensures (s + (e - s) % m) % m == e
    ensures (e - (s + k) % m) % m == (e - s) % m - k
  {
    var d := (e - s) % m;
    ModThenAdd(e - s, s, m);
    ModOfSmall(e, m);
    var q := (s + k) / m;
    assert s + k == q * m + (s + k) % m;
    var w := (e - s) / m;
    assert e - s == w * m + d;
    assert e - (s + k) % m == (w + q) * m + (d - k) by {
      assert (w + q) * m == w * m + q * m;
    }
    ModUnique(e - (s + k) % m, w + q, d - k, m);
  }

  lemma AdvanceReaches(start: Address, end: Address, k: nat)
    requires |start| == |end| && k <= Distance(start, end)
    ensures Advance(start, k) == end <==> k == Distance(start, end)
    ensures Distance(Advance(start, k), end) == Distance(start, end) - k
    ensures Advance(start, k) == if k == 0 then start else Successor(Advance(start, k - 1))
  {
    var m, s, d := Pow256(|start|), Value(start), Distance(start, end);
    StepsLeft(s, Value(end), k, m);
    AdvanceValue(start, k);
    ValueInjective(Advance(start, k), end);
    if k < d { ModApart(s + k, s + d, m); }
  }

  /** Every address once, consecutive from the start, never the end address. */
  lemma RangeProperties(start: Address, end: Address)
    requires |start| == |end|
    ensures |Range(start, end)| == (Value(end) - Value(start)) % Pow256(|start|)
    ensures forall k :: 0 <= k < |Range(start, end)| ==>
              Value(Range(start, end)[k]) == (Value(start) + k) % Pow256(|start|)
    ensures forall i, j :: 0 <= i < j < |Range(start, end)| ==> Range(start, end)[i] != Range(start, end)[j]
    ensures end !in Range(start, end)
  {
    var r, m := Range(start, end), Pow256(|start|);
    forall k | 0 <= k < |r|
      ensures Value(r[k]) == (Value(start) + k) % m && r[k] != end
    {
      AdvanceValue(start, k);
      AdvanceReaches(start, end, k);
    }
    forall i, j | 0 <= i < j < |r| ensures r[i] != r[j] {
      AdvanceReaches(start, end, i);
      AdvanceReaches(start, end, j);
    }
  }

  method CopyOf(ip: array<byte>) returns (copy: array<byte>)
    ensures fresh(copy) && copy.Length == ip.Length && copy[..] == ip[..]
  {
    copy := new byte[ip.Length](j requires 0 <= j < ip.Length reads ip => ip[j]);
    assert copy[..] == ip[..];
  }

  /** A fresh array one above the argument; the argument is not written. */
  method NextIP(ip: array<byte>) returns (next: array<byte>)
    ensures fresh(next) && next.Length == ip.Length
    ensures next[..] == Successor(ip[..])
    ensures Value(next[..]) == (Value(ip[..]) + 1) % Pow256(ip.Length)
  {
    hide Value, Pow256;
    next := CopyOf(ip);
    assert ip[..next.Length] == ip[..];
    var i := next.Length - 1;
    while i >= 0
      invariant -1 <= i < next.Length
      invariant next[..i + 1] == ip[..i + 1]
      invariant Successor(ip[..]) == Successor(ip[..i + 1]) + next[i + 1..]
    {
      ghost var carried := next[i + 1..];
      assert ip[..i + 1][..i] == ip[..i];
      next[i] := (next[i] as int + 1) % 256;
      assert next[i..] == [next[i]] + carried;
      if next[i] != 0 {
        assert next[..] == ip[..i] + [next[i]] + carried;
        break;
      }
      i := i - 1;
    }
    assert i == -1 ==> next[..] == next[i + 1..];
    SuccessorValue(ip[..]);
  }

  /** Fills the pool from start up to, not including, end. Each entry is a fresh copy of its own. */
  method InitIPPool(start: array<byte>, end: array<byte>) returns (pool: seq<array<byte>>)
    requires start.Length == end.Length
    ensures |pool| == Distance(start[..], end[..])
    ensures forall k :: 0 <= k < |pool| ==> fresh(pool[k]) && pool[k][..] == Range(start[..], end[..])[k]
    ensures forall i, j :: 0 <= i < j < |pool| ==> pool[i] != pool[j]
  {
    hide Value, Successor, Pow256, Distance, Advance;
    pool := [];
    var ip := start;
    ghost var from, to := start[..], end[..];
    ghost var entries: seq<Address> := [];
    AdvanceReaches(from, to, 0);
    while ip[..] != end[..]
      invariant ip.Length == end.Length && start[..] == from && end[..] == to
      invariant |pool| <= Distance(from, to)
      invariant ip[..] == Advance(from, |pool|)
      invariant ip[..] == to <==> |pool| == Distance(from, to)
      invariant Distance(ip[..], to) == Distance(from, to) - |pool|
      invariant ip == start || fresh(ip)
      invariant forall k :: 0 <= k < |pool| ==> fresh(pool[k]) && pool[k] != ip
      invariant |entries| == |pool| && entries == Range(from, to)[..|pool|]
      invariant forall k :: 0 <= k < |pool| ==> pool[k][..] == entries[k]
      invariant forall i, j :: 0 <= i < j < |pool| ==> pool[i] != pool[j]
      decreases Distance(ip[..], to)
    {
      assert |pool| < Distance(from, to);
      var copy := CopyOf(ip);
      entries, pool := entries + [copy[..]], pool + [copy];
      ip := NextIP(ip);
      AdvanceReaches(from, to, |pool|);
    }
  }
}
