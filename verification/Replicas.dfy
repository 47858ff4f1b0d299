// Redis2P's index arithmetic: groups, residue classes and rotations.
module Replicas {
  import opened Wire

  /** inner_init: the number of groups, or None when the client refuses to start. */
  function InnerInit(hosts: nat, partitions: int): (groups: Option<nat>)
  {
    var p := if partitions < 0 then partitions % TWO_64 else partitions;
    if p == 0 then None
    else
      var g := hosts / p;
      if g == 0 || hosts % g != 0 then None else Some(g)
  }

  // ---------- multiplication and division ----------

  lemma Distribute(n: int, a: int, d: int)
    ensures n * (a + d) == n * a + n * d
  {
  }

  lemma {:induction false} ProductAtLeast(n: nat, d: nat)
    ensures n * d >= 0
    ensures d >= 1 ==> n * d >= n
  {
    if d > 0 {
      ProductAtLeast(n, d - 1);
      Distribute(n, d - 1, 1);
    }
  }

  lemma MulMonotone(n: nat, a: int, b: int)
    requires a <= b
    ensures n * a <= n * b
    ensures a < b ==> n * a + n <= n * b
  {
    Distribute(n, a, b - a);
    ProductAtLeast(n, b - a);
  }

  lemma QuotientUnique(n: nat, q: int, r: int, q': int, r': int)
    requires 0 <= r < n && 0 <= r' < n && n * q + r == n * q' + r'
    ensures q == q' && r == r'
  {
    if q < q' {
      MulMonotone(n, q, q');
    } else {
      MulMonotone(n, q', q);
    }
  }

  lemma DivModUnique(x: int, n: nat, q: int, r: int)
    requires x == n * q + r && 0 <= r < n
    ensures x / n == q && x % n == r
  {
    QuotientUnique(n, x / n, x % n, q, r);
  }

  lemma LargeDivisor(x: nat, n: nat)
    requires n > 0 && x / n >= 1
    ensures n <= x
  {
    MulMonotone(n, 1, x / n);
  }

  // ---------- accepted configurations ----------

  lemma Accepted(hosts: nat, p: nat, g: nat)
    requires p >= 1 && g == hosts / p && g >= 1 && hosts % g == 0
    ensures p <= hosts && g * (hosts / g) == hosts && hosts / g >= p
    ensures hosts / g == p <==> hosts % p == 0
  {
    LargeDivisor(hosts, p);
    var n, rest := hosts / g, hosts % p;
    assert g * n == p * g + rest;
    assert p * g == g * p;
    if n < p {
      MulMonotone(g, n, p);
    } else {
      MulMonotone(g, p, n);
    }
  }

  /**
   * A configuration is accepted exactly when there are as many hosts as partitions and the groups
   * come out even; then it has equal groups, each with at least the partitions asked for.
   */
  lemma AcceptedShape(hosts: nat, partitions: int)
    requires hosts < TWO_64 - 0x8000_0000 && partitions >= -0x8000_0000
    ensures InnerInit(hosts, partitions).Some? <==>
            1 <= partitions <= hosts && hosts / partitions > 0 && hosts % (hosts / partitions) == 0
    ensures InnerInit(hosts, partitions).Some? ==>
      InnerInit(hosts, partitions).value == hosts / partitions
    ensures InnerInit(hosts, partitions).Some? ==>
      var g := InnerInit(hosts, partitions).value;
      && 1 <= partitions <= hosts
      && g >= 1 && g * (hosts / g) == hosts && hosts / g >= partitions
      && (hosts / g == partitions <==> hosts % partitions == 0)
  {
    var r := InnerInit(hosts, partitions);
    if partitions < 0 {
      if r.Some? {
        LargeDivisor(hosts, partitions % TWO_64);
      }
    } else if r.Some? {
      Accepted(hosts, partitions, r.value);
    }
  }

  // ---------- classes and rotations ----------

  /** The i-th host of a key's list: its host index in the group that comes i-th from the seed. */
  function IndexAt(h: nat, n: nat, g: nat, seed: nat, i: nat): nat
    requires g > 0
  {
    h + n * ((seed + i) % g)
  }

  lemma IndexInClass(h: nat, n: nat, g: nat, seed: nat, i: nat)
    requires h < n && g > 0
    ensures IndexAt(h, n, g, seed, i) < n * g
    ensures IndexAt(h, n, g, seed, i) % n == h
    ensures IndexAt(h, n, g, seed, i) / n == (seed + i) % g
  {
    var q := (seed + i) % g;
    MulMonotone(n, q, g);
    DivModUnique(h + n * q, n, q, h);
  }

  lemma RotationInjective(g: nat, seed: nat, i: nat, j: nat)
    requires i < j < g
    ensures (seed + i) % g != (seed + j) % g
  {
    var a, b := (seed + i) / g, (seed + j) / g;
    if a < b {
      MulMonotone(g, a, b);
    } else {
      MulMonotone(g, b, a);
    }
  }

  /** Where in the rotation a group comes. */
  function TurnOf(g: nat, seed: nat, q: nat): (i: nat)
    requires q < g
    ensures i < g
  {
    (q - seed) % g
  }

  lemma RotationCovers(g: nat, seed: nat, q: nat)
    requires q < g
    ensures (seed + TurnOf(g, seed, q)) % g == q
  {
    var d := (q - seed) / g;
    assert g * (-d) == -(g * d);
    DivModUnique(seed + TurnOf(g, seed, q), g, -d, q);
  }

  lemma TurnOfRotation(g: nat, seed: nat, i: nat)
    requires i < g
    ensures (seed + i) % g < g && TurnOf(g, seed, (seed + i) % g) == i
  {
    var j := TurnOf(g, seed, (seed + i) % g);
    RotationCovers(g, seed, (seed + i) % g);
    if i < j {
      RotationInjective(g, seed, i, j);
    } else if j < i {
      RotationInjective(g, seed, j, i);
    }
  }

  /** The list of a key is a rotation, without duplicates, of exactly the hosts of its residue class. */
  lemma KeyListIsItsClass(h: nat, n: nat, g: nat, seed: nat)
    requires h < n && g > 0
    ensures forall i: nat, j: nat | i < j < g :: IndexAt(h, n, g, seed, i) != IndexAt(h, n, g, seed, j)
    ensures forall x: nat | x < n * g ::
              x % n == h <==> exists i: nat :: i < g && x == IndexAt(h, n, g, seed, i)
  {
    forall i: nat, j: nat | i < j < g
      ensures IndexAt(h, n, g, seed, i) != IndexAt(h, n, g, seed, j)
    {
      RotationInjective(g, seed, i, j);
      IndexInClass(h, n, g, seed, i);
      IndexInClass(h, n, g, seed, j);
    }
    forall x: nat | x < n * g
      ensures x % n == h <==> exists i: nat :: i < g && x == IndexAt(h, n, g, seed, i)
    {
      if x % n == h {
        HostInList(h, n, g, seed, x);
      }
      forall i: nat | i < g && x == IndexAt(h, n, g, seed, i)
        ensures x % n == h
      {
        IndexInClass(h, n, g, seed, i);
      }
    }
  }

  lemma HostInList(h: nat, n: nat, g: nat, seed: nat, x: nat)
    requires h < n && g > 0 && x < n * g && x % n == h
    ensures x / n < g && x == IndexAt(h, n, g, seed, TurnOf(g, seed, x / n))
  {
    if g <= x / n {
      MulMonotone(n, g, x / n);
    }
    RotationCovers(g, seed, x / n);
  }

  /** The block of a group meets each class exactly once: its i-th host is in class i. */
  lemma GroupBlock(n: nat, g: nat, b: nat, i: nat)
    requires n > 0 && b < g && i < n
    ensures b * n + i < n * g && (b * n + i) % n == i && (b * n + i) / n == b
  {
    MulMonotone(n, b, g);
    assert b * n == n * b;
    DivModUnique(b * n + i, n, b, i);
  }
}
