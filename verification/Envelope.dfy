// How much address space a downloaded list may cover.
module Envelope {
  import opened Networks

  const MAX_ENTRIES: nat := 4096
  const MIN_IPV4_PREFIX: nat := 8
  const MIN_IPV6_PREFIX: nat := 16

  function Ipv4CoverageLimit(): nat { Pow2(28) }

  function Ipv6CoverageLimit(): nat { Pow2(124) }

  // ---- Counting addresses ------------------------------------------------------------------

  function Range(lo: int, hi: int): (r: set<int>)
    ensures forall x :: x in r <==> lo <= x < hi
    ensures lo <= hi ==> |r| == hi - lo
    decreases hi - lo
  {
    if lo < hi then Range(lo, hi - 1) + {hi - 1} else {}
  }

  // The addresses of a list, each once.
  ghost function Union(width: nat, s: seq<Cidr>): set<int>
    requires AllCanonical(width, s)
  {
    set x | 0 <= x < Pow2(width) && Covers(width, s, x)
  }

  function Total(width: nat, s: seq<Cidr>): nat
    requires AllCanonical(width, s)
  {
    if s == [] then 0 else Total(width, s[..|s| - 1]) + Size(width, s[|s| - 1].prefix)
  }

  lemma UnionSnoc(width: nat, s: seq<Cidr>, c: Cidr)
    requires AllCanonical(width, s) && Canonical(width, c)
    ensures AllCanonical(width, s + [c])
    ensures Union(width, s + [c]) == Union(width, s) + Range(c.network, c.network + Size(width, c.prefix))
  {
    hide Covers;
    CoversSnoc(width, s, c);
    BlockFits(width, c.network, c.prefix);
  }

  lemma NoUnion(width: nat)
    ensures Union(width, []) == {}
  {
  }

  lemma {:induction false} UnionAtMostTotal(width: nat, s: seq<Cidr>)
    requires AllCanonical(width, s)
    ensures |Union(width, s)| <= Total(width, s)
  {
    hide Union, Size, Range, Pow2, Covers;
    if s == [] {
      NoUnion(width);
    } else {
      var front, c := s[..|s| - 1], s[|s| - 1];
      UnionAtMostTotal(width, front);
      UnionSnoc(width, front, c);
      assert s == front + [c];
    }
  }

  // Blocks that do not meet are counted exactly.
  lemma {:induction false} TotalIsUnion(width: nat, s: seq<Cidr>)
    requires AllCanonical(width, s) && Ascending(width, s)
    ensures |Union(width, s)| == Total(width, s)
  {
    hide Covers, Pow2, Size, Range, Aligned;
    if s == [] {
      NoUnion(width);
    } else {
      var front, c := s[..|s| - 1], s[|s| - 1];
      TotalIsUnion(width, front);
      UnionSnoc(width, front, c);
      assert s == front + [c];
      var last := Range(c.network, c.network + Size(width, c.prefix));
      forall x | x in Union(width, front) ensures x !in last {
        var k := Coverer(width, front, x);
        assert s[k].network + Size(width, s[k].prefix) <= c.network;
      }
    }
  }

  lemma {:induction false} TotalBound(width: nat, s: seq<Cidr>, p: nat)
    requires AllCanonical(width, s) && p <= width && forall k :: 0 <= k < |s| ==> s[k].prefix >= p
    ensures Total(width, s) <= |s| * Pow2(width - p)
  {
    hide Pow2, Aligned;
    if s == [] {
    } else {
      var front, c := s[..|s| - 1], s[|s| - 1];
      TotalBound(width, front, p);
      Pow2Grows(width - c.prefix, width - p);
      OneMore(|front|, Pow2(width - p));
    }
  }

  lemma OneMore(n: nat, a: nat)
    ensures (n + 1) * a == n * a + a
  {
  }

  lemma {:induction false} Pow2Sum(m: nat, n: nat)
    ensures Pow2(m + n) == Pow2(m) * Pow2(n)
  {
    if m == 0 {
    } else {
      Pow2Sum(m - 1, n);
    }
  }

  lemma UnionInside(width: nat, s: seq<Cidr>)
    requires AllCanonical(width, s)
    ensures |Union(width, s)| <= Pow2(width)
  {
    hide Covers, Pow2;
    Smaller(Union(width, s), Range(0, Pow2(width)));
  }

  lemma {:induction false} Smaller(a: set<int>, b: set<int>)
    requires a <= b
    ensures |a| <= |b|
  {
    assert b == a + (b - a);
  }

  // 4096 blocks of at least /16 cover at most 2^124 addresses, whatever they are.
  lemma Ipv6CoverageImplied(s: seq<Cidr>)
    requires AllCanonical(128, s) && |s| <= MAX_ENTRIES && forall k :: 0 <= k < |s| ==> s[k].prefix >= MIN_IPV6_PREFIX
    ensures |Union(128, s)| <= Ipv6CoverageLimit()
  {
    hide Union;
    UnionAtMostTotal(128, s);
    TotalBound(128, s, MIN_IPV6_PREFIX);
    Pow2Sum(12, 112);
    assert Pow2(12) == 4096 by { assert Pow2(6) == 64; Pow2Sum(6, 6); }
    TimesGrows(|s|, 4096, Pow2(112));
  }

  // ---- The check ---------------------------------------------------------------------------

  // A shift by the whole word or more is not defined.
  function ShiftOne(word: nat, bits: nat): nat
    requires bits < word
  {
    Pow2(bits)
  }

  datatype Checked = Overflow | Exactly(value: nat)

  function CheckedAdd(word: nat, a: nat, b: nat): Checked { if a + b < Pow2(word) then Exactly(a + b) else Overflow }

  // The block sizes added up in one machine word. Neither a shift nor a sum overflows, as long as
  // the blocks cover less than the word can count.
  method Coverage(word: nat, width: nat, collapsed: seq<Cidr>) returns (sum: Checked)
    requires AllCanonical(width, collapsed) && Ascending(width, collapsed)
    requires width <= word && |Union(width, collapsed)| < Pow2(word)
    ensures sum == Exactly(|Union(width, collapsed)|)
  {
    hide Union, Covers, Pow2, Aligned;
    TotalIsUnion(width, collapsed);
    assert collapsed[..|collapsed|] == collapsed;
    sum := Exactly(0);
    for k := 0 to |collapsed|
      invariant sum == Exactly(Total(width, collapsed[..k]))
    {
      var next := collapsed[..k + 1];
      assert next[..k] == collapsed[..k];
      TotalPrefix(width, collapsed, k + 1);
      sum := CheckedAdd(word, sum.value, ShiftOne(word, width - collapsed[k].prefix));
    }
  }

  lemma {:induction false} TotalPrefix(width: nat, s: seq<Cidr>, k: nat)
    requires AllCanonical(width, s) && k <= |s|
    ensures Total(width, s[..k]) <= Total(width, s)
    decreases |s|
  {
    if k < |s| {
      TotalPrefix(width, s[..|s| - 1], k);
      assert s[..|s| - 1][..k] == s[..k];
    } else {
      assert s[..k] == s;
    }
  }

  function Ipv4Of(networks: seq<CanonicalCidr>): seq<Cidr> {
    if networks == [] then []
    else if networks[0].V4? then [networks[0].cidr] + Ipv4Of(networks[1..])
    else Ipv4Of(networks[1..])
  }

  function Ipv6Of(networks: seq<CanonicalCidr>): seq<Cidr> {
    if networks == [] then []
    else if networks[0].V6? then [networks[0].cidr] + Ipv6Of(networks[1..])
    else Ipv6Of(networks[1..])
  }

  lemma SplitFacts(networks: seq<CanonicalCidr>)
    requires AllValid(networks)
    ensures AllCanonical(32, Ipv4Of(networks)) && AllCanonical(128, Ipv6Of(networks))
    ensures |Ipv4Of(networks)| + |Ipv6Of(networks)| == |networks|
    ensures forall c :: c in Ipv4Of(networks) <==> V4(c) in networks
    ensures forall c :: c in Ipv6Of(networks) <==> V6(c) in networks
  {
    SplitCounts(networks);
    SplitElements(networks);
    forall i | 0 <= i < |Ipv4Of(networks)| ensures Canonical(32, Ipv4Of(networks)[i]) {
      assert Ipv4Of(networks)[i] in Ipv4Of(networks);
      ValidHere(networks, V4(Ipv4Of(networks)[i]));
    }
    forall i | 0 <= i < |Ipv6Of(networks)| ensures Canonical(128, Ipv6Of(networks)[i]) {
      assert Ipv6Of(networks)[i] in Ipv6Of(networks);
      ValidHere(networks, V6(Ipv6Of(networks)[i]));
    }
  }

  lemma ValidHere(networks: seq<CanonicalCidr>, n: CanonicalCidr)
    requires AllValid(networks) && n in networks
    ensures Valid(n)
  {
  }

  lemma {:induction false} SplitCounts(networks: seq<CanonicalCidr>)
    ensures |Ipv4Of(networks)| + |Ipv6Of(networks)| == |networks|
  {
    if networks == [] {
    } else {
      SplitCounts(networks[1..]);
    }
  }

  lemma {:induction false} SplitElements(networks: seq<CanonicalCidr>)
    ensures forall c :: c in Ipv4Of(networks) <==> V4(c) in networks
    ensures forall c :: c in Ipv6Of(networks) <==> V6(c) in networks
  {
    if networks == [] {
    } else {
      SplitElements(networks[1..]);
      assert networks == [networks[0]] + networks[1..];
    }
  }

  function MinimumPrefix(n: CanonicalCidr): nat { if n.V4? then MIN_IPV4_PREFIX else MIN_IPV6_PREFIX }

  predicate SmallEnough(networks: seq<CanonicalCidr>) {
    |networks| <= MAX_ENTRIES && forall k :: 0 <= k < |networks| ==>
      networks[k].cidr.prefix >= MinimumPrefix(networks[k])
  }

  // Accepted exactly when there are few enough entries, none is too wide, and the IPv4 addresses
  // they cover, each counted once, number at most 2^28.
  method WithinEnvelope(networks: seq<CanonicalCidr>) returns (ok: bool)
    requires AllValid(networks)
    ensures AllCanonical(32, Ipv4Of(networks))
    ensures ok <==> SmallEnough(networks) && |Union(32, Ipv4Of(networks))| <= Ipv4CoverageLimit()
    ensures ok <==>
            && |networks| <= 4096 && (forall c :: c in networks ==> c.cidr.prefix >= if c.V4? then 8 else 16)
            && |Union(32, Ipv4Of(networks))| <= Pow2(28)
  {
    hide Union, Covers, Pow2, Minimal;
    SplitFacts(networks);
    if !SmallEnough(networks) { return false; }
    var ipv4, ipv6 := Ipv4Of(networks), Ipv6Of(networks);
    var collapsed4 := Collapse(32, ipv4);
    UnionSame(32, collapsed4, ipv4);
    UnionInside(32, ipv4);
    Pow2Grows(32, 63);
    WordLimits();
    var coverage4 := Coverage(64, 32, collapsed4);
    var collapsed6 := Collapse(128, ipv6);
    UnionSame(128, collapsed6, ipv6);
    PrefixesKept(networks);
    Ipv6CoverageImplied(ipv6);
    var coverage6 := Coverage(128, 128, collapsed6);
    ok := coverage4.value <= Ipv4CoverageLimit() && coverage6.value <= Ipv6CoverageLimit();
  }

  lemma WordLimits()
    ensures Pow2(32) < Pow2(64) && Ipv6CoverageLimit() < Pow2(128)
  {
    Pow2Grows(32, 63);
    Pow2Grows(124, 127);
  }

  lemma UnionSame(width: nat, a: seq<Cidr>, b: seq<Cidr>)
    requires AllCanonical(width, a) && AllCanonical(width, b) && SameCover(width, a, b) && Minimal(width, a)
    ensures Union(width, a) == Union(width, b) && Ascending(width, a)
  {
    hide Covers;
  }

  lemma PrefixesKept(networks: seq<CanonicalCidr>)
    requires AllValid(networks) && SmallEnough(networks)
    ensures var s := Ipv6Of(networks); |s| <= MAX_ENTRIES && forall k :: 0 <= k < |s| ==> s[k].prefix >= MIN_IPV6_PREFIX
  {
    SplitFacts(networks);
    var s := Ipv6Of(networks);
    forall k | 0 <= k < |s| ensures s[k].prefix >= MIN_IPV6_PREFIX {
      assert s[k] in s && V6(s[k]) in networks;
      var i :| 0 <= i < |networks| && networks[i] == V6(s[k]);
      assert networks[i].cidr.prefix >= MinimumPrefix(networks[i]);
    }
  }
}
