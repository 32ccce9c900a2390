// Address blocks of one family: collapsing a list of blocks and cutting a safelist out of it.
// `width` is 32 or 128; every fact below holds for any width.
module Networks {
  datatype Cidr = Cidr(network: nat, prefix: nat)
  datatype Interval = Interval(start: nat, end: nat)

  // ---- Powers of two -----------------------------------------------------------------------

  function Pow2(n: nat): (r: nat)
    ensures r > 0
  {
    if n == 0 then 1 else 2 * Pow2(n - 1)
  }

  lemma {:induction false} Pow2Grows(m: nat, n: nat)
    requires m <= n
    ensures Pow2(m) <= Pow2(n)
  {
    if m < n { Pow2Grows(m, n - 1); }
  }

  // Multiples of a larger power are multiples of a smaller one.
  lemma {:induction false} MultipleOfSmaller(x: nat, m: nat, n: nat)
    requires m <= n && x % Pow2(n) == 0
    ensures x % Pow2(m) == 0
  {
    if m < n {
      var h := Pow2(n - 1);
      var q := x / Pow2(n);
      assert x == (2 * h) * q == h * (2 * q);
      MultipleHas(x, h, 2 * q);
      MultipleOfSmaller(x, m, n - 1);
    }
  }

  lemma MultipleHas(x: nat, a: nat, q: nat)
    requires a > 0 && x == a * q
    ensures x % a == 0
  {
    assert x / a == q by { assert x == q * a + 0; DivideExact(x, a, q); }
  }

  lemma TimesGrows(p: int, q: int, a: nat)
    requires p <= q
    ensures p * a <= q * a
  {
    assert (q - p) * a >= 0;
  }

  lemma RemainderBelow(x: nat, a: nat)
    requires a > 0
    ensures x % a <= x
  {
    TimesGrows(0, x / a, a);
    assert x == x / a * a + x % a;
  }

  lemma DivideExact(x: nat, a: nat, q: nat)
    requires a > 0 && x == q * a
    ensures x % a == 0 && x / a == q
  {
    var d := x / a;
    assert x == d * a + x % a;
    if d < q { TimesGrows(d + 1, q, a); }
    if q < d { TimesGrows(q + 1, d, a); }
  }

  // Different multiples are at least one step apart.
  lemma StepApart(x: nat, y: nat, a: nat)
    requires a > 0 && x % a == 0 && y % a == 0 && x < y
    ensures x + a <= y
  {
    var p, q := x / a, y / a;
    assert x == p * a && y == q * a;
    if q <= p { TimesGrows(q, p, a); }
    TimesGrows(p + 1, q, a);
  }

  // ---- Blocks ------------------------------------------------------------------------------

  function Size(width: nat, prefix: nat): (r: nat)
    requires prefix <= width
    ensures r > 0
  {
    Pow2(width - prefix)
  }

  predicate Aligned(width: nat, start: nat, prefix: nat)
    requires prefix <= width
  {
    start % Size(width, prefix) == 0
  }

  // An address block as the source keeps it: no host bits set.
  predicate Canonical(width: nat, c: Cidr) {
    c.prefix <= width && c.network < Pow2(width) && Aligned(width, c.network, c.prefix)
  }

  predicate AllCanonical(width: nat, s: seq<Cidr>) { forall i :: 0 <= i < |s| ==> Canonical(width, s[i]) }

  predicate Has(width: nat, c: Cidr, x: int)
    requires c.prefix <= width
  {
    c.network <= x < c.network + Size(width, c.prefix)
  }

  // An address some block of the list contains.
  ghost predicate Covers(width: nat, s: seq<Cidr>, x: int)
    requires AllCanonical(width, s)
  {
    exists i :: 0 <= i < |s| && Has(width, s[i], x)
  }

  // An aligned start leaves room for its whole block.
  lemma BlockFits(width: nat, start: nat, prefix: nat)
    requires prefix <= width && start < Pow2(width) && Aligned(width, start, prefix)
    ensures start + Size(width, prefix) <= Pow2(width)
  {
    var a := Size(width, prefix);
    DivideExact(0, a, 0);
    PowerMultiple(width - prefix, width);
    StepApart(start, Pow2(width), a);
  }

  lemma {:induction false} PowerMultiple(m: nat, n: nat)
    requires m <= n
    ensures Pow2(n) % Pow2(m) == 0
  {
    DivideExact(Pow2(n), Pow2(n), 1);
    MultipleOfSmaller(Pow2(n), m, n);
  }

  // Two blocks that meet are nested.
  lemma Nested(width: nat, c: Cidr, d: Cidr, x: int)
    requires Canonical(width, c) && Canonical(width, d) && d.prefix <= c.prefix
    requires Has(width, c, x) && Has(width, d, x)
    ensures d.network <= c.network && c.network + Size(width, c.prefix) <= d.network + Size(width, d.prefix)
  {
    var a, b := Size(width, c.prefix), Size(width, d.prefix);
    MultipleOfSmaller(d.network, width - c.prefix, width - d.prefix);
    PowerMultiple(width - c.prefix, width - d.prefix);
    if c.network < d.network { StepApart(c.network, d.network, a); }
    if d.network + b < c.network + a {
      SumMultiple(d.network, b, a);
      SumMultiple(c.network, a, a);
      StepApart(d.network + b, c.network + a, a);
    }
  }

  lemma SumMultiple(x: nat, y: nat, a: nat)
    requires a > 0 && x % a == 0 && y % a == 0
    ensures (x + y) % a == 0
  {
    var p, q := x / a, y / a;
    assert x + y == (p + q) * a;
    DivideExact(x + y, a, p + q);
  }

  // A block of either family; all IPv4 blocks sort before all IPv6 ones.
  datatype CanonicalCidr = V4(cidr: Cidr) | V6(cidr: Cidr)

  predicate Valid(n: CanonicalCidr) { Canonical(if n.V4? then 32 else 128, n.cidr) }

  predicate AllValid(s: seq<CanonicalCidr>) { forall k :: 0 <= k < |s| ==> Valid(s[k]) }

  // ---- Intervals ---------------------------------------------------------------------------

  // The end is computed with saturation, which aligned blocks never need.
  function SaturatingEnd(width: nat, start: nat, prefix: nat): nat
    requires prefix <= width
  {
    var end := start + Size(width, prefix) - 1;
    if end < Pow2(width) then end else Pow2(width) - 1
  }

  function ToInterval(width: nat, c: Cidr): Interval
    requires c.prefix <= width
  {
    Interval(c.network, SaturatingEnd(width, c.network, c.prefix))
  }

  function ToIntervals(width: nat, s: seq<Cidr>): seq<Interval>
    requires AllCanonical(width, s)
  {
    seq(|s|, i requires 0 <= i < |s| => ToInterval(width, s[i]))
  }

  predicate Holds(i: Interval, x: int) { i.start <= x <= i.end }

  ghost predicate In(x: int, s: seq<Interval>) { exists i :: 0 <= i < |s| && Holds(s[i], x) }

  predicate Within(width: nat, s: seq<Interval>) {
    forall i :: 0 <= i < |s| ==> s[i].start <= s[i].end < Pow2(width)
  }

  predicate ByStart(s: seq<Interval>) { forall i, j :: 0 <= i < j < |s| ==> s[i].start <= s[j].start }

  // Ascending, with at least one address missing between neighbours.
  predicate Separated(s: seq<Interval>) {
    && (forall i :: 0 <= i < |s| ==> s[i].start <= s[i].end)
    && (forall i, j :: 0 <= i < j < |s| ==> s[i].end + 1 < s[j].start)
  }

  ghost predicate SameAddresses(a: seq<Interval>, b: seq<Interval>) { forall x :: In(x, a) <==> In(x, b) }

  ghost predicate CoveredBy(width: nat, s: seq<Cidr>, t: seq<Interval>)
    requires AllCanonical(width, s)
  {
    forall x :: Covers(width, s, x) <==> In(x, t)
  }

  lemma IntervalsCover(width: nat, s: seq<Cidr>)
    requires AllCanonical(width, s)
    ensures Within(width, ToIntervals(width, s)) && CoveredBy(width, s, ToIntervals(width, s))
  {
    var t := ToIntervals(width, s);
    forall i | 0 <= i < |s| ensures t[i].end == s[i].network + Size(width, s[i].prefix) - 1 < Pow2(width) {
      BlockFits(width, s[i].network, s[i].prefix);
    }
    forall x ensures Covers(width, s, x) <==> In(x, t) {
      if Covers(width, s, x) {
        var i :| 0 <= i < |s| && Has(width, s[i], x);
        assert Holds(t[i], x);
      }
      if In(x, t) {
        var i :| 0 <= i < |t| && Holds(t[i], x);
        assert Has(width, s[i], x);
      }
    }
  }

  lemma InSnoc(s: seq<Interval>, i: Interval)
    ensures forall x :: In(x, s + [i]) <==> In(x, s) || Holds(i, x)
  {
    var t := s + [i];
    forall x ensures In(x, t) <==> In(x, s) || Holds(i, x) {
      if In(x, s) {
        var k :| 0 <= k < |s| && Holds(s[k], x);
        assert Holds(t[k], x);
      }
      if Holds(i, x) { assert Holds(t[|s|], x); }
    }
  }

  // Separated intervals are determined by the addresses in them.
  lemma {:induction false} SeparatedUnique(a: seq<Interval>, b: seq<Interval>)
    requires Separated(a) && Separated(b) && SameAddresses(a, b)
    ensures a == b
  {
    HeadIn(a);
    HeadIn(b);
    if a != [] && b != [] {
      HeadBelow(a, b);
      HeadBelow(b, a);
      TailIn(a);
      TailIn(b);
      SeparatedUnique(a[1..], b[1..]);
      assert a == [a[0]] + a[1..] && b == [b[0]] + b[1..];
    }
  }

  lemma HeadBelow(a: seq<Interval>, b: seq<Interval>)
    requires Separated(a) && Separated(b) && SameAddresses(a, b) && a != [] && b != []
    ensures b[0].start <= a[0].start
    ensures a[0].start == b[0].start ==> a[0].end <= b[0].end
  {
    HeadIn(a);
    var gap := b[0].end + 1;
    assert !In(gap, b);
    assert Holds(a[0], gap) ==> In(gap, a);
  }

  lemma HeadIn(a: seq<Interval>)
    requires Separated(a)
    ensures a != [] ==> In(a[0].start, a)
  {
    if a != [] { assert Holds(a[0], a[0].start); }
  }

  lemma TailIn(a: seq<Interval>)
    requires Separated(a) && a != []
    ensures forall x :: In(x, a[1..]) <==> In(x, a) && x > a[0].end
  {
    forall x ensures In(x, a[1..]) <==> In(x, a) && x > a[0].end {
      if In(x, a[1..]) {
        var i :| 0 <= i < |a[1..]| && Holds(a[1..][i], x);
        assert Holds(a[i + 1], x);
      }
      if In(x, a) && x > a[0].end {
        var i :| 0 <= i < |a| && Holds(a[i], x);
        assert Holds(a[1..][i - 1], x);
      }
    }
  }

  // ---- Merging -----------------------------------------------------------------------------

  function InsertByStart(i: Interval, s: seq<Interval>): seq<Interval> {
    if s == [] || i.start <= s[0].start then [i] + s else [s[0]] + InsertByStart(i, s[1..])
  }

  // Any sort by start would do: what is merged depends on the addresses only.
  function SortByStart(s: seq<Interval>): seq<Interval> {
    if s == [] then [] else InsertByStart(s[0], SortByStart(s[1..]))
  }

  lemma {:induction false} InsertKeeps(i: Interval, s: seq<Interval>)
    requires ByStart(s)
    ensures ByStart(InsertByStart(i, s)) && forall y :: y in InsertByStart(i, s) <==> y == i || y in s
  {
    if s != [] && i.start > s[0].start {
      InsertKeeps(i, s[1..]);
      var rest := InsertByStart(i, s[1..]);
      assert s == [s[0]] + s[1..];
      forall k | 0 <= k < |rest| ensures s[0].start <= rest[k].start { assert rest[k] in rest; }
    }
  }

  lemma {:induction false} SortKeeps(s: seq<Interval>)
    ensures ByStart(SortByStart(s)) && forall y :: y in SortByStart(s) <==> y in s
  {
    if s == [] {
    } else {
      SortKeeps(s[1..]);
      InsertKeeps(s[0], SortByStart(s[1..]));
      assert s == [s[0]] + s[1..];
    }
  }

  lemma SameElements(width: nat, a: seq<Interval>, b: seq<Interval>)
    requires (forall y :: y in a <==> y in b) && Within(width, b)
    ensures Within(width, a) && SameAddresses(a, b)
  {
    forall k | 0 <= k < |a| ensures a[k].start <= a[k].end < Pow2(width) { assert a[k] in a && a[k] in b; }
    forall x ensures In(x, a) <==> In(x, b) {
      if In(x, a) {
        var k :| 0 <= k < |a| && Holds(a[k], x);
        assert a[k] in b;
      }
      if In(x, b) {
        var k :| 0 <= k < |b| && Holds(b[k], x);
        assert b[k] in a;
      }
    }
  }

  function SaturatingNext(width: nat, end: nat): nat { if end + 1 < Pow2(width) then end + 1 else Pow2(width) - 1 }

  function Joined(a: Interval, b: Interval): Interval { a.(end := if a.end < b.end then b.end else a.end) }

  lemma OneSeparated(i: Interval)
    ensures i.start <= i.end ==> Separated([i])
    ensures Separated([])
  {
  }

  // The merged intervals, the one still growing last, hold the addresses seen so far.
  ghost predicate Merging(width: nat, merged: seq<Interval>, current: Interval, seen: seq<Interval>) {
    var s := merged + [current];
    Separated(s) && Within(width, s) && SameAddresses(s, seen)
  }

  // One step of merging keeps the addresses and the gaps, whether it joins or starts anew.
  lemma MergeStep(width: nat, merged: seq<Interval>, current: Interval, next: Interval, seen: seq<Interval>)
    requires Merging(width, merged, current, seen) && Within(width, [next]) && current.start <= next.start
    ensures if next.start <= SaturatingNext(width, current.end)
            then Merging(width, merged, Joined(current, next), seen + [next])
            else Merging(width, merged + [current], next, seen + [next])
  {
    hide In;
    var before := merged + [current];
    assert before[|merged|] == current && forall j :: 0 <= j < |merged| ==> before[j] == merged[j];
    assert [next][0] == next;
    InSnoc(merged, current);
    InSnoc(merged, Joined(current, next));
    InSnoc(seen, next);
    InSnoc(before, next);
  }

  lemma MergingStarts(width: nat, intervals: seq<Interval>)
    requires Within(width, intervals) && intervals != []
    ensures Merging(width, [], intervals[0], intervals[..1])
  {
    assert [] + [intervals[0]] == intervals[..1];
    OneSeparated(intervals[0]);
  }

  lemma MergingEnds(width: nat, merged: seq<Interval>, current: Interval, seen: seq<Interval>, all: seq<Interval>)
    requires Merging(width, merged, current, seen) && SameAddresses(seen, all)
    ensures Separated(merged + [current]) && Within(width, merged + [current]) && SameAddresses(merged + [current], all)
  {
    hide In, Separated;
  }

  // Joins overlapping and adjacent intervals.
  method MergeIntervals(width: nat, unsorted: seq<Interval>) returns (merged: seq<Interval>)
    requires Within(width, unsorted)
    ensures Separated(merged) && Within(width, merged) && SameAddresses(merged, unsorted)
  {
    hide In, Separated, SortByStart, SaturatingNext, Pow2, Merging;
    OneSeparated(Interval(0, 0));
    if unsorted == [] { return []; }
    var intervals := SortByStart(unsorted);
    SortKeeps(unsorted);
    SameElements(width, intervals, unsorted);
    assert unsorted[0] in intervals;
    var current := intervals[0];
    merged := [];
    MergingStarts(width, intervals);
    for k := 1 to |intervals|
      invariant Merging(width, merged, current, intervals[..k])
      invariant forall j :: k <= j < |intervals| ==> current.start <= intervals[j].start
    {
      var interval := intervals[k];
      assert intervals[..k + 1] == intervals[..k] + [interval];
      assert Within(width, [interval]);
      MergeStep(width, merged, current, interval, intervals[..k]);
      if interval.start <= SaturatingNext(width, current.end) {
        current := Joined(current, interval);
      } else {
        merged := merged + [current];
        current := interval;
      }
    }
    assert intervals[..|intervals|] == intervals;
    MergingEnds(width, merged, current, intervals, unsorted);
    merged := merged + [current];
  }

  // ---- Cutting into blocks -----------------------------------------------------------------

  // The largest aligned block that starts here and ends in time.
  method LargestPrefix(width: nat, start: nat, end: nat) returns (prefix: nat)
    requires start <= end < Pow2(width)
    ensures prefix <= width && Fits(width, start, end, prefix)
    ensures forall p :: 0 <= p < prefix ==> !Fits(width, start, end, p)
  {
    HostFits(width, start, end);
    prefix := width;
    while prefix > 0
      invariant prefix <= width && Fits(width, start, end, prefix)
    {
      var next := prefix - 1;
      Unsaturated(width, start, end, next);
      if !Aligned(width, start, next) || SaturatingEnd(width, start, next) > end {
        forall p | 0 <= p < prefix ensures !Fits(width, start, end, p) {
          if Fits(width, start, end, p) { FitsSmaller(width, start, end, p, next); }
        }
        return;
      }
      prefix := next;
    }
  }

  predicate Fits(width: nat, start: nat, end: nat, prefix: nat)
    requires prefix <= width
  {
    Aligned(width, start, prefix) && start + Size(width, prefix) <= end + 1
  }

  lemma HostFits(width: nat, start: nat, end: nat)
    requires start <= end
    ensures Fits(width, start, end, width)
  {
  }

  lemma Unsaturated(width: nat, start: nat, end: nat, prefix: nat)
    requires start <= end < Pow2(width) && prefix <= width
    ensures Fits(width, start, end, prefix) <==>
            Aligned(width, start, prefix) && SaturatingEnd(width, start, prefix) <= end
  {
    if Aligned(width, start, prefix) { BlockFits(width, start, prefix); }
  }

  lemma FitsSmaller(width: nat, start: nat, end: nat, p: nat, q: nat)
    requires p <= q <= width && Fits(width, start, end, p)
    ensures Fits(width, start, end, q)
  {
    MultipleOfSmaller(start, width - q, width - p);
    Pow2Grows(width - q, width - p);
  }

  predicate Ascending(width: nat, s: seq<Cidr>)
    requires AllCanonical(width, s)
  {
    forall i, j :: 0 <= i < j < |s| ==> s[i].network + Size(width, s[i].prefix) <= s[j].network
  }

  // No block could start where it does and be larger without leaving these addresses.
  ghost predicate Greedy(width: nat, s: seq<Cidr>, t: seq<Interval>)
    requires AllCanonical(width, s)
  {
    forall k :: 0 <= k < |s| ==> forall p :: 0 <= p < s[k].prefix && Aligned(width, s[k].network, p) ==>
      exists x :: s[k].network <= x < s[k].network + Size(width, p) && !In(x, t)
  }

  lemma CoversSnoc(width: nat, s: seq<Cidr>, c: Cidr)
    requires AllCanonical(width, s) && Canonical(width, c)
    ensures AllCanonical(width, s + [c])
    ensures forall x :: Covers(width, s + [c], x) <==> Covers(width, s, x) || Has(width, c, x)
  {
    var t := s + [c];
    forall x ensures Covers(width, t, x) <==> Covers(width, s, x) || Has(width, c, x) {
      if Covers(width, s, x) {
        var k :| 0 <= k < |s| && Has(width, s[k], x);
        assert Has(width, t[k], x);
      }
      if Has(width, c, x) { assert Has(width, t[|s|], x); }
    }
  }

  lemma CoversConcat(width: nat, s: seq<Cidr>, t: seq<Cidr>)
    requires AllCanonical(width, s) && AllCanonical(width, t)
    ensures AllCanonical(width, s + t)
    ensures forall x :: Covers(width, s + t, x) <==> Covers(width, s, x) || Covers(width, t, x)
  {
    var u := s + t;
    forall x ensures Covers(width, u, x) <==> Covers(width, s, x) || Covers(width, t, x) {
      if Covers(width, s, x) {
        var k :| 0 <= k < |s| && Has(width, s[k], x);
        assert Has(width, u[k], x);
      }
      if Covers(width, t, x) {
        var k :| 0 <= k < |t| && Has(width, t[k], x);
        assert Has(width, u[|s| + k], x);
      }
    }
  }

  // Every block lies in this range.
  predicate Between(width: nat, s: seq<Cidr>, lo: nat, hi: nat)
    requires AllCanonical(width, s)
  {
    forall i :: 0 <= i < |s| ==> lo <= s[i].network && s[i].network + Size(width, s[i].prefix) <= hi
  }

  lemma ConcatKeeps(width: nat, s: seq<Cidr>, t: seq<Cidr>, mid: nat, hi: nat, all: seq<Interval>)
    requires AllCanonical(width, s) && AllCanonical(width, t) && Ascending(width, s) && Ascending(width, t)
    requires Between(width, s, 0, mid) && Between(width, t, mid, hi) && mid <= hi
    requires Greedy(width, s, all) && Greedy(width, t, all)
    ensures AllCanonical(width, s + t) && Ascending(width, s + t) && Between(width, s + t, 0, hi)
            && Greedy(width, s + t, all)
  {
    hide In, Size, Aligned;
    CoversConcat(width, s, t);
  }

  function FromParts(width: nat, start: nat, prefix: nat): Cidr
    requires prefix <= width
  {
    RemainderBelow(start, Size(width, prefix));
    Cidr(start - start % Size(width, prefix), prefix)
  }

  // The blocks of one interval, cut greedily from its start.
  method IntervalBlocks(width: nat, interval: Interval, ghost all: seq<Interval>) returns (out: seq<Cidr>)
    requires interval.start <= interval.end < Pow2(width)
    requires !In(interval.end + 1, all)
    ensures AllCanonical(width, out) && Ascending(width, out) && Greedy(width, out, all)
    ensures Between(width, out, interval.start, interval.end + 1)
    ensures forall x :: Covers(width, out, x) <==> Holds(interval, x)
  {
    hide In, Pow2, Aligned, Greedy, Covers;
    out := [];
    var start := interval.start;
    ghost var reached := start;
    NoBlocks(width, start, all);
    while start <= interval.end
      invariant start == reached && interval.start <= start <= interval.end + 1
      invariant AllCanonical(width, out) && Ascending(width, out) && Greedy(width, out, all)
      invariant Between(width, out, interval.start, reached)
      invariant forall x :: Covers(width, out, x) <==> interval.start <= x < reached
      decreases interval.end + 1 - start
    {
      var prefix := LargestPrefix(width, start, interval.end);
      var block := FromParts(width, start, prefix);
      BlockIsCanonical(width, start, prefix, interval.end);
      CoversSnoc(width, out, block);
      GreedySnoc(width, out, block, all, interval.end);
      out := out + [block];
      reached := start + Size(width, prefix);
      if prefix == 0 { break; }
      var increment := Size(width, prefix);
      if start > Pow2(width) - 1 - increment { break; }
      start := start + increment;
    }
  }

  lemma NoBlocks(width: nat, start: nat, all: seq<Interval>)
    ensures Greedy(width, [], all) && forall x :: !Covers(width, [], x)
  {
  }

  lemma BlockIsCanonical(width: nat, start: nat, prefix: nat, end: nat)
    requires prefix <= width && start <= end < Pow2(width) && Fits(width, start, end, prefix)
    ensures FromParts(width, start, prefix) == Cidr(start, prefix) && Canonical(width, Cidr(start, prefix))
    ensures prefix == 0 ==> Size(width, prefix) == Pow2(width)
    ensures Size(width, prefix) <= Pow2(width)
  {
    Pow2Grows(width - prefix, width);
  }

  lemma GreedySnoc(width: nat, s: seq<Cidr>, c: Cidr, all: seq<Interval>, end: nat)
    requires AllCanonical(width, s + [c]) && AllCanonical(width, s) && Canonical(width, c) && Greedy(width, s, all)
    requires c.network <= end && !In(end + 1, all)
    requires forall p :: 0 <= p < c.prefix ==> !Fits(width, c.network, end, p)
    ensures Greedy(width, s + [c], all)
  {
    hide In, Size, Aligned;
    var t := s + [c];
    forall k, p | 0 <= k < |t| && 0 <= p < t[k].prefix && Aligned(width, t[k].network, p)
      ensures exists x :: t[k].network <= x < t[k].network + Size(width, p) && !In(x, all)
    {
      if k == |s| {
        assert !Fits(width, c.network, end, p);
        assert c.network <= end + 1 < c.network + Size(width, p);
      } else {
        assert t[k] == s[k];
      }
    }
  }

  lemma PastEnd(s: seq<Interval>, k: nat)
    requires Separated(s) && k < |s|
    ensures !In(s[k].end + 1, s)
  {
  }

  lemma InPrefix(s: seq<Interval>, k: nat)
    requires k < |s|
    ensures forall x :: In(x, s[..k + 1]) <==> In(x, s[..k]) || Holds(s[k], x)
  {
    InSnoc(s[..k], s[k]);
    assert s[..k + 1] == s[..k] + [s[k]];
  }

  method ToBlocks(width: nat, intervals: seq<Interval>) returns (out: seq<Cidr>)
    requires Separated(intervals) && Within(width, intervals)
    ensures AllCanonical(width, out) && Ascending(width, out) && Greedy(width, out, intervals)
    ensures CoveredBy(width, out, intervals)
  {
    hide In, Covers, Greedy, Pow2, Aligned, Size, Ascending;
    out := [];
    NoBlocks(width, 0, intervals);
    NothingIn();
    assert Ascending(width, out) by { NoneAscending(width); }
    ghost var bound: nat := 0;
    var k := 0;
    while k < |intervals|
      invariant 0 <= k <= |intervals|
      invariant AllCanonical(width, out) && Ascending(width, out) && Greedy(width, out, intervals)
      invariant Between(width, out, 0, bound) && (k < |intervals| ==> bound <= intervals[k].start)
      invariant CoveredBy(width, out, intervals[..k])
    {
      PastEnd(intervals, k);
      var blocks := IntervalBlocks(width, intervals[k], intervals);
      CoversConcat(width, out, blocks);
      InPrefix(intervals, k);
      WidenBetween(width, out, bound, intervals[k].start);
      ConcatKeeps(width, out, blocks, intervals[k].start, intervals[k].end + 1, intervals);
      out := out + blocks;
      bound := intervals[k].end + 1;
      k := k + 1;
    }
    assert intervals[..|intervals|] == intervals;
  }

  lemma NothingIn()
    ensures forall x :: !In(x, [])
  {
  }

  lemma NoneAscending(width: nat)
    ensures Ascending(width, [])
  {
  }

  lemma WidenBetween(width: nat, s: seq<Cidr>, lo: nat, hi: nat)
    requires AllCanonical(width, s) && Between(width, s, 0, lo) && lo <= hi
    ensures Between(width, s, 0, hi)
  {
  }

  // ---- Collapse ----------------------------------------------------------------------------

  // The same addresses in ascending blocks none of which could be larger.
  ghost predicate Minimal(width: nat, out: seq<Cidr>)
    requires AllCanonical(width, out)
  {
    && Ascending(width, out)
    && forall k :: 0 <= k < |out| ==> forall p :: 0 <= p < out[k].prefix && Aligned(width, out[k].network, p) ==>
         exists x :: out[k].network <= x < out[k].network + Size(width, p) && !Covers(width, out, x)
  }

  ghost predicate SameCover(width: nat, a: seq<Cidr>, b: seq<Cidr>)
    requires AllCanonical(width, a) && AllCanonical(width, b)
  {
    forall x :: Covers(width, a, x) <==> Covers(width, b, x)
  }

  lemma GreedyIsMinimal(width: nat, out: seq<Cidr>, t: seq<Interval>)
    requires AllCanonical(width, out) && Ascending(width, out) && Greedy(width, out, t) && CoveredBy(width, out, t)
    ensures Minimal(width, out)
  {
    hide Covers, In, Size, Aligned;
  }

  method Collapse(width: nat, cidrs: seq<Cidr>) returns (out: seq<Cidr>)
    requires AllCanonical(width, cidrs)
    ensures AllCanonical(width, out) && SameCover(width, out, cidrs) && Minimal(width, out)
  {
    hide Covers, In, Minimal, Greedy, Ascending, Within, Separated;
    IntervalsCover(width, cidrs);
    var merged := MergeIntervals(width, ToIntervals(width, cidrs));
    out := ToBlocks(width, merged);
    GreedyIsMinimal(width, out, merged);
  }

  lemma Coverer(width: nat, s: seq<Cidr>, x: int) returns (k: nat)
    requires AllCanonical(width, s) && Covers(width, s, x)
    ensures k < |s| && Has(width, s[k], x)
  {
    k :| 0 <= k < |s| && Has(width, s[k], x);
  }

  // A block with only covered addresses lies inside one block of the list.
  lemma InsideOne(width: nat, out: seq<Cidr>, d: Cidr, k: nat)
    requires AllCanonical(width, out) && Minimal(width, out) && Canonical(width, d) && k < |out|
    requires forall x :: Has(width, d, x) ==> Covers(width, out, x)
    requires Has(width, d, out[k].network)
    ensures d.prefix >= out[k].prefix
  {
    hide Covers, Pow2, Size, Aligned;
    var c := out[k];
    if d.prefix < c.prefix {
      Nested(width, c, d, c.network);
      assert Has(width, d, d.network);
      var b := Coverer(width, out, d.network);
      if out[b].prefix <= d.prefix {
        Nested(width, d, out[b], d.network);
      } else {
        Nested(width, out[b], d, d.network);
      }
    }
  }

  lemma BlockCovered(width: nat, a: seq<Cidr>, b: seq<Cidr>, k: nat)
    requires AllCanonical(width, a) && AllCanonical(width, b) && SameCover(width, a, b) && k < |a|
    ensures forall x :: Has(width, a[k], x) ==> Covers(width, b, x)
    ensures Has(width, a[k], a[k].network)
  {
    forall x | Has(width, a[k], x) ensures Covers(width, b, x) { assert Covers(width, a, x); }
  }

  // No list of blocks with the same addresses is shorter.
  lemma CollapseIsShortest(width: nat, out: seq<Cidr>, other: seq<Cidr>)
    requires AllCanonical(width, out) && Minimal(width, out) && AllCanonical(width, other)
             && SameCover(width, out, other)
    ensures |out| <= |other|
  {
    hide Minimal;
    var covering := Coverers(width, out, other, |out|);
    Pigeonhole(covering, |other|);
  }

  // For each block, some block of the other list that contains its first address; never twice the
  // same one.
  lemma {:induction false} Coverers(width: nat, out: seq<Cidr>, other: seq<Cidr>, n: nat) returns (f: seq<nat>)
    requires AllCanonical(width, out) && Minimal(width, out) && AllCanonical(width, other)
             && SameCover(width, out, other)
    requires n <= |out|
    ensures |f| == n
    ensures forall k :: 0 <= k < n ==> f[k] < |other| && Has(width, other[f[k]], out[k].network)
    ensures forall i, j :: 0 <= i < j < n ==> f[i] != f[j]
  {
    hide Covers, Has, Minimal, SameCover, Canonical;
    if n == 0 { return []; }
    var rest := Coverers(width, out, other, n - 1);
    BlockCovered(width, out, other, n - 1);
    var m := Coverer(width, other, out[n - 1].network);
    forall i | 0 <= i < n - 1 ensures rest[i] != m {
      if rest[i] == m { NotBoth(width, out, other[m], i, n - 1, other); }
    }
    f := rest + [m];
  }

  lemma NotBoth(width: nat, out: seq<Cidr>, d: Cidr, i: nat, j: nat, other: seq<Cidr>)
    requires AllCanonical(width, out) && Minimal(width, out) && AllCanonical(width, other)
             && SameCover(width, out, other)
    requires d in other && i < j < |out|
    ensures !(Has(width, d, out[i].network) && Has(width, d, out[j].network))
  {
    if Has(width, d, out[i].network) && Has(width, d, out[j].network) {
      forall x | Has(width, d, x) ensures Covers(width, out, x) { assert Covers(width, other, x); }
      InsideOne(width, out, d, i);
      assert Has(width, out[i], out[i].network);
      Nested(width, d, out[i], out[i].network);
    }
  }

  lemma {:induction false} Pigeonhole(f: seq<nat>, n: nat)
    requires forall k :: 0 <= k < |f| ==> f[k] < n
    requires forall i, j :: 0 <= i < j < |f| ==> f[i] != f[j]
    ensures |f| <= n
  {
    if f == [] {
    } else {
      assert n > 0 by { assert f[0] < n; }
      if n - 1 in f {
        var k :| 0 <= k < |f| && f[k] == n - 1;
        Pigeonhole(f[..k] + f[k + 1..], n - 1);
      } else {
        forall k | 0 <= k < |f| ensures f[k] < n - 1 { assert f[k] in f; }
        Pigeonhole(f, n - 1);
      }
    }
  }

  lemma NotLater(width: nat, a: seq<Cidr>, b: seq<Cidr>, k: nat)
    requires AllCanonical(width, a) && AllCanonical(width, b) && Ascending(width, a) && Ascending(width, b)
    requires SameCover(width, a, b) && k < |a| && k < |b| && forall j :: 0 <= j < k ==> a[j] == b[j]
    ensures b[k].network <= a[k].network
  {
    var x := a[k].network;
    forall j | 0 <= j < k ensures !Has(width, b[j], x) { assert a[j] == b[j]; }
    assert Has(width, a[k], x) && Covers(width, a, x) && Covers(width, b, x);
    var m :| 0 <= m < |b| && Has(width, b[m], x);
  }

  lemma {:induction false} SameUpTo(width: nat, a: seq<Cidr>, b: seq<Cidr>, n: nat)
    requires AllCanonical(width, a) && AllCanonical(width, b) && Minimal(width, a) && Minimal(width, b)
    requires SameCover(width, a, b) && n <= |a| && n <= |b|
    ensures forall k :: 0 <= k < n ==> a[k] == b[k]
  {
    hide Covers, Pow2, Size, Aligned, Has, Minimal, SameCover;
    if n == 0 {
    } else {
      SameUpTo(width, a, b, n - 1);
      CoverSymmetric(width, a, b);
      NotLater(width, a, b, n - 1);
      NotLater(width, b, a, n - 1);
      BlockCovered(width, a, b, n - 1);
      BlockCovered(width, b, a, n - 1);
      InsideOne(width, a, b[n - 1], n - 1);
      InsideOne(width, b, a[n - 1], n - 1);
    }
  }

  lemma CoverSymmetric(width: nat, a: seq<Cidr>, b: seq<Cidr>)
    requires AllCanonical(width, a) && AllCanonical(width, b) && SameCover(width, a, b)
    ensures SameCover(width, b, a)
    ensures Minimal(width, a) ==> Ascending(width, a)
    ensures Minimal(width, b) ==> Ascending(width, b)
  {
    hide Covers;
  }

  // What is collapsed depends on the addresses only.
  lemma CollapseUnique(width: nat, a: seq<Cidr>, b: seq<Cidr>)
    requires AllCanonical(width, a) && AllCanonical(width, b) && Minimal(width, a) && Minimal(width, b)
    requires SameCover(width, a, b)
    ensures a == b
  {
    CollapseIsShortest(width, a, b);
    CollapseIsShortest(width, b, a);
    SameUpTo(width, a, b, |a|);
  }

  // ---- Safelist subtraction ----------------------------------------------------------------

  predicate EndBefore(carve: seq<Interval>, k: nat, x: nat)
    requires k <= |carve|
  {
    forall j :: 0 <= j < k ==> carve[j].end < x
  }

  lemma GapIn(carve: seq<Interval>, k: nat, lo: nat, hi: int)
    requires Separated(carve) && k <= |carve| && EndBefore(carve, k, lo)
    requires k < |carve| ==> hi < carve[k].start
    ensures forall x :: lo <= x <= hi ==> !In(x, carve)
  {
  }

  // Pieces of `b` found so far: everything before `next` that is not carved away.
  ghost predicate CarvedUpTo(pieces: seq<Interval>, b: Interval, carve: seq<Interval>, next: nat) {
    && Separated(pieces)
    && (forall i :: 0 <= i < |pieces| ==>
      b.start <= pieces[i].start && pieces[i].end + 1 < next && pieces[i].end <= b.end)
    && (forall x :: In(x, pieces) <==> b.start <= x < next && x <= b.end && !In(x, carve))
  }

  lemma PushPiece(pieces: seq<Interval>, b: Interval, carve: seq<Interval>, k: nat, next: nat, carved: Interval)
    requires CarvedUpTo(pieces, b, carve, next) && b.start <= next <= b.end
    requires Separated(carve) && k < |carve| && carve[k] == carved && EndBefore(carve, k, next)
    requires next <= carved.end && carved.start <= b.end
    ensures var more := if carved.start > next then pieces + [Interval(next, carved.start - 1)] else pieces;
            CarvedUpTo(more, b, carve, carved.end + 1)
  {
    hide In;
    GapIn(carve, k, next, carved.start - 1);
    if carved.start > next { InSnoc(pieces, Interval(next, carved.start - 1)); }
    forall x | carved.start <= x <= carved.end ensures In(x, carve) { InAt(carve, k, x); }
  }

  lemma InAt(s: seq<Interval>, k: nat, x: int)
    requires k < |s| && Holds(s[k], x)
    ensures In(x, s)
  {
  }

  lemma PushLast(pieces: seq<Interval>, b: Interval, carve: seq<Interval>, k: nat, next: nat)
    requires CarvedUpTo(pieces, b, carve, next) && b.start <= next <= b.end
    requires Separated(carve) && k <= |carve| && EndBefore(carve, k, next) && (k < |carve| ==> b.end < carve[k].start)
    ensures CarvedUpTo(pieces + [Interval(next, b.end)], b, carve, b.end + 2)
  {
    hide In;
    GapIn(carve, k, next, b.end);
    InSnoc(pieces, Interval(next, b.end));
  }

  lemma NoPieces(b: Interval, carve: seq<Interval>)
    ensures CarvedUpTo([], b, carve, b.start)
  {
  }

  method CarveInterval(b: Interval, carve: seq<Interval>, from: nat) returns (pieces: seq<Interval>, idx: nat)
    requires b.start <= b.end && Separated(carve) && from <= |carve| && EndBefore(carve, from, b.start)
    ensures idx <= |carve| && EndBefore(carve, idx, b.end + 1)
    ensures CarvedUpTo(pieces, b, carve, b.end + 2)
  {
    hide In, Separated, CarvedUpTo, EndBefore;
    var nextStart := b.start;
    idx := from;
    pieces := [];
    NoPieces(b, carve);
    EndLater(carve, idx, nextStart, b.end + 1);
    while idx < |carve|
      invariant idx <= |carve| && b.start <= nextStart <= b.end
      invariant EndBefore(carve, idx, nextStart) && EndBefore(carve, idx, b.end + 1)
      invariant CarvedUpTo(pieces, b, carve, nextStart)
    {
      var carved := carve[idx];
      if carved.start > b.end { break; }
      if carved.end < nextStart {
        EndSnoc(carve, idx, nextStart);
        EndLater(carve, idx + 1, nextStart, b.end + 1);
        idx := idx + 1;
        continue;
      }
      PushPiece(pieces, b, carve, idx, nextStart, carved);
      if carved.start > nextStart { pieces := pieces + [Interval(nextStart, carved.start - 1)]; }
      if carved.end >= b.end {
        CarvedBeyond(pieces, b, carve, carved.end + 1);
        return;
      }
      EndLater(carve, idx, nextStart, carved.end + 1);
      nextStart := carved.end + 1;
      EndSnoc(carve, idx, nextStart);
      EndLater(carve, idx + 1, nextStart, b.end + 1);
      idx := idx + 1;
    }
    if nextStart <= b.end {
      PushLast(pieces, b, carve, idx, nextStart);
      pieces := pieces + [Interval(nextStart, b.end)];
    }
  }

  lemma EndLater(carve: seq<Interval>, k: nat, x: nat, y: nat)
    requires k <= |carve| && EndBefore(carve, k, x) && x <= y
    ensures EndBefore(carve, k, y)
  {
  }

  lemma EndSnoc(carve: seq<Interval>, k: nat, x: nat)
    requires k < |carve| && EndBefore(carve, k, x) && carve[k].end < x
    ensures EndBefore(carve, k + 1, x)
  {
  }

  // Nothing beyond the end of `b` matters.
  lemma CarvedBeyond(pieces: seq<Interval>, b: Interval, carve: seq<Interval>, next: nat)
    requires CarvedUpTo(pieces, b, carve, next) && next > b.end
    ensures CarvedUpTo(pieces, b, carve, b.end + 2)
  {
    hide In;
  }

  lemma InConcat(s: seq<Interval>, t: seq<Interval>)
    ensures forall x :: In(x, s + t) <==> In(x, s) || In(x, t)
  {
    forall x ensures In(x, s + t) <==> In(x, s) || In(x, t) {
      var u := s + t;
      if In(x, s) {
        var k :| 0 <= k < |s| && Holds(s[k], x);
        assert Holds(u[k], x);
      }
      if In(x, t) {
        var k :| 0 <= k < |t| && Holds(t[k], x);
        assert Holds(u[|s| + k], x);
      }
    }
  }

  ghost predicate Cut(result: seq<Interval>, base: seq<Interval>, carve: seq<Interval>) {
    forall x :: In(x, result) <==> In(x, base) && !In(x, carve)
  }

  predicate EndAll(s: seq<Interval>, x: nat) { forall i :: 0 <= i < |s| ==> s[i].end + 1 < x }

  lemma CutStep(result: seq<Interval>, base: seq<Interval>, k: nat, carve: seq<Interval>, pieces: seq<Interval>)
    requires Separated(base) && k < |base| && Separated(result) && EndAll(result, base[k].start)
    requires Cut(result, base[..k], carve) && CarvedUpTo(pieces, base[k], carve, base[k].end + 2)
    ensures Separated(result + pieces) && Cut(result + pieces, base[..k + 1], carve)
    ensures k + 1 < |base| ==> EndAll(result + pieces, base[k + 1].start)
  {
    hide In;
    InConcat(result, pieces);
    InPrefix(base, k);
  }

  method SubtractIntervals(base: seq<Interval>, carve: seq<Interval>) returns (result: seq<Interval>)
    requires Separated(base) && Separated(carve)
    ensures Separated(result) && Cut(result, base, carve)
  {
    hide In, Separated, CarvedUpTo, EndBefore, Cut, EndAll;
    NothingCut(base, carve);
    if base == [] { return []; }
    if carve == [] { return base; }
    result := [];
    var carveIdx: nat := 0;
    var k := 0;
    while k < |base|
      invariant 0 <= k <= |base| && carveIdx <= |carve|
      invariant Separated(result) && Cut(result, base[..k], carve)
      invariant k < |base| ==> EndAll(result, base[k].start) && EndBefore(carve, carveIdx, base[k].start)
    {
      var b := base[k];
      while carveIdx < |carve| && carve[carveIdx].end < b.start
        invariant carveIdx <= |carve| && EndBefore(carve, carveIdx, b.start)
      {
        EndSnoc(carve, carveIdx, b.start);
        carveIdx := carveIdx + 1;
      }
      StartsBeforeEnd(base, k);
      var pieces, idx := CarveInterval(b, carve, carveIdx);
      CutStep(result, base, k, carve, pieces);
      result := result + pieces;
      if k + 1 < |base| { EndLater(carve, idx, b.end + 1, base[k + 1].start); }
      carveIdx := idx;
      k := k + 1;
    }
    assert base[..|base|] == base;
  }

  lemma NothingCut(base: seq<Interval>, carve: seq<Interval>)
    ensures Separated([]) && Cut([], base[..0], carve)
    ensures base == [] ==> Cut([], base, carve)
    ensures carve == [] ==> Cut(base, base, carve)
    ensures base != [] ==> EndAll([], base[0].start) && EndBefore(carve, 0, base[0].start)
  {
  }

  lemma StartsBeforeEnd(base: seq<Interval>, k: nat)
    requires Separated(base) && k < |base|
    ensures base[k].start <= base[k].end
    ensures k + 1 < |base| ==> base[k].end + 1 < base[k + 1].start
  {
  }

  // Exactly the candidate addresses that are not on the safelist, in as few blocks as possible.
  method SubtractSafelist(width: nat, candidates: seq<Cidr>, safelist: seq<Cidr>) returns (out: seq<Cidr>)
    requires AllCanonical(width, candidates) && AllCanonical(width, safelist)
    ensures AllCanonical(width, out) && Minimal(width, out)
    ensures forall x :: Covers(width, out, x) <==> Covers(width, candidates, x) && !Covers(width, safelist, x)
  {
    hide Covers, In, Minimal, Greedy, Ascending, Within, Separated;
    IntervalsCover(width, candidates);
    IntervalsCover(width, safelist);
    var base := MergeIntervals(width, ToIntervals(width, candidates));
    var carve := MergeIntervals(width, ToIntervals(width, safelist));
    var carved := SubtractIntervals(base, carve);
    CutWithin(width, carved, base, carve);
    out := ToBlocks(width, carved);
    GreedyIsMinimal(width, out, carved);
  }

  lemma CutWithin(width: nat, result: seq<Interval>, base: seq<Interval>, carve: seq<Interval>)
    requires Separated(result) && Within(width, base) && Cut(result, base, carve)
    ensures Within(width, result)
  {
    forall i | 0 <= i < |result| ensures result[i].start <= result[i].end < Pow2(width) {
      assert Holds(result[i], result[i].end) && In(result[i].end, result);
      var j :| 0 <= j < |base| && Holds(base[j], result[i].end);
    }
  }
}
