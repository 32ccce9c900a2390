// Replacing the contents of a kernel set in one step: a temporary set is filled by a restore
// script and swapped with the managed one.
module Ipset {
  import opened Options
  import opened Ordering
  import opened Framing

  // ---- Temporary names ---------------------------------------------------------------------

  const NAME_MAX_LEN: nat := 31
  const SUFFIX_LEN: nat := 8
  const HYPHEN: Byte := 45

  predicate IsCharBoundary(input: Bytes, idx: nat)
    requires idx <= |input|
  {
    idx == |input| || !(0x80 <= input[idx] < 0xC0)
  }

  // Cuts at the last character boundary within the limit.
  method TruncateToMaxBytes(input: Bytes, maxBytes: nat) returns (r: Bytes)
    ensures r == Truncated(input, maxBytes)
  {
    if |input| <= maxBytes { return input; }
    var idx: nat := maxBytes;
    while idx > 0 && !IsCharBoundary(input, idx)
      invariant idx <= maxBytes && LastBoundary(input, maxBytes) == LastBoundary(input, idx)
    {
      idx := idx - 1;
    }
    return input[..idx];
  }

  function LastBoundary(input: Bytes, max: nat): (r: nat)
    requires max <= |input|
    ensures r <= max && (r == 0 || IsCharBoundary(input, r))
    ensures forall i :: r < i <= max ==> !IsCharBoundary(input, i)
  {
    if max == 0 || IsCharBoundary(input, max) then max else LastBoundary(input, max - 1)
  }

  function Truncated(input: Bytes, max: nat): (r: Bytes)
    ensures |r| <= max && r <= input
  {
    if |input| <= max then input else input[..LastBoundary(input, max)]
  }

  // "kidobo", the base when the name gives none.
  function DefaultBase(): Bytes { [107, 105, 100, 111, 98, 111] }

  function TempName(base: Bytes, suffix: Bytes): Bytes {
    var max := if NAME_MAX_LEN < |suffix| + 1 then 0 else NAME_MAX_LEN - (|suffix| + 1);
    var cut := Truncated(base, max);
    (if cut == [] then DefaultBase() else cut) + [HYPHEN] + suffix
  }

  predicate IsSuffix(suffix: Bytes) {
    |suffix| == SUFFIX_LEN && forall i :: 0 <= i < |suffix| ==> suffix[i] < 0x80
  }

  // The temporary name fits, and is the managed name exactly when that is 31 bytes long and ends
  // with a hyphen and the very suffix drawn.
  lemma TempNameFacts(name: Bytes, suffix: Bytes)
    requires IsSuffix(suffix)
    ensures |TempName(name, suffix)| <= 31
    ensures name != [] && |name| <= 22 ==> TempName(name, suffix) == name + [45] + suffix
    ensures TempName([], suffix) == [107, 105, 100, 111, 98, 111, 45] + suffix
    ensures TempName(name, suffix) == name <==> |name| == NAME_MAX_LEN && name[22..] == [HYPHEN] + suffix
  {
    var cut, temp, tail := Truncated(name, 22), TempName(name, suffix), [HYPHEN] + suffix;
    if temp == name && cut != [] {
      assert name == cut + tail && name[|cut|..] == tail;
      assert name[|cut| + 1] == name[|cut|..][1] == suffix[0];
      assert IsCharBoundary(name, |cut| + 1);
    }
    if |name| == NAME_MAX_LEN && name[22..] == tail {
      assert name[22] == tail[0] == HYPHEN;
      assert IsCharBoundary(name, 22);
      assert name == name[..22] + name[22..];
    }
  }

  // A name that is its own temporary name.
  lemma SomeNameIsItsOwn()
    ensures var suffix: Bytes := [48, 48, 48, 48, 48, 48, 48, 48];
            var name: Bytes := [97, 97, 97, 97, 97, 97, 97, 97, 97, 97, 97, 97, 97, 97, 97, 97, 97, 97, 97, 97, 97, 97]
              + [HYPHEN] + suffix;
            IsSuffix(suffix) && TempName(name, suffix) == name
  {
    var suffix: Bytes := [48, 48, 48, 48, 48, 48, 48, 48];
    var name: Bytes := [97, 97, 97, 97, 97, 97, 97, 97, 97, 97, 97, 97, 97, 97, 97, 97, 97, 97, 97, 97, 97, 97]
      + [HYPHEN] + suffix;
    assert |name| == 31 && name[22..] == [HYPHEN] + suffix;
    TempNameFacts(name, suffix);
  }

  // ---- Sorted entries ----------------------------------------------------------------------

  // Equal neighbours allowed.
  predicate Ascending<T(==)>(s: seq<T>, less: (T, T) -> bool) {
    forall i, j :: 0 <= i < j < |s| ==> less(s[i], s[j]) || s[i] == s[j]
  }

  function InsertAny<T>(x: T, s: seq<T>, less: (T, T) -> bool): seq<T> {
    if s == [] || !less(s[0], x) then [x] + s else [s[0]] + InsertAny(x, s[1..], less)
  }

  // A sort that keeps equal entries, as the library's does.
  function SortAll<T>(s: seq<T>, less: (T, T) -> bool): seq<T> {
    if s == [] then [] else InsertAny(s[0], SortAll(s[1..], less), less)
  }

  lemma {:induction false} InsertAnyFacts<T(!new)>(x: T, s: seq<T>, less: (T, T) -> bool)
    requires StrictTotal(less) && Ascending(s, less)
    ensures Ascending(InsertAny(x, s, less), less) && forall y :: y in InsertAny(x, s, less) <==> y == x || y in s
  {
    if s != [] && less(s[0], x) {
      InsertAnyFacts(x, s[1..], less);
      var rest := InsertAny(x, s[1..], less);
      assert s == [s[0]] + s[1..];
      forall j | 0 <= j < |rest| ensures less(s[0], rest[j]) || s[0] == rest[j] { assert rest[j] in rest; }
    } else if s != [] {
      forall j | 0 <= j < |s| ensures less(x, s[j]) || x == s[j] {
        if j > 0 { assert less(s[0], s[j]) || s[0] == s[j]; }
      }
    }
  }

  lemma {:induction false} SortAllFacts<T(!new)>(s: seq<T>, less: (T, T) -> bool)
    requires StrictTotal(less)
    ensures Ascending(SortAll(s, less), less) && forall y :: y in SortAll(s, less) <==> y in s
  {
    if s == [] {
    } else {
      SortAllFacts(s[1..], less);
      InsertAnyFacts(s[0], SortAll(s[1..], less), less);
      assert s == [s[0]] + s[1..];
    }
  }

  // Drops entries equal to their predecessor.
  method Dedup<T(==, !new)>(s: seq<T>, ghost less: (T, T) -> bool) returns (r: seq<T>)
    requires StrictTotal(less) && Ascending(s, less)
    ensures Sorted(r, less) && forall y :: y in r <==> y in s
  {
    r := [];
    for k := 0 to |s|
      invariant Sorted(r, less) && (forall y :: y in r <==> y in s[..k])
      invariant k == 0 ==> r == []
      invariant k > 0 ==> r != [] && r[|r| - 1] == s[k - 1]
    {
      assert s[..k + 1] == s[..k] + [s[k]];
      if k == 0 || s[k] != s[k - 1] {
        assert k > 0 ==> less(s[k - 1], s[k]);
        forall i | 0 <= i < |r| ensures less(r[i], s[k]) { assert i < |r| - 1 ==> less(r[i], r[|r| - 1]); }
        r := r + [s[k]];
      }
    }
    assert s[..|s|] == s;
  }

  predicate IsSortedAndUnique<T>(s: seq<T>, less: (T, T) -> bool) { forall i :: 0 < i < |s| ==> less(s[i - 1], s[i]) }

  lemma {:induction false} NeighboursSort<T(!new)>(s: seq<T>, less: (T, T) -> bool)
    requires StrictTotal(less) && IsSortedAndUnique(s, less)
    ensures Sorted(s, less)
  {
    if s == [] {
    } else {
      var front, last := s[..|s| - 1], |s| - 1;
      NeighboursSort(front, less);
      forall i | 0 <= i < last ensures less(s[i], s[last]) {
        assert less(s[last - 1], s[last]);
        if i < last - 1 { assert less(front[i], front[last - 1]); }
      }
      forall i, j | 0 <= i < j < |s| ensures less(s[i], s[j]) { if j < last { assert less(front[i], front[j]); } }
    }
  }

  // The quick path for sorted input and the sorting path give the same list.
  method SortedUniqueEntries<T(==, !new)>(entries: seq<T>, less: (T, T) -> bool) returns (r: seq<T>)
    requires StrictTotal(less)
    ensures r == SortUnique(entries, less)
  {
    SortUniqueFacts(entries, less);
    if IsSortedAndUnique(entries, less) {
      NeighboursSort(entries, less);
      SortedIsSortUnique(entries, less);
      return entries;
    }
    SortAllFacts(entries, less);
    r := Dedup(SortAll(entries, less), less);
    SortedUnique(r, SortUnique(entries, less), less);
  }

  // ---- Kernel sets -------------------------------------------------------------------------

  datatype Family = Inet | Inet6
  datatype Spec = Spec(name: Bytes, kind: string, family: Family, hashsize: nat, maxelem: nat, timeout: nat)
  datatype KernelSet<E> = KernelSet(kind: string, family: Family, maxelem: nat, timeout: nat, elements: set<E>)

  // Sets by name, and the names packet rules refer to.
  datatype Kernel<E> = Kernel(sets: map<Bytes, KernelSet<E>>, inUse: set<Bytes>)

  datatype Command<E> =
    | Create(name: Bytes, spec: Spec)
    | Add(name: Bytes, entry: E)
    | Swap(from: Bytes, to: Bytes)
    | Destroy(name: Bytes)

  function Apply<E(==)>(k: Kernel<E>, c: Command<E>): (Kernel<E>, bool) {
    var s := k.sets;
    match c
    case Create(name, spec) =>
      if name in s then (k, false)
      else (k.(sets := s[name := KernelSet(spec.kind, spec.family, spec.maxelem, spec.timeout, {})]), true)
    case Add(name, entry) =>
      if name !in s || entry in s[name].elements || |s[name].elements| >= s[name].maxelem then (k, false)
      else (k.(sets := s[name := s[name].(elements := s[name].elements + {entry})]), true)
    case Swap(from, to) =>
      if from !in s || to !in s || s[from].kind != s[to].kind || s[from].family != s[to].family then (k, false)
      else (k.(sets := s[from := s[to]][to := s[from]]), true)
    case Destroy(name) =>
      if name !in s || name in k.inUse then (k, false) else (k.(sets := s - {name}), true)
  }

  // The state after these commands, and whether all of them worked.
  function After<E(==)>(k: Kernel<E>, commands: seq<Command<E>>): Kernel<E> {
    if commands == [] then k else Apply(After(k, commands[..|commands| - 1]), commands[|commands| - 1]).0
  }

  predicate AllWork<E(==)>(k: Kernel<E>, commands: seq<Command<E>>) {
    commands == []
    || (AllWork(k, commands[..|commands| - 1])
      && Apply(After(k, commands[..|commands| - 1]), commands[|commands| - 1]).1)
  }

  function Adds<E>(name: Bytes, entries: seq<E>): seq<Command<E>> {
    seq(|entries|, i requires 0 <= i < |entries| => Add(name, entries[i]))
  }

  function Script<E>(spec: Spec, temp: Bytes, entries: seq<E>): seq<Command<E>> {
    [Create(temp, spec)] + Adds(temp, entries) + [Swap(temp, spec.name)]
  }

  method WriteRestoreScript<E(==, !new)>(spec: Spec, temp: Bytes, entries: seq<E>, less: (E, E) -> bool)
    returns (script: seq<Command<E>>)
    requires StrictTotal(less)
    ensures script == Script(spec, temp, SortUnique(entries, less))
  {
    script := [Create(temp, spec)];
    var list := SortedUniqueEntries(entries, less);
    for k := 0 to |list|
      invariant script == [Create(temp, spec)] + Adds(temp, list[..k])
    {
      assert Adds(temp, list[..k + 1]) == Adds(temp, list[..k]) + [Add(temp, list[k])];
      script := script + [Add(temp, list[k])];
    }
    assert list[..|list|] == list;
    script := script + [Swap(temp, spec.name)];
  }

  // What the managed set holds once replaced.
  function Filled<E>(spec: Spec, entries: set<E>): KernelSet<E> {
    KernelSet(spec.kind, spec.family, spec.maxelem, spec.timeout, entries)
  }

  function Elements<E(==)>(s: seq<E>): set<E> { set x | x in s }

  function Lookup<E>(k: Kernel<E>, name: Bytes): Option<KernelSet<E>> {
    if name in k.sets then Some(k.sets[name]) else None
  }

  ghost predicate Distinct<E>(s: seq<E>) { forall i, j :: 0 <= i < j < |s| ==> s[i] != s[j] }

  lemma {:induction false} DistinctSize<E>(s: seq<E>)
    requires Distinct(s)
    ensures |Elements(s)| == |s|
  {
    if s == [] {
    } else {
      DistinctSize(s[..|s| - 1]);
      assert s == s[..|s| - 1] + [s[|s| - 1]];
      assert Elements(s) == Elements(s[..|s| - 1]) + {s[|s| - 1]};
    }
  }

  lemma ElementsSnoc<E>(s: seq<E>, x: E)
    ensures Elements(s + [x]) == Elements(s) + {x}
  {
  }

  lemma ElementsAre<E>(s: seq<E>, x: E)
    ensures x in Elements(s) <==> x in s
  {
  }

  lemma AddStep<E>(k: Kernel<E>, spec: Spec, temp: Bytes, elements: set<E>, entry: E)
    requires entry !in elements
    ensures var (now, ok) := Apply(k.(sets := k.sets[temp := Filled(spec, elements)]), Add(temp, entry));
            && (ok <==> |elements| < spec.maxelem)
            && (ok ==> now == k.(sets := k.sets[temp := Filled(spec, elements + {entry})]))
  {
  }

  // Filling touches the temporary set only, and works as far as there is room.
  lemma {:induction false} Filling<E>(k: Kernel<E>, spec: Spec, temp: Bytes, list: seq<E>)
    requires Distinct(list)
    ensures var commands := [Create(temp, spec)] + Adds(temp, list);
            && (AllWork(k, commands) <==> temp !in k.sets && |list| <= spec.maxelem)
            && (AllWork(k, commands) ==>
                  After(k, commands) == k.(sets := k.sets[temp := Filled(spec, Elements(list))]))
  {
    var commands := [Create(temp, spec)] + Adds(temp, list);
    if list == [] {
      assert commands == [Create(temp, spec)];
      assert commands[..0] == [];
      assert Elements(list) == {};
    } else {
      hide Apply, Filled, Elements;
      var front, last := list[..|list| - 1], list[|list| - 1];
      Filling(k, spec, temp, front);
      assert commands[..|commands| - 1] == [Create(temp, spec)] + Adds(temp, front);
      assert list == front + [last];
      ElementsSnoc(front, last);
      assert last !in Elements(front) by { ElementsAre(front, last); }
      assert last !in front && commands[|commands| - 1] == Add(temp, last);
      DistinctSize(front);
      AddStep(k, spec, temp, Elements(front), last);
    }
  }

  lemma SwapStep<E>(k: Kernel<E>, spec: Spec, temp: Bytes, filled: KernelSet<E>)
    requires temp != spec.name && filled.kind == spec.kind && filled.family == spec.family
    ensures var (now, ok) := Apply(k.(sets := k.sets[temp := filled]), Swap(temp, spec.name));
            && (ok <==>
                  && spec.name in k.sets && k.sets[spec.name].kind == spec.kind
                  && k.sets[spec.name].family == spec.family)
            && (ok ==> now == k.(sets := k.sets[temp := k.sets[spec.name]][spec.name := filled]))
  {
    var before := k.(sets := k.sets[temp := filled]);
    assert spec.name in k.sets ==> before.sets[spec.name] == k.sets[spec.name];
    assert spec.name in k.sets ==>
        before.sets[temp := k.sets[spec.name]][spec.name := filled] ==
          k.sets[temp := k.sets[spec.name]][spec.name := filled];
  }

  // The whole script works exactly when the temporary name is free, there is room for every entry,
  // and the managed set is there with the same type and family.
  lemma Swapping<E>(k: Kernel<E>, spec: Spec, temp: Bytes, list: seq<E>)
    requires Distinct(list) && temp != spec.name
    ensures var script := Script(spec, temp, list);
            && (AllWork(k, script) <==>
                  && temp !in k.sets && |list| <= spec.maxelem && spec.name in k.sets
                  && k.sets[spec.name].kind == spec.kind && k.sets[spec.name].family == spec.family)
            && (AllWork(k, script) ==>
                  After(k, script) ==
                  k.(sets := k.sets[temp := k.sets[spec.name]][spec.name := Filled(spec, Elements(list))]))
  {
    var script := Script(spec, temp, list);
    Filling(k, spec, temp, list);
    hide Apply, Elements;
    assert script[..|script| - 1] == [Create(temp, spec)] + Adds(temp, list)
      && script[|script| - 1] == Swap(temp, spec.name);
    SwapStep(k, spec, temp, Filled(spec, Elements(list)));
  }

  // Some part of the script, all of it working, led here.
  ghost predicate Reached<E>(k: Kernel<E>, script: seq<Command<E>>, now: Kernel<E>) {
    exists n :: 0 <= n <= |script| && ReachedAt(k, script, n, now)
  }

  predicate ReachedAt<E(==)>(k: Kernel<E>, script: seq<Command<E>>, n: nat, now: Kernel<E>)
    requires n <= |script|
  {
    AllWork(k, script[..n]) && now == After(k, script[..n])
  }

  // Outside the temporary and the managed set nothing changes, and the managed set is as it was,
  // or holds exactly the new entries.
  ghost predicate OldOrNew<E>(was: Kernel<E>, now: Kernel<E>, spec: Spec, temp: Bytes, entries: set<E>) {
    && now.inUse == was.inUse
    && (forall name :: name != temp && name != spec.name ==> Lookup(now, name) == Lookup(was, name))
    && (Lookup(now, spec.name) == Lookup(was, spec.name) || Lookup(now, spec.name) == Some(Filled(spec, entries)))
  }

  lemma FilledIsOld<E>(k: Kernel<E>, spec: Spec, temp: Bytes, some: KernelSet<E>, entries: set<E>)
    requires temp != spec.name
    ensures var now := k.(sets := k.sets[temp := some]);
            OldOrNew(k, now, spec, temp, entries) && Lookup(now, spec.name) == Lookup(k, spec.name)
  {
  }

  lemma SwappedIsNew<E>(k: Kernel<E>, spec: Spec, temp: Bytes, some: KernelSet<E>, entries: set<E>)
    requires temp != spec.name
    ensures OldOrNew(k, k.(sets := k.sets[temp := some][spec.name := Filled(spec, entries)]), spec, temp, entries)
  {
  }

  lemma ReachedIsOldOrNew<E>(k: Kernel<E>, spec: Spec, temp: Bytes, list: seq<E>, now: Kernel<E>)
    requires Distinct(list) && Reached(k, Script(spec, temp, list), now)
    requires temp != spec.name || temp in k.sets
    ensures OldOrNew(k, now, spec, temp, Elements(list))
    ensures Lookup(now, spec.name) != Lookup(k, spec.name) ==> AllWork(k, Script(spec, temp, list))
  {
    var script := Script(spec, temp, list);
    var n :| 0 <= n <= |script| && ReachedAt(k, script, n, now);
    hide Apply, Filled, OldOrNew, AllWork, After, Elements;
    if n == 0 {
      assert script[..0] == [];
      NothingDone(k, spec, temp, Elements(list));
    } else if n <= |list| + 1 {
      FilledSoFar(k, spec, temp, list, n, now);
    } else {
      assert script[..n] == script;
      CannotCreate(k, spec, temp, list);
      Swapping(k, spec, temp, list);
      SwappedIsNew(k, spec, temp, k.sets[spec.name], Elements(list));
    }
  }

  lemma FilledSoFar<E>(k: Kernel<E>, spec: Spec, temp: Bytes, list: seq<E>, n: nat, now: Kernel<E>)
    requires Distinct(list) && 0 < n <= |list| + 1 && ReachedAt(k, Script(spec, temp, list), n, now)
    requires temp != spec.name || temp in k.sets
    ensures OldOrNew(k, now, spec, temp, Elements(list)) && Lookup(now, spec.name) == Lookup(k, spec.name)
  {
    hide Apply, Filled, OldOrNew, AllWork, After, Elements;
    assert Script(spec, temp, list)[..n] == [Create(temp, spec)] + Adds(temp, list[..n - 1]);
    Filling(k, spec, temp, list[..n - 1]);
    if temp != spec.name { FilledIsOld(k, spec, temp, Filled(spec, Elements(list[..n - 1])), Elements(list)); }
  }

  lemma NothingDone<E>(k: Kernel<E>, spec: Spec, temp: Bytes, entries: set<E>)
    ensures After(k, []) == k && OldOrNew(k, k, spec, temp, entries)
  {
  }

  lemma {:induction false} PrefixWorks<E>(k: Kernel<E>, commands: seq<Command<E>>, n: nat)
    requires AllWork(k, commands) && n <= |commands|
    ensures AllWork(k, commands[..n])
  {
    if n < |commands| {
      PrefixWorks(k, commands[..|commands| - 1], n);
      assert commands[..|commands| - 1][..n] == commands[..n];
    } else {
      assert commands[..n] == commands;
    }
  }

  // ---- Replacing ---------------------------------------------------------------------------

  datatype Fault = Works | FailsBefore | FailsAfter

  class Runner<E(==, !new)> {
    var kernel: Kernel<E>
    var clock: nat
    ghost var log: seq<Kernel<E>>
    const world: nat -> Fault

    constructor (kernel: Kernel<E>, world: nat -> Fault)
      ensures this.kernel == kernel && this.world == world && clock == 0 && log == []
    {
      this.kernel, this.world, clock, log := kernel, world, 0, [];
    }

    method Run(c: Command<E>) returns (ok: bool)
      modifies this
      ensures clock == old(clock) + 1 && log == old(log) + [kernel]
      ensures kernel == (if world(old(clock)).FailsBefore? then old(kernel) else Apply(old(kernel), c).0)
      ensures ok <==> world(old(clock)).Works? && Apply(old(kernel), c).1
    {
      var (next, done) := Apply(kernel, c);
      match world(clock) {
        case Works => kernel, ok := next, done;
        case FailsBefore => ok := false;
        case FailsAfter => kernel, ok := next, false;
      }
      clock, log := clock + 1, log + [kernel];
    }

    ghost predicate Quiet() reads this { forall n: nat :: n >= clock ==> world(n).Works? }

    // Line by line, until one fails.
    method Restore(script: seq<Command<E>>) returns (ok: bool)
      modifies this
      ensures old(log) <= log && clock >= old(clock) && Reached(old(kernel), script, kernel)
      ensures forall i :: |old(log)| <= i < |log| ==> Reached(old(kernel), script, log[i])
      ensures ok ==> AllWork(old(kernel), script) && kernel == After(old(kernel), script)
      ensures old(Quiet()) && AllWork(old(kernel), script) ==> ok
    {
      hide Apply, Reached;
      ghost var start := kernel;
      var k := 0;
      assert script[..0] == [];
      IsReached(start, script, 0, kernel);
      while k < |script|
        invariant 0 <= k <= |script| && ReachedAt(start, script, k, kernel) && Reached(start, script, kernel)
        invariant old(log) <= log && clock >= old(clock)
        invariant forall i :: |old(log)| <= i < |log| ==> Reached(start, script, log[i])
      {
        assert script[..k + 1][..k] == script[..k];
        PrefixFails(start, script, k);
        var before := kernel;
        ok := Run(script[k]);
        StepReached(start, script, k, before, kernel);
        if !ok { return; }
        k := k + 1;
      }
      assert script[..k] == script;
      return true;
    }

    // Clears a leftover temporary set, runs the script, and clears what the swap left; both
    // clearings may fail. Where replacing is safe, the managed set holds what it held or exactly
    // the new entries, after every command.
    method AtomicReplace(spec: Spec, suffix: Bytes, entries: seq<E>, less: (E, E) -> bool) returns (ok: bool)
      requires StrictTotal(less)
      modifies this
      ensures old(log) <= log
      ensures Replaceable(old(kernel), spec, suffix, Elements(entries)) ==>
                && (forall i :: |old(log)| <= i < |log| ==>
                      OldOrNew(old(kernel), log[i], spec, TempName(spec.name, suffix), Elements(entries)))
                && OldOrNew(old(kernel), kernel, spec, TempName(spec.name, suffix), Elements(entries))
      ensures TempName(spec.name, suffix) != spec.name && ok ==>
              Lookup(kernel, spec.name) == Some(Filled(spec, Elements(entries)))
      ensures TempName(spec.name, suffix) != spec.name && old(Quiet())
              && TempName(spec.name, suffix) !in old(kernel).inUse ==>
                (ok <==> Fits(old(kernel), spec, Elements(entries)))
                && TempName(spec.name, suffix) !in kernel.sets
    {
      hide Apply, Reached, Filled, TempName, OldOrNew, SortUnique, Fits, Elements;
      var temp := TempName(spec.name, suffix);
      ghost var k0 := kernel;
      var cleared := Run(Destroy(temp));
      ghost var k1, log1 := kernel, log;
      var script := WriteRestoreScript(spec, temp, entries, less);
      ok := Restore(script);
      ghost var k2, log2 := kernel, log;
      var dropped := Run(Destroy(temp));
      ghost var list := SortUnique(entries, less);
      ListFacts(entries, less);
      DestroyTemp(k0, spec, temp);
      DestroyTemp(k2, spec, temp);
      if Replaceable(k0, spec, suffix, Elements(entries)) {
        Around(k0, k1, spec, temp, list, k2, kernel);
        forall i | |old(log)| <= i < |log| ensures OldOrNew(k0, log[i], spec, temp, Elements(entries)) {
          if |log1| <= i < |log2| {
            assert log[i] == log2[i];
            Around(k0, k1, spec, temp, list, log[i], log[i]);
          } else if i < |log1| {
            assert log[i] == log1[i] == k1;
            IsReached(k1, script, 0, k1) by { assert script[..0] == []; }
            Around(k0, k1, spec, temp, list, k1, k1);
          }
        }
      }
      if temp != spec.name {
        Swapping(k1, spec, temp, list);
        FitsFacts(k0, k1, spec, temp, list);
      }
    }
  }

  // When replacing is safe: the temporary name is another one, or the managed set cannot be
  // destroyed, or there is neither a managed set nor an entry.
  predicate Replaceable<E>(k: Kernel<E>, spec: Spec, suffix: Bytes, entries: set<E>) {
    Separate(k, spec, TempName(spec.name, suffix), entries)
  }

  predicate Separate<E>(k: Kernel<E>, spec: Spec, temp: Bytes, entries: set<E>) {
    temp != spec.name || (if spec.name in k.sets then spec.name in k.inUse else entries == {})
  }

  // What replacing needs to work: the managed set, of the right type, and room for every entry.
  predicate Fits<E>(k: Kernel<E>, spec: Spec, entries: set<E>) {
    |entries| <= spec.maxelem && spec.name in k.sets && k.sets[spec.name].kind == spec.kind
      && k.sets[spec.name].family == spec.family
  }

  // And not otherwise. When the temporary name is the managed one, the first command removes a set
  // that nothing refers to, and where there is none the script fills the managed set itself.
  lemma OwnNameBreaks<E>(k: Kernel<E>, spec: Spec, suffix: Bytes, entries: set<E>)
    requires !Replaceable(k, spec, suffix, entries)
    ensures var temp := TempName(spec.name, suffix);
            var first := Apply(k, Destroy(temp)).0;
            var second := Apply(first, Create(temp, spec)).0;
            !OldOrNew(k, if spec.name in k.sets then first else second, spec, temp, entries)
  {
  }

  lemma ListFacts<E(!new)>(entries: seq<E>, less: (E, E) -> bool)
    requires StrictTotal(less)
    ensures Distinct(SortUnique(entries, less)) && Elements(SortUnique(entries, less)) == Elements(entries)
  {
    SortUniqueFacts(entries, less);
  }

  lemma DestroyTemp<E>(k: Kernel<E>, spec: Spec, temp: Bytes)
    ensures var now := Apply(k, Destroy(temp)).0;
            && now.inUse == k.inUse && (forall name :: name != temp ==> Lookup(now, name) == Lookup(k, name))
            && (temp in k.inUse ==> now == k) && (temp !in k.inUse ==> temp !in now.sets)
  {
  }

  // The clearings before and after change the temporary set only.
  lemma Around<E>(k0: Kernel<E>, k1: Kernel<E>, spec: Spec, temp: Bytes, list: seq<E>, k2: Kernel<E>, k3: Kernel<E>)
    requires Distinct(list) && Reached(k1, Script(spec, temp, list), k2)
    requires Separate(k0, spec, temp, Elements(list))
    requires k1 == k0 || k1 == Apply(k0, Destroy(temp)).0
    requires k3 == k2 || k3 == Apply(k2, Destroy(temp)).0
    ensures OldOrNew(k0, k3, spec, temp, Elements(list)) && k2.inUse == k0.inUse
    ensures k2 == After(k1, Script(spec, temp, list)) && AllWork(k1, Script(spec, temp, list)) && temp != spec.name ==>
              Lookup(k3, spec.name) == Some(Filled(spec, Elements(list)))
  {
    hide Reached, Filled, AllWork, After;
    DestroyTemp(k0, spec, temp);
    DestroyTemp(k2, spec, temp);
    if temp == spec.name && temp !in k0.sets {
      NoElements(list);
      ReachedFromNothing(k1, spec, k2);
    } else {
      hide Elements;
      ReachedIsOldOrNew(k1, spec, temp, list, k2);
      if temp != spec.name { Swapping(k1, spec, temp, list); }
    }
  }

  // With neither a managed set nor an entry, the script at most creates the set.
  lemma ReachedFromNothing<E>(k: Kernel<E>, spec: Spec, now: Kernel<E>)
    requires spec.name !in k.sets && Reached(k, Script<E>(spec, spec.name, []), now)
    ensures now.inUse == k.inUse && forall name :: name != spec.name ==> Lookup(now, name) == Lookup(k, name)
    ensures Lookup(now, spec.name) == None || Lookup(now, spec.name) == Some(Filled(spec, {}))
  {
    var script := Script<E>(spec, spec.name, []);
    assert script == [Create(spec.name, spec), Swap(spec.name, spec.name)];
    var n :| 0 <= n <= |script| && ReachedAt(k, script, n, now);
    var made := Apply(k, script[0]).0;
    assert script[..0] == [] && script[..1] == [script[0]] && script[..2] == script;
    assert After(k, [script[0]]) == made by { assert [script[0]][..0] == []; }
    assert After(k, script) == Apply(made, script[1]).0;
    assert made.sets[spec.name] == Filled(spec, {});
    assert made.sets[spec.name := made.sets[spec.name]] == made.sets;
  }

  lemma NoElements<E>(s: seq<E>)
    ensures Elements(s) == {} ==> s == []
  {
    if s != [] { assert s[0] in Elements(s); }
  }

  lemma CannotCreate<E>(k: Kernel<E>, spec: Spec, temp: Bytes, list: seq<E>)
    requires Distinct(list)
    ensures temp in k.sets ==> !AllWork(k, Script(spec, temp, list))
  {
    hide AllWork, After, Apply;
    var script := Script(spec, temp, list);
    assert script[..|list| + 1] == [Create(temp, spec)] + Adds(temp, list);
    if AllWork(k, script) { PrefixWorks(k, script, |list| + 1); }
    Filling(k, spec, temp, list);
  }

  lemma FitsFacts<E>(k0: Kernel<E>, k1: Kernel<E>, spec: Spec, temp: Bytes, list: seq<E>)
    requires Distinct(list) && temp != spec.name
    requires forall name :: name != temp ==> Lookup(k1, name) == Lookup(k0, name)
    ensures Fits(k0, spec, Elements(list)) <==>
            |list| <= spec.maxelem && spec.name in k1.sets && k1.sets[spec.name].kind == spec.kind
            && k1.sets[spec.name].family == spec.family
  {
    DistinctSize(list);
    assert Lookup(k1, spec.name) == Lookup(k0, spec.name);
  }

  lemma IsReached<E>(k: Kernel<E>, script: seq<Command<E>>, n: nat, now: Kernel<E>)
    requires n <= |script| && ReachedAt(k, script, n, now)
    ensures Reached(k, script, now)
  {
  }

  // Whether the next command is refused or works, the state is one the script passes through.
  lemma StepReached<E>(k: Kernel<E>, script: seq<Command<E>>, n: nat, before: Kernel<E>, after: Kernel<E>)
    requires n < |script| && ReachedAt(k, script, n, before)
    requires after == before || after == Apply(before, script[n]).0
    ensures Reached(k, script, after)
    ensures Apply(before, script[n]).1 && after == Apply(before, script[n]).0 ==> ReachedAt(k, script, n + 1, after)
  {
    assert script[..n + 1][..n] == script[..n];
    if Apply(before, script[n]).1 { assert ReachedAt(k, script, n + 1, Apply(before, script[n]).0); }
    RefusedUnchanged(before, script[n]);
  }

  lemma RefusedUnchanged<E>(k: Kernel<E>, c: Command<E>)
    ensures !Apply(k, c).1 ==> Apply(k, c).0 == k
  {
  }

  lemma PrefixFails<E>(k: Kernel<E>, script: seq<Command<E>>, n: nat)
    requires n < |script|
    ensures AllWork(k, script) ==> AllWork(k, script[..n + 1])
  {
    if AllWork(k, script) { PrefixWorks(k, script, n + 1); }
  }
}
