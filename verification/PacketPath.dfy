// How the kernel takes a packet through a filter table, and what the managed wiring means for it.
module PacketPath {
  import opened Xtables
  import opened Wiring

  // A packet is known by the sets its source address is in and by whatever else rules look at.
  datatype Packet = Packet(sets: set<Token>, rest: int)

  datatype Act = Skip | Decide(verdict: Token) | Leave | Enter(chain: Token) | Goto(chain: Token)

  datatype Fate = Decided(verdict: Token) | Through | Stuck

  // What rules Kidobo did not write do to a packet.
  type OtherRules = (Spec, Packet) -> Act

  function TargetAct(target: Token): Act {
    if target in {"ACCEPT", "DROP", "REJECT"} then Decide(target)
    else if target == "RETURN" then Leave
    else Enter(target)
  }

  predicate IsSetRule(spec: Spec) {
    && (|spec| == 7 || (|spec| == 9 && spec[6] == "REJECT" && spec[7] == "--reject-with"))
    && spec[..3] == ["-m", "set", "--match-set"] && spec[4..6] == ["src", "-j"]
  }

  function Meaning(spec: Spec, p: Packet, others: OtherRules): Act {
    if spec == [] then Skip
    else if |spec| == 2 && spec[0] == "-j" then TargetAct(spec[1])
    else if IsSetRule(spec) then if spec[3] in p.sets then TargetAct(spec[6]) else Skip
    else others(spec, p)
  }

  // Takes a packet through `rules`; `depth` bounds the nesting of chains.
  function Walk(t: Table, rules: seq<Spec>, p: Packet, others: OtherRules, depth: nat): Fate
    decreases depth, |rules|
  {
    if rules == [] then Through
    else
      match Meaning(rules[0], p, others)
      case Skip => Walk(t, rules[1..], p, others, depth)
      case Decide(v) => Decided(v)
      case Leave => Through
      case Goto(c) => if depth == 0 || c !in t.chains then Stuck else Walk(t, t.chains[c], p, others, depth - 1)
      case Enter(c) =>
        if depth == 0 || c !in t.chains then Stuck
        else match Walk(t, t.chains[c], p, others, depth - 1)
             case Through => Walk(t, rules[1..], p, others, depth)
             case fate => fate
  }

  lemma WantedRuleDecides(t: Table, setName: Token, action: ChainAction, rules: seq<Spec>, p: Packet,
          others: OtherRules, depth: nat)
    requires rules != [] && rules[0] == WantedRule(setName, action) && setName in p.sets
    ensures Walk(t, rules, p, others, depth) == Decided(if action.Drop? then "DROP" else "REJECT")
  {
    var spec := rules[0];
    assert spec[..3] == ["-m", "set", "--match-set"] && spec[4..6] == ["src", "-j"] && spec[6] == AsTarget(action);
    assert IsSetRule(spec) && spec[3] == setName;
  }

  lemma JumpActs(chain: Token, p: Packet, others: OtherRules)
    requires chain == STABLE || chain == STAGING
    ensures Meaning(JumpTo(chain), p, others) == Enter(chain)
  {
    Names();
    assert JumpTo(chain)[0] == "-j" && JumpTo(chain)[1] == chain;
    assert chain != "RETURN" && chain !in {"ACCEPT", "DROP", "REJECT"} by {
      assert chain in BUILTIN_TARGETS <==> chain in {"ACCEPT", "DROP", "REJECT", "RETURN"};
    }
  }

  // The first INPUT rule decides every packet from the set, whatever rules come after it and
  // whatever rules that are not Kidobo's do.
  ghost predicate MeetsFirst(t: Table, setName: Token, verdict: Token) {
    t.input != []
    && forall p: Packet, others: OtherRules, depth: nat, rest: seq<Spec> :: setName in p.sets && depth >= 2 ==>
         Walk(t, [t.input[0]] + rest, p, others, depth) == Decided(verdict)
  }

  // Wherever the managed wiring enforces the configured rule, a packet from the set is dropped or
  // rejected as configured; none is let in and none falls through.
  lemma SetMembersBlocked(t: Table, setName: Token, action: ChainAction)
    requires Enforcing(t, WantedRule(setName, action))
    ensures action.Drop? ==> MeetsFirst(t, setName, "DROP")
    ensures action.Reject? ==> MeetsFirst(t, setName, "REJECT")
  {
    forall p: Packet, others: OtherRules, depth: nat, rest: seq<Spec> | setName in p.sets && depth >= 2
      ensures Walk(t, [t.input[0]] + rest, p, others, depth) == Decided(if action.Drop? then "DROP" else "REJECT")
    {
      MemberBlocked(t, setName, action, p, others, depth, rest);
    }
  }

  lemma MemberBlocked(t: Table, setName: Token, action: ChainAction, p: Packet, others: OtherRules, depth: nat,
          rest: seq<Spec>)
    requires Enforcing(t, WantedRule(setName, action)) && setName in p.sets && depth >= 2
    ensures Walk(t, [t.input[0]] + rest, p, others, depth) == Decided(if action.Drop? then "DROP" else "REJECT")
  {
    hide Meaning;
    var rules := [t.input[0]] + rest;
    var fate := Decided(if action.Drop? then "DROP" else "REJECT");
    WantedRuleDecides(t, setName, action, t.chains[STABLE], p, others, depth - 1);
    if Holds(BlockStaging(WantedRule(setName, action)), t) {
      WantedRuleDecides(t, setName, action, t.chains[STABLE], p, others, depth - 2);
      JumpActs(STAGING, p, others);
      assert Walk(t, t.chains[STAGING], p, others, depth - 1) == fate by {
        JumpActs(STABLE, p, others);
        assert t.chains[STAGING][0] == JumpTo(STABLE);
      }
    } else {
      JumpActs(STABLE, p, others);
    }
    assert rules[0] == t.input[0];
  }

  lemma WholeInput(t: Table, setName: Token, verdict: Token)
    requires MeetsFirst(t, setName, verdict)
    ensures forall p: Packet, others: OtherRules, depth: nat :: setName in p.sets && depth >= 2 ==>
              Walk(t, t.input, p, others, depth) == Decided(verdict)
  {
    hide Walk;
    assert t.input == [t.input[0]] + t.input[1..];
  }

  // An undisturbed wiring run from a table whose managed rules all carry text: if it succeeds, the
  // whole INPUT list drops or rejects every packet from the set as configured; and from the moment
  // the staging jump went in, so did the first INPUT rule after every command, even if a later
  // command failed.
  method InstallBlock(t: Table, world: World, setName: Token, action: ChainAction)
    returns (u: Table, ok: bool, ghost log: seq<Entry>, ghost from: nat)
    requires Quiet(world, 0) && ManagedText(t)
    ensures from <= |log| && (ok ==> from < |log|)
    ensures Working(world, 0) && WellFormed(t) && Unshared(t, STAGING) ==> ok
    ensures ok && action.Drop? ==> MeetsFirst(u, setName, "DROP")
    ensures ok && action.Reject? ==> MeetsFirst(u, setName, "REJECT")
    ensures ok ==> forall p: Packet, others: OtherRules, depth: nat :: setName in p.sets && depth >= 2 ==>
                     Walk(u, u.input, p, others, depth) == Decided(if action.Drop? then "DROP" else "REJECT")
    ensures forall i :: from <= i < |log| ==>
              MeetsFirst(log[i].after, setName, if action.Drop? then "DROP" else "REJECT")
  {
    hide Walk, MeetsFirst, Enforcing, Unshared, Foreign, Replaced, Proceeded, Preserved, Settled;
    var rule := WantedRule(setName, action);
    var runner := new Runner(t, world);
    var r, mark := runner.EnsureFirewallWiring(setName, action);
    u, ok, log := runner.table, r.Ok?, runner.log;
    from := |log|;
    if mark.Some? {
      var m := mark.value;
      from := |m.log| - 1;
      forall i | from <= i < |log|
        ensures MeetsFirst(log[i].after, setName, if action.Drop? then "DROP" else "REJECT")
      {
        assert i == from ==> log[i] == LastOf(m.log);
        SetMembersBlocked(log[i].after, setName, action);
      }
    }
    if ok {
      SetMembersBlocked(u, setName, action);
      WholeInput(u, setName, if action.Drop? then "DROP" else "REJECT");
    }
  }

  // A packet outside the set is not decided by the managed wiring: once it is settled, such a
  // packet goes on to the foreign rules, exactly as if Kidobo's jump were not there.
  lemma {:induction false} OutsidersUntouched(t: Table, setName: Token, action: ChainAction, p: Packet,
          others: OtherRules, depth: nat)
    requires t.chains.Keys >= {STABLE} && t.chains[STABLE] == [WantedRule(setName, action)]
    requires t.input != [] && t.input[0] == JumpTo(STABLE) && setName !in p.sets && depth >= 1
    ensures Walk(t, t.input, p, others, depth) == Walk(t, t.input[1..], p, others, depth)
  {
    JumpActs(STABLE, p, others);
    var spec := WantedRule(setName, action);
    assert spec[..3] == ["-m", "set", "--match-set"] && spec[4..6] == ["src", "-j"];
    assert IsSetRule(spec) && spec[3] == setName;
    assert Walk(t, t.chains[STABLE], p, others, depth - 1) == Through by {
      assert Walk(t, t.chains[STABLE][1..], p, others, depth - 1) == Through;
    }
  }
}

// Runs after runs: crashes, faults and cleanups in any order, then one undisturbed run.
module Recovery {
  import opened Xtables
  import opened Wiring

  datatype Attempt = Wire(world: World, setName: Token, action: ChainAction) | Clean(world: World)

  lemma {:induction false} ForeignIdempotent(rules: seq<Spec>)
    ensures Foreign(Foreign(rules)) == Foreign(rules)
  {
    if rules == [] {
    } else {
      ForeignIdempotent(rules[1..]);
      if !ManagedJump(rules[0]) { assert Foreign(rules)[1..] == Foreign(rules[1..]); }
    }
  }

  // The canonical table depends only on what is not Kidobo's, and normalising it again with any
  // rule gives what normalising the original with that rule gives.
  lemma CanonicalIsNormalForm(t: Table, u: Table, rule: Spec, again: Spec)
    requires SameBase(t, u, true)
    ensures Canonical(t, rule) == Canonical(u, rule)
    ensures Canonical(Canonical(t, rule), again) == Canonical(t, again)
    ensures SameBase(t, Canonical(u, rule), true)
  {
    var c := Canonical(t, rule);
    ForeignIdempotent(t.input);
    assert c.input[1..] == Foreign(t.input);
    assert Others(c) == Others(t);
  }

  // An undisturbed run from an orderly table ends in the canonical one.
  method RunOnce(t: Table, world: World, setName: Token, action: ChainAction) returns (u: Table)
    requires IsOrderly(t) && Quiet(world, 0) && Working(world, 0)
    ensures u == Canonical(t, WantedRule(setName, action))
  {
    var runner := new Runner(t, world);
    var r, mark := runner.EnsureFirewallWiring(setName, action);
    ReplacedAlone(OldRules(t, STABLE), WantedRule(setName, action));
    return runner.table;
  }

  // Whatever sequence of interrupted or failed runs came before, with other programs rewriting the
  // rest of INPUT between commands as long as their rules never mention the managed chains: one
  // undisturbed run reaches the canonical table of what it meets, and one more leaves it as it is.
  // If every attempt was a wiring run and the start was armed, INPUT was armed at every moment in
  // between, and no command ever deleted or reordered a rule that is not a managed jump.
  method SurviveAttempts(start: Table, attempts: seq<Attempt>, calm: World, setName: Token, action: ChainAction)
    returns (met: Table, u: Table, ghost history: seq<Entry>)
    requires IsOrderly(start) && Quiet(calm, 0) && Working(calm, 0)
    requires forall i :: 0 <= i < |attempts| ==> Polite(attempts[i].world, 0)
    ensures u == Canonical(met, WantedRule(setName, action))
    ensures u.input == [JumpTo(STABLE)] + Foreign(met.input)
    ensures u.chains == Others(start)[STABLE := [WantedRule(setName, action)]]
    ensures Canonical(u, WantedRule(setName, action)) == u
    ensures (forall i :: 0 <= i < |attempts| ==> Quiet(attempts[i].world, 0)) ==>
            Foreign(met.input) == Foreign(start.input)
    ensures forall i :: 0 <= i < |history| ==> Conserves(history[i])
    ensures Armed(start) && (forall i :: 0 <= i < |attempts| ==> attempts[i].Wire?) ==>
              forall i :: 0 <= i < |history| ==> Armed(history[i].before) && Armed(history[i].after)
  {
    var t := start;
    history := [];
    for k := 0 to |attempts|
      invariant IsOrderly(t) && Others(t) == Others(start)
      invariant (forall i :: 0 <= i < k ==> Quiet(attempts[i].world, 0)) ==> Foreign(t.input) == Foreign(start.input)
      invariant forall i :: 0 <= i < |history| ==> Conserves(history[i])
      invariant Armed(start) && (forall i :: 0 <= i < k ==> attempts[i].Wire?) ==>
                  Armed(t) && forall i :: 0 <= i < |history| ==> Armed(history[i].before) && Armed(history[i].after)
    {
      ghost var log;
      t, log := MakeAttempt(t, attempts[k]);
      history := history + log;
    }
    met := t;
    u := RunOnce(t, calm, setName, action);
    CanonicalIsNormalForm(t, t, WantedRule(setName, action), WantedRule(setName, action));
  }

  // One attempt of either kind, however it ends.
  method MakeAttempt(t: Table, attempt: Attempt) returns (u: Table, ghost log: seq<Entry>)
    requires IsOrderly(t) && Polite(attempt.world, 0)
    ensures IsOrderly(u) && Others(u) == Others(t)
    ensures Quiet(attempt.world, 0) ==> Foreign(u.input) == Foreign(t.input)
    ensures forall i :: 0 <= i < |log| ==> Conserves(log[i])
    ensures Armed(t) && attempt.Wire? ==>
              Armed(u) && forall i :: 0 <= i < |log| ==> Armed(log[i].before) && Armed(log[i].after)
  {
    hide IsOrderly, Armed, Conserves, Others, Foreign;
    var runner := new Runner(t, attempt.world);
    match attempt {
      case Wire(_, name, target) =>
        var r, mark := runner.EnsureFirewallWiring(name, target);
        assert Holds(Orderly, runner.table);
      case Clean(_) =>
        var r, second := runner.CleanupFirewallWiring();
        assert Holds(Orderly, runner.table);
    }
    u, log := runner.table, runner.log;
  }

  // And at any such point cleanup gets through, and gets through again.
  method CleanTwice(t: Table, calm: World) returns (u: Table)
    requires IsOrderly(t) && Quiet(calm, 0) && Working(calm, 0)
    ensures u == Table(Foreign(t.input), Others(t))
  {
    var runner := new Runner(t, calm);
    var first, _ := runner.CleanupFirewallWiring();
    assert first.Ok?;
    ForeignIdempotent(t.input);
    NoJumpsLeft(t.input);
    var second, _ := runner.CleanupFirewallWiring();
    assert second.Ok?;
    return runner.table;
  }
}
