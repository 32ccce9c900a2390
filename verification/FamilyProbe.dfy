// Inspecting one address family twice: the verdict counts only if nothing moved in between.
module FamilyProbe {
  import opened Options
  import opened Xtables
  import opened Wiring
  import opened Inspection

  datatype Membership = Present | NotPresent | Undetermined

  datatype SetSnapshot = SetSnapshot(
    state: Verification,
    entries: Option<nat>,
    signature: Option<(string, string, string, nat)>)

  datatype WiringSnapshot = WiringSnapshot(state: Verification, signature: seq<Line>)

  // What the commands of one round answer; a listing that failed is missing.
  datatype Answers = Answers(managedSet: SetSnapshot, listing: Option<seq<Line>>, membership: Membership)

  datatype Report = Report(
    setState: Verification,
    wiring: Verification,
    entries: Option<nat>,
    membership: Option<Membership>,
    enforcement: Verification,
    stable: bool)

  predicate Telling(line: Line) {
    (|line| > 2 && line[0] == "-P" && line[1] == INPUT)
    || IsRuleOf(line, INPUT) || IsRuleOf(line, STABLE) || IsRuleOf(line, STAGING) || RefersToManagedChain(line)
  }

  function Snapshot(listing: Option<seq<Line>>, family: Family, setName: Token, action: ChainAction): WiringSnapshot {
    if listing.None? then WiringSnapshot(Unknown, [])
    else
      var lines := Filter(listing.value, NotEmpty);
      if |Filter(lines, InputPolicy)| != 1 || Filter(lines, Malformed) != [] then WiringSnapshot(Unknown, [])
      else
        var state := ParseWiring(listing.value, family, setName, action);
        WiringSnapshot(state, if state.Unknown? then [] else Filter(lines, Telling))
  }

  // Membership is asked for only when there is a target, and trusted only in a verified set.
  function MembershipOf(answers: Answers, wanted: bool): Option<Membership> {
    if !wanted then None
    else if answers.managedSet.state.Verified? then Some(answers.membership)
    else Some(Undetermined)
  }

  method InspectFamily(before: Answers, after: Answers, target: bool, family: Family, setName: Token,
          action: ChainAction)
    returns (report: Report)
    ensures var first, second := Snapshot(before.listing, family, setName, action),
            Snapshot(after.listing, family, setName, action);
            var same := before.managedSet == after.managedSet && first == second
              && MembershipOf(before, target) == MembershipOf(after, target);
            && (report.enforcement.Verified? <==> before.managedSet.state.Verified? && first.state.Verified? && same)
            && (report.enforcement.Absent? <==> !before.managedSet.state.Unknown? && first.state.Absent? && same)
            && (report.stable <==>
                  && !before.managedSet.state.Unknown? && !first.state.Unknown? && same
                  && (MembershipOf(before, target) != Some(Undetermined) || first.state.Absent?))
            && (!before.managedSet.state.Unknown? && !first.state.Unknown? && !same ==>
                  report.setState.Unknown? && report.wiring.Unknown? && report.entries.None?
                  && report.membership == if target then Some(Undetermined) else None)
            // Unless a change between the rounds withdraws them, these are the first round's answers.
            && (before.managedSet.state.Unknown? || first.state.Unknown? || same ==>
                  && report.setState == before.managedSet.state && report.wiring == first.state
                  && report.entries == before.managedSet.entries
                  && (!target ==> report.membership == None)
                  && (target && before.managedSet.state.Verified? ==> report.membership == Some(before.membership))
                  && (target && !before.managedSet.state.Verified? ==> report.membership == Some(Undetermined)))
            && (before.managedSet.state.Unknown? || first.state.Unknown? ==>
                  report.enforcement.Unknown? && !report.stable)
  {
    hide Snapshot;
    var beforeWiring := Snapshot(before.listing, family, setName, action);
    var beforeMembership := MembershipOf(before, target);
    report := Report(before.managedSet.state, beforeWiring.state, before.managedSet.entries, beforeMembership, Unknown,
      false);
    if before.managedSet.state.Unknown? || beforeWiring.state.Unknown? { return; }
    var afterWiring := Snapshot(after.listing, family, setName, action);
    var afterMembership := MembershipOf(after, target);
    var stable := before.managedSet == after.managedSet && beforeWiring == afterWiring
      && beforeMembership == afterMembership;
    if !stable {
      var unknown := if target then Some(Undetermined) else None;
      report := report.(setState := Unknown, wiring := Unknown, entries := None, membership := unknown);
      return;
    }
    report := report.(stable := true);
    report := report.(enforcement :=
      if beforeWiring.state.Absent? then Absent
      else if before.managedSet.state.Verified? && beforeWiring.state.Verified? then Verified
      else Unknown);
    if report.membership == Some(Undetermined) && !report.wiring.Absent? { report := report.(stable := false); }
  }

  // A full listing's snapshot carries the listing's verdict; a missing one is unknown.
  lemma SnapshotVerdict(lines: seq<Line>, t: Table, family: Family, setName: Token, action: ChainAction)
    requires ListingOf(lines, t, family)
    ensures Snapshot(Some(lines), family, setName, action).state == ParseWiring(lines, family, setName, action)
    ensures Snapshot(None, family, setName, action).state.Unknown?
  {
    NothingDropped(lines, t, family);
  }

  // What the reported wiring says about the table whose listing the first round got: verified means
  // soundly wired, absent means that no rule leads into a managed chain, and unknown is the rest.
  method InspectTable(t: Table, lines: seq<Line>, managedSet: SetSnapshot, membership: Membership, after: Answers,
          target: bool, family: Family, setName: Token, action: ChainAction)
    returns (report: Report)
    requires ListingOf(lines, t, family) && OthersSilent(lines)
    ensures report.wiring.Verified? ==> SoundWiring(t, family, setName, action)
    ensures report.wiring.Absent? ==> !Referenced(t, STABLE) && !Referenced(t, STAGING)
    ensures report.enforcement.Verified? ==> SoundWiring(t, family, setName, action) && managedSet.state.Verified?
    ensures report.enforcement.Absent? ==> !Referenced(t, STABLE) && !Referenced(t, STAGING)
    ensures report.stable ==>
              report.wiring == (if SoundWiring(t, family, setName, action) then Verified else Absent)
              && report.setState == managedSet.state && report.entries == managedSet.entries
  {
    hide ParseWiring, ListingOf, OthersSilent, SoundWiring, Referenced, Snapshot;
    JudgedExactly(lines, t, family, setName, action);
    SnapshotVerdict(lines, t, family, setName, action);
    report := InspectFamily(Answers(managedSet, Some(lines), membership), after, target, family, setName, action);
  }

  lemma {:induction false} RulesAreTelling(lines: seq<Line>, chain: Token)
    requires chain == INPUT || chain == STABLE || chain == STAGING
    ensures RulesOf(Filter(lines, Telling), chain) == RulesOf(lines, chain)
  {
    if lines == [] {
    } else {
      RulesAreTelling(lines[1..], chain);
      assert Telling(lines[0]) ==> Filter(lines, Telling)[1..] == Filter(lines[1..], Telling);
    }
  }

  lemma {:induction false} SameLinesSameRules(a: seq<Spec>, b: seq<Spec>)
    requires RuleLines(INPUT, a) == RuleLines(INPUT, b)
    ensures a == b
  {
    assert |a| == |RuleLines(INPUT, a)| == |RuleLines(INPUT, b)| == |b|;
    forall i | 0 <= i < |a| ensures a[i] == b[i] {
      RuleLineInjective(INPUT, a[i], b[i]);
      assert RuleLines(INPUT, a)[i] == RuleLine(INPUT, a[i]) && RuleLines(INPUT, b)[i] == RuleLine(INPUT, b[i]);
    }
  }

  // Enforcement reported as verified: at both probes the kernel's table was soundly wired, its INPUT
  // rules with text were the same ones in the same order, and the listings agreed on the policy of
  // INPUT, the rules of the stable chain, and every line that refers to a managed chain.
  lemma VerifiedTwice(before: seq<Line>, after: seq<Line>, t: Table, u: Table, family: Family, setName: Token,
          action: ChainAction)
    requires ListingOf(before, t, family) && ListingOf(after, u, family)
    requires Snapshot(Some(before), family, setName, action).state.Verified?
    requires Snapshot(Some(before), family, setName, action) == Snapshot(Some(after), family, setName, action)
    ensures SoundWiring(t, family, setName, action) && SoundWiring(u, family, setName, action)
    ensures Visible(t.input) == Visible(u.input)
    ensures ["-P", "INPUT", "ACCEPT"] in before <==> ["-P", "INPUT", "ACCEPT"] in after
    ensures RulesOf(before, STABLE) == RulesOf(after, STABLE)
    ensures forall x :: Refers(x, STABLE) || Refers(x, STAGING) ==> (x in before <==> x in after)
  {
    hide ParseWiring, SoundWiring, ListingOf, Refers, Visible;
    VerifiedIsSound(before, t, family, setName, action);
    VerifiedIsSound(after, u, family, setName, action);
    NothingDropped(before, t, family);
    NothingDropped(after, u, family);
    RulesAreTelling(before, INPUT);
    RulesAreTelling(after, INPUT);
    RulesAreTelling(before, STABLE);
    RulesAreTelling(after, STABLE);
    FilterIn(before, Telling);
    FilterIn(after, Telling);
    assert Telling(["-P", INPUT, "ACCEPT"]);
    ListedInput(before, t, family);
    ListedInput(after, u, family);
    SameLinesSameRules(Visible(t.input), Visible(u.input));
  }
}
