// Reading the managed wiring back from a full `-S` listing.
module Inspection {
  import opened Xtables
  import opened Wiring
  import opened PacketPath
  import Recovery

  datatype Verification = Verified | Absent | Unknown

  datatype Family = Ipv4 | Ipv6

  function Filter(lines: seq<Line>, p: Line -> bool): seq<Line> {
    if lines == [] then []
    else if p(lines[0]) then [lines[0]] + Filter(lines[1..], p)
    else Filter(lines[1..], p)
  }

  predicate RefersToManagedChain(line: Line) { Refers(line, STABLE) || Refers(line, STAGING) }

  predicate InputPolicy(line: Line) { line == ["-P", INPUT, "ACCEPT"] || line == ["-P", INPUT, "DROP"] }

  predicate Recognised(line: Line) { |line| >= 2 && line[0] in {"-P", "-N", "-A"} }

  predicate NotEmpty(line: Line) { line != [] }

  predicate Malformed(line: Line) { !Recognised(line) }

  predicate StagingLine(line: Line) { line == ["-N", STAGING] || IsRuleOf(line, STAGING) }

  function RejectSuffix(family: Family): Spec {
    ["--reject-with", if family.Ipv4? then "icmp-port-unreachable" else "icmp6-port-unreachable"]
  }

  // The listed forms of the wanted rule.
  predicate ValidRule(line: Line, family: Family, setName: Token, action: ChainAction) {
    var expected := RuleLine(STABLE, WantedRule(setName, action));
    line == expected || (action.Reject? && line == expected + RejectSuffix(family))
  }

  function ParseWiring(contents: seq<Line>, family: Family, setName: Token, action: ChainAction): Verification {
    var lines := Filter(contents, NotEmpty);
    if |Filter(lines, InputPolicy)| != 1 || Filter(lines, Malformed) != [] then Unknown
    else
      var references := Filter(lines, RefersToManagedChain);
      if references == [] then Absent
      else
        var jump := RuleLine(INPUT, JumpTo(STABLE));
        var inputRules := RulesOf(lines, INPUT);
        var managedRules := RulesOf(lines, STABLE);
        if references == [jump] && inputRules != [] && inputRules[0] == jump
           && |managedRules| == 1 && ValidRule(managedRules[0], family, setName, action)
           && Filter(lines, StagingLine) == []
        then Verified else Unknown
  }

  // ---- What the kernel prints --------------------------------------------------------------

  predicate AppendTo(line: Line, chain: Token) { |line| >= 2 && line[0] == "-A" && line[1] == chain }

  function AppendsTo(lines: seq<Line>, chain: Token): seq<Line> {
    Filter(lines, (line: Line) => AppendTo(line, chain))
  }

  // The reason the kernel's reject target gives unless told otherwise.
  function DefaultReason(family: Family): Spec {
    match family
    case Ipv4 => ["--reject-with", "icmp-port-unreachable"]
    case Ipv6 => ["--reject-with", "icmp6-port-unreachable"]
  }

  // A rule is printed as it was given, except that the reject target shows its default reason.
  predicate PrintsAs(line: Line, spec: Spec, family: Family) {
    line == RuleLine(STABLE, spec)
    || (spec != [] && FinalToken(spec) == "REJECT" && line == RuleLine(STABLE, spec) + DefaultReason(family))
  }

  function FinalToken(spec: Spec): Token requires spec != [] { spec[|spec| - 1] }

  // Line `k`, and no other, gives the policy of INPUT.
  ghost predicate PolicyAt(lines: seq<Line>, k: int)
    requires 0 <= k < |lines|
  {
    && (lines[k] == ["-P", "INPUT", "ACCEPT"] || lines[k] == ["-P", "INPUT", "DROP"])
    && forall i :: 0 <= i < |lines| && i != k ==> !(|lines[i]| >= 2 && lines[i][0] == "-P" && lines[i][1] == "INPUT")
  }

  // `lines` is a full listing of a table with these chains, in whatever order the kernel keeps
  // them. The other built-in chains may hold anything.
  ghost predicate ListingOf(lines: seq<Line>, t: Table, family: Family) {
    && (forall i :: 0 <= i < |lines| ==> |lines[i]| >= 2 && lines[i][0] in {"-P", "-N", "-A"})
    && (forall i :: 0 <= i < |lines| && lines[i][0] == "-P" ==> |lines[i]| == 3 && lines[i][1] in BUILTIN_CHAINS)
    && (exists k :: 0 <= k < |lines| && PolicyAt(lines, k))
    && INPUT !in t.chains && (forall c :: c in t.chains ==> c !in JUMP_WORDS)
    && (forall i :: 0 <= i < |lines| && lines[i][0] == "-N" ==> |lines[i]| == 2 && lines[i][1] in t.chains)
    && (STAGING in t.chains ==> ["-N", STAGING] in lines)
    && (forall i :: 0 <= i < |lines| && lines[i][0] == "-A" ==>
      lines[i][1] in t.chains || lines[i][1] in BUILTIN_CHAINS)
    && AppendsTo(lines, INPUT) == RuleLines(INPUT, t.input)
    && (forall c :: c in t.chains && c != STABLE ==> AppendsTo(lines, c) == RuleLines(c, t.chains[c]))
    && (STABLE in t.chains ==>
          var stable := AppendsTo(lines, STABLE);
          && |stable| == |t.chains[STABLE]|
          && forall i :: 0 <= i < |stable| ==> PrintsAs(stable[i], t.chains[STABLE][i], family))
  }

  // The rules of the other built-in chains leave Kidobo alone.
  predicate OthersSilent(lines: seq<Line>) {
    forall x :: x in lines && (AppendTo(x, "FORWARD") || AppendTo(x, "OUTPUT")) ==>
                  !Refers(x, STABLE) && !Refers(x, STAGING)
  }

  // ---- Filters -----------------------------------------------------------------------------

  lemma {:induction false} FilterIn(lines: seq<Line>, p: Line -> bool)
    ensures forall x :: x in Filter(lines, p) <==> x in lines && p(x)
    ensures (forall x :: x in lines ==> p(x)) ==> Filter(lines, p) == lines
    ensures (forall x :: x in lines ==> !p(x)) ==> Filter(lines, p) == []
  {
    if lines == [] {
    } else {
      FilterIn(lines[1..], p);
    }
  }

  // Filtering in two steps, when the first lets everything of the second through.
  lemma {:induction false} FilterTwice(lines: seq<Line>, p: Line -> bool, q: Line -> bool)
    requires forall x :: x in lines && q(x) ==> p(x)
    ensures Filter(Filter(lines, p), q) == Filter(lines, q)
  {
    if lines == [] {
    } else {
      FilterTwice(lines[1..], p, q);
      if p(lines[0]) { assert Filter(lines, p)[1..] == Filter(lines[1..], p); }
    }
  }

  lemma {:induction false} RulesOfAppends(lines: seq<Line>, chain: Token)
    ensures RulesOf(AppendsTo(lines, chain), chain) == RulesOf(lines, chain)
  {
    if lines == [] {
    } else {
      RulesOfAppends(lines[1..], chain);
      TailAppends(lines, chain);
    }
  }

  lemma TailAppends(lines: seq<Line>, chain: Token)
    requires lines != []
    ensures AppendsTo(lines, chain) ==
            if AppendTo(lines[0], chain) then [lines[0]] + AppendsTo(lines[1..], chain)
              else AppendsTo(lines[1..], chain)
  {
  }

  lemma AppendsIn(lines: seq<Line>, chain: Token)
    ensures forall x :: x in AppendsTo(lines, chain) <==> x in lines && AppendTo(x, chain)
  {
    FilterIn(lines, (line: Line) => AppendTo(line, chain));
  }

  // A rule's listed line refers to a managed chain exactly when its text does.
  lemma LineRefers(chain: Token, spec: Spec, suffix: Spec, target: Token)
    requires chain !in JUMP_WORDS
    requires suffix == []
             || (|suffix| == 2 && suffix[0] == "--reject-with" && suffix[1] != target && spec != []
             && FinalToken(spec) == "REJECT")
    ensures Refers(RuleLine(chain, spec) + suffix, target) <==> Refers(spec, target)
  {
    var line := RuleLine(chain, spec) + suffix;
    assert "-A" !in JUMP_WORDS by {
      assert "-A"[1] == 'A' && "-j"[1] == 'j' && "-g"[1] == 'g' && |"--jump"| == 6 && |"--goto"| == 6;
    }
    assert "REJECT" !in JUMP_WORDS by {
      assert "REJECT"[0] == 'R' && |"-j"| == 2 && |"-g"| == 2 && "--jump"[0] == '-' && "--goto"[0] == '-';
    }
    assert "--reject-with" !in JUMP_WORDS by {
      assert |"--reject-with"| == 13 && |"-j"| == 2 && |"-g"| == 2 && |"--jump"| == 6 && |"--goto"| == 6;
    }
    if Refers(spec, target) {
      var i :| 0 <= i < |spec| - 1 && spec[i] in JUMP_WORDS && spec[i + 1] == target;
      assert line[i + 2] == spec[i] && line[i + 3] == spec[i + 1];
    }
    if Refers(line, target) {
      var i :| 0 <= i < |line| - 1 && line[i] in JUMP_WORDS && line[i + 1] == target;
      assert i >= 2;
      if i + 1 < |spec| + 2 {
        assert line[i] == spec[i - 2] && line[i + 1] == spec[i - 1];
      }
    }
  }

  lemma InputLinesRefer(rules: seq<Spec>)
    ensures forall i :: 0 <= i < |rules| ==>
              (RefersToManagedChain(RuleLines(INPUT, rules)[i]) <==>
                Refers(rules[i], STABLE) || Refers(rules[i], STAGING))
  {
    forall i | 0 <= i < |rules|
      ensures RefersToManagedChain(RuleLines(INPUT, rules)[i]) <==>
              Refers(rules[i], STABLE) || Refers(rules[i], STAGING)
    {
      assert RuleLines(INPUT, rules)[i] == RuleLine(INPUT, rules[i]) + [];
      assert INPUT !in JUMP_WORDS by {
        assert |INPUT| == 5 && |"-j"| == 2 && |"-g"| == 2 && |"--jump"| == 6 && |"--goto"| == 6;
      }
      LineRefers(INPUT, rules[i], [], STABLE);
      LineRefers(INPUT, rules[i], [], STAGING);
    }
  }

  predicate Silent(rules: seq<Spec>) { !AnyRefers(rules, STABLE) && !AnyRefers(rules, STAGING) }

  lemma SilentTail(rules: seq<Spec>)
    requires Silent(rules) && rules != []
    ensures !Refers(rules[0], STABLE) && !Refers(rules[0], STAGING) && Silent(rules[1..])
  {
    hide Refers;
    assert forall i :: 0 <= i < |rules[1..]| ==> rules[1..][i] == rules[i + 1];
  }

  // If no foreign rule refers to Kidobo, the referring INPUT lines are the managed jumps.
  lemma {:induction false} ReferringInput(rules: seq<Spec>)
    requires Silent(Foreign(rules))
    ensures Filter(RuleLines(INPUT, rules), RefersToManagedChain) == RuleLines(INPUT, Managed(rules))
  {
    if rules == [] {
    } else {
      var lines := RuleLines(INPUT, rules);
      InputLinesRefer(rules);
      JumpRefers(STABLE);
      JumpRefers(STAGING);
      assert lines[1..] == RuleLines(INPUT, rules[1..]);
      if ManagedJump(rules[0]) {
        hide Refers, RuleLine, AnyRefers;
        ReferringInput(rules[1..]);
        assert RuleLines(INPUT, Managed(rules)) == [lines[0]] + RuleLines(INPUT, Managed(rules[1..]));
      } else {
        SilentTail(Foreign(rules));
        hide Refers, RuleLine, AnyRefers, JumpTo;
        assert Foreign(rules)[1..] == Foreign(rules[1..]);
        ReferringInput(rules[1..]);
      }
    }
  }

  lemma {:induction false} ManagedVisible(rules: seq<Spec>)
    ensures Managed(Visible(rules)) == Managed(rules)
  {
    if rules == [] {
    } else {
      ManagedVisible(rules[1..]);
      if rules[0] != [] { assert Visible(rules)[1..] == Visible(rules[1..]); }
    }
  }

  lemma {:induction false} ManagedNone(rules: seq<Spec>)
    ensures Managed(rules) == [] <==> JumpTo(STABLE) !in rules && JumpTo(STAGING) !in rules
  {
    if rules == [] {
    } else {
      ManagedNone(rules[1..]);
    }
  }

  // "The stable jump comes first, and there is no other" in terms of the managed jumps.
  lemma FirstAndOnlyManaged(input: seq<Spec>)
    ensures FirstAndOnly(input) <==>
              Visible(input) != [] && Visible(input)[0] == JumpTo(STABLE) && Managed(input) == [JumpTo(STABLE)]
  {
    Names();
    var v := Visible(input);
    VisibleFacts(input);
    ManagedVisible(input);
    if v != [] && v[0] == JumpTo(STABLE) {
      assert Managed(v) == [JumpTo(STABLE)] + Managed(v[1..]);
      assert Managed(v)[1..] == Managed(v[1..]);
      ManagedNone(v[1..]);
      assert v == [v[0]] + v[1..];
    }
  }

  // ---- Reading the listing is exact --------------------------------------------------------

  // What "verified" is meant to say about the kernel's table.
  predicate SoundWiring(t: Table, family: Family, setName: Token, action: ChainAction) {
    && FirstAndOnly(t.input) && Unshared(t, STABLE) && Unshared(t, STAGING) && STAGING !in t.chains
    && STABLE in t.chains && |Visible(t.chains[STABLE])| == 1
    && WantedForm(Visible(t.chains[STABLE])[0], family, setName, action)
  }

  predicate WantedForm(spec: Spec, family: Family, setName: Token, action: ChainAction) {
    || spec == WantedRule(setName, action)
    || (action.Reject? && spec == WantedRule(setName, action) + DefaultReason(family))
  }

  lemma PrintedForm(line: Line, spec: Spec, family: Family, setName: Token, action: ChainAction)
    requires PrintsAs(line, spec, family)
    ensures ValidRule(line, family, setName, action) <==> WantedForm(spec, family, setName, action)
    ensures IsRuleOf(line, STABLE) <==> spec != []
  {
    var wanted := WantedRule(setName, action);
    var suffix := DefaultReason(family);
    RuleLineInjective(STABLE, spec, wanted);
    RuleLineInjective(STABLE, spec, wanted + suffix);
    assert RuleLine(STABLE, wanted) + suffix == RuleLine(STABLE, wanted + suffix);
    assert |suffix[1]| > 6 && |FinalToken(wanted)| <= 6;
    if spec != [] && FinalToken(spec) == "REJECT" && line == RuleLine(STABLE, spec) + suffix {
      assert FinalToken(line) == suffix[1];
      assert line[..|line| - 2] == RuleLine(STABLE, spec);
      assert FinalToken(RuleLine(STABLE, wanted)) == FinalToken(wanted);
      if line == RuleLine(STABLE, wanted) + suffix {
        assert RuleLine(STABLE, wanted) == line[..|line| - 2];
        assert FinalToken(wanted) == "REJECT";
      }
    }
  }

  lemma {:induction false} PrintedRules(lines: seq<Line>, rules: seq<Spec>, family: Family)
    requires |lines| == |rules| && forall i :: 0 <= i < |lines| ==> PrintsAs(lines[i], rules[i], family)
    ensures var r := RulesOf(lines, STABLE);
            |r| == |Visible(rules)| && forall i :: 0 <= i < |r| ==> PrintsAs(r[i], Visible(rules)[i], family)
  {
    if rules == [] {
    } else {
      PrintedRules(lines[1..], rules[1..], family);
      PrintedForm(lines[0], rules[0], family, "", Drop);
    }
  }

  lemma ListedName(lines: seq<Line>, t: Table, family: Family, x: Line, c: Token)
    requires ListingOf(lines, t, family) && x in lines && (x == ["-N", c] || AppendTo(x, c))
    ensures c in t.chains || c in BUILTIN_CHAINS
    ensures x == ["-N", c] ==> c in t.chains
  {
    var i :| 0 <= i < |lines| && lines[i] == x;
    assert lines[i][1] == c;
  }

  lemma StagingShows(lines: seq<Line>, t: Table, family: Family)
    requires ListingOf(lines, t, family)
    ensures Filter(lines, StagingLine) == [] <==> STAGING !in t.chains
  {
    assert STAGING in t.chains ==> ["-N", STAGING] in lines;
    hide ListingOf, Filter;
    FilterIn(lines, StagingLine);
    assert STAGING !in BUILTIN_CHAINS by { assert |STAGING| == 18 && forall b :: b in BUILTIN_CHAINS ==> |b| <= 7; }
    if STAGING in t.chains {
      assert StagingLine(["-N", STAGING]);
    } else {
      forall x | x in lines ensures !StagingLine(x) {
        if StagingLine(x) { ListedName(lines, t, family, x, STAGING); }
      }
    }
  }

  // A rule line of a user chain refers to Kidobo only if one of the chain's rules does.
  lemma ChainLineRefers(lines: seq<Line>, t: Table, family: Family, c: Token, x: Line, target: Token)
    requires ListingOf(lines, t, family) && c in t.chains && x in lines && AppendTo(x, c)
    requires target == STABLE || target == STAGING
    ensures Refers(x, target) ==> AnyRefers(t.chains[c], target)
  {
    AppendsIn(lines, c);
    var appends := AppendsTo(lines, c);
    var i :| 0 <= i < |appends| && appends[i] == x;
    var spec := t.chains[c][i];
    assert |STABLE| == 12 && |STAGING| == 18;
    LineRefers(c, spec, [], target);
    assert RuleLine(c, spec) + [] == RuleLine(c, spec);
    if c == STABLE && x != RuleLine(c, spec) { LineRefers(c, spec, DefaultReason(family), target); }
  }

  // Chain and policy lines refer to nothing.
  lemma PlainLine(x: Line, target: Token)
    requires (|x| == 2 && x[0] == "-N") || (|x| == 3 && x[0] == "-P" && x[1] in BUILTIN_CHAINS)
    ensures !Refers(x, target)
  {
    assert "-N" !in JUMP_WORDS && "-P" !in JUMP_WORDS by {
      assert "-N"[1] == 'N' && "-P"[1] == 'P' && "-j"[1] == 'j' && "-g"[1] == 'g' && |"--jump"| == 6 && |"--goto"| == 6;
    }
    assert x[0] == "-P" ==> x[1] !in JUMP_WORDS by {
      assert x[0] == "-P" ==> x[1][0] in {'I', 'F', 'O'};
      assert "-j"[0] == '-' && "-g"[0] == '-' && "--jump"[0] == '-' && "--goto"[0] == '-';
    }
  }

  // In a table where only INPUT refers to Kidobo, so do the lines of its listing.
  lemma ReferencesAreInput(lines: seq<Line>, t: Table, family: Family)
    requires ListingOf(lines, t, family) && OthersSilent(lines)
    requires forall c :: c in t.chains ==> Silent(t.chains[c])
    requires Silent(Foreign(t.input))
    ensures Filter(lines, RefersToManagedChain) == RuleLines(INPUT, Managed(t.input))
  {
    forall x | x in lines && RefersToManagedChain(x) ensures AppendTo(x, INPUT) {
      var i :| 0 <= i < |lines| && lines[i] == x;
      assert Recognised(lines[i]);
      if x[0] != "-A" {
        PlainLine(x, STABLE);
        PlainLine(x, STAGING);
      }
      if x[0] == "-A" && x[1] in t.chains {
        ChainLineRefers(lines, t, family, x[1], x, STABLE);
        ChainLineRefers(lines, t, family, x[1], x, STAGING);
      }
    }
    FilterTwice(lines, (line: Line) => AppendTo(line, INPUT), RefersToManagedChain);
    ReferringInput(t.input);
  }

  lemma {:induction false} ForeignIn(rules: seq<Spec>)
    ensures forall s :: s in Foreign(rules) <==> s in rules && !ManagedJump(s)
  {
    if rules == [] {
    } else {
      ForeignIn(rules[1..]);
    }
  }

  // If the stable jump's line is the only one that refers to Kidobo, nothing else does.
  lemma OnlyReference(lines: seq<Line>, t: Table, family: Family)
    requires ListingOf(lines, t, family)
    requires Filter(lines, RefersToManagedChain) == [RuleLine(INPUT, JumpTo(STABLE))]
    ensures Unshared(t, STABLE) && Unshared(t, STAGING) && Managed(t.input) == [JumpTo(STABLE)]
  {
    var jump := RuleLine(INPUT, JumpTo(STABLE));
    FilterIn(lines, RefersToManagedChain);
    AppendsIn(lines, INPUT);
    InputLinesRefer(t.input);
    ForeignIn(t.input);
    forall i | 0 <= i < |Foreign(t.input)|
      ensures !Refers(Foreign(t.input)[i], STABLE) && !Refers(Foreign(t.input)[i], STAGING)
    {
      var spec := Foreign(t.input)[i];
      assert spec in Foreign(t.input);
      var k :| 0 <= k < |t.input| && t.input[k] == spec;
      assert RuleLines(INPUT, t.input)[k] in AppendsTo(lines, INPUT);
      RuleLineInjective(INPUT, spec, JumpTo(STABLE));
    }
    forall c | c in Others(t) ensures Silent(Others(t)[c]) {
      AppendsIn(lines, c);
      forall i | 0 <= i < |t.chains[c]| ensures !Refers(t.chains[c][i], STABLE) && !Refers(t.chains[c][i], STAGING) {
        var x := RuleLine(c, t.chains[c][i]);
        assert x == RuleLines(c, t.chains[c])[i] && x in AppendsTo(lines, c);
        assert RuleLine(c, t.chains[c][i]) + [] == x;
        LineRefers(c, t.chains[c][i], [], STABLE);
        LineRefers(c, t.chains[c][i], [], STAGING);
        assert RefersToManagedChain(x) ==> x == jump;
      }
    }
    FilterTwice(lines, (line: Line) => AppendTo(line, INPUT), RefersToManagedChain);
    ReferringInput(t.input);
    assert |Managed(t.input)| == 1;
    RuleLineInjective(INPUT, Managed(t.input)[0], JumpTo(STABLE));
  }

  lemma {:induction false} RulesOfIn(lines: seq<Line>, chain: Token)
    ensures forall x :: x in RulesOf(lines, chain) <==> x in lines && IsRuleOf(x, chain)
  {
    if lines == [] {
    } else {
      RulesOfIn(lines[1..], chain);
    }
  }

  lemma NothingDropped(lines: seq<Line>, t: Table, family: Family)
    requires ListingOf(lines, t, family)
    ensures Filter(lines, NotEmpty) == lines && Filter(lines, Malformed) == [] && |Filter(lines, InputPolicy)| == 1
  {
    FilterIn(lines, NotEmpty);
    FilterIn(lines, Malformed);
    forall x | x in lines ensures NotEmpty(x) && !Malformed(x) {
      var i :| 0 <= i < |lines| && lines[i] == x;
      assert Recognised(lines[i]);
    }
    var k :| 0 <= k < |lines| && PolicyAt(lines, k);
    OnePolicy(lines, k);
  }

  lemma {:induction false} OnePolicy(lines: seq<Line>, k: nat)
    requires k < |lines| && PolicyAt(lines, k)
    ensures |Filter(lines, InputPolicy)| == 1
  {
    var rest := lines[1..];
    if k == 0 {
      FilterIn(rest, InputPolicy);
      forall x | x in rest ensures !InputPolicy(x) {
        var i :| 0 <= i < |rest| && rest[i] == x;
        assert lines[i + 1] == x;
      }
    } else {
      assert forall i :: 0 <= i < |rest| ==> rest[i] == lines[i + 1];
      OnePolicy(rest, k - 1);
    }
  }

  lemma ListedInput(lines: seq<Line>, t: Table, family: Family)
    requires ListingOf(lines, t, family)
    ensures RulesOf(lines, INPUT) == RuleLines(INPUT, Visible(t.input))
  {
    RulesOfAppends(lines, INPUT);
    RulesOfListing(t.input, INPUT);
  }

  lemma ListedStable(lines: seq<Line>, t: Table, family: Family, setName: Token, action: ChainAction)
    requires ListingOf(lines, t, family)
    ensures var r := RulesOf(lines, STABLE);
            (|r| == 1 && ValidRule(r[0], family, setName, action)) <==>
            (STABLE in t.chains && |Visible(t.chains[STABLE])| == 1
             && WantedForm(Visible(t.chains[STABLE])[0], family, setName, action))
  {
    var r := RulesOf(lines, STABLE);
    assert STABLE !in BUILTIN_CHAINS by { assert |STABLE| == 12 && forall b :: b in BUILTIN_CHAINS ==> |b| <= 7; }
    if STABLE in t.chains {
      RulesOfAppends(lines, STABLE);
      PrintedRules(AppendsTo(lines, STABLE), t.chains[STABLE], family);
      if |r| == 1 { PrintedForm(r[0], Visible(t.chains[STABLE])[0], family, setName, action); }
    } else if r != [] {
      RulesOfIn(lines, STABLE);
      assert r[0] in r;
      ListedName(lines, t, family, r[0], STABLE);
    }
  }

  lemma WantedFormIsPlain(spec: Spec, family: Family, setName: Token, action: ChainAction)
    requires WantedForm(spec, family, setName, action)
    ensures !Refers(spec, STABLE) && !Refers(spec, STAGING)
  {
    var wanted := WantedRule(setName, action);
    WantedRuleIsPlain(setName, action);
    if spec != wanted {
      assert |DefaultReason(family)[1]| > 18 && |STABLE| == 12 && |STAGING| == 18;
      LineRefers(STABLE, wanted, DefaultReason(family), STABLE);
      LineRefers(STABLE, wanted, DefaultReason(family), STAGING);
      LineRefers(STABLE, spec, [], STABLE);
      LineRefers(STABLE, spec, [], STAGING);
      assert RuleLine(STABLE, wanted) + DefaultReason(family) == RuleLine(STABLE, spec) + [];
    }
  }

  lemma OnlyVisibleRefers(rules: seq<Spec>, target: Token)
    requires |Visible(rules)| == 1 && !Refers(Visible(rules)[0], target)
    ensures !AnyRefers(rules, target)
  {
    VisibleFacts(rules);
    forall i | 0 <= i < |rules| ensures !Refers(rules[i], target) {
      if rules[i] != [] { assert rules[i] in Visible(rules); }
    }
  }

  lemma ChainsSilent(t: Table, family: Family, setName: Token, action: ChainAction)
    requires SoundWiring(t, family, setName, action)
    ensures forall c :: c in t.chains ==> Silent(t.chains[c])
  {
    WantedFormIsPlain(Visible(t.chains[STABLE])[0], family, setName, action);
    OnlyVisibleRefers(t.chains[STABLE], STABLE);
    OnlyVisibleRefers(t.chains[STABLE], STAGING);
    forall c | c in t.chains && c != STABLE ensures Silent(t.chains[c]) {
      assert c in Others(t) && Others(t)[c] == t.chains[c];
    }
  }

  // A full listing is judged verified exactly when the kernel's table is soundly wired.
  lemma VerifiedExactly(lines: seq<Line>, t: Table, family: Family, setName: Token, action: ChainAction)
    requires ListingOf(lines, t, family) && OthersSilent(lines)
    ensures ParseWiring(lines, family, setName, action).Verified? <==> SoundWiring(t, family, setName, action)
  {
    NothingDropped(lines, t, family);
    ListedInput(lines, t, family);
    ListedStable(lines, t, family, setName, action);
    StagingShows(lines, t, family);
    FirstAndOnlyManaged(t.input);
    var jump := RuleLine(INPUT, JumpTo(STABLE));
    var v := Visible(t.input);
    if v != [] { RuleLineInjective(INPUT, v[0], JumpTo(STABLE)); }
    if SoundWiring(t, family, setName, action) {
      ChainsSilent(t, family, setName, action);
      ReferencesAreInput(lines, t, family);
      assert RuleLines(INPUT, [JumpTo(STABLE)]) == [jump];
    }
    if Filter(lines, RefersToManagedChain) == [jump] {
      OnlyReference(lines, t, family);
    }
  }

  // Every rule of the table shows in the listing as a line that refers to Kidobo exactly if it does.
  lemma RuleShows(lines: seq<Line>, t: Table, family: Family, c: Token, i: nat, target: Token)
    requires ListingOf(lines, t, family) && c in t.chains && i < |t.chains[c]|
    requires target == STABLE || target == STAGING
    ensures exists x :: x in lines && (Refers(x, target) <==> Refers(t.chains[c][i], target))
  {
    AppendsIn(lines, c);
    var spec := t.chains[c][i];
    var x := AppendsTo(lines, c)[i];
    assert x in AppendsTo(lines, c);
    assert c != STABLE ==> x == RuleLines(c, t.chains[c])[i];
    assert |STABLE| == 12 && |STAGING| == 18;
    LineRefers(c, spec, [], target);
    assert RuleLine(c, spec) + [] == RuleLine(c, spec);
    if x != RuleLine(c, spec) { LineRefers(c, spec, DefaultReason(family), target); }
  }

  lemma InputShows(lines: seq<Line>, t: Table, family: Family, i: nat)
    requires ListingOf(lines, t, family) && i < |t.input|
    ensures exists x :: x in lines
                        && (RefersToManagedChain(x) <==> Refers(t.input[i], STABLE) || Refers(t.input[i], STAGING))
  {
    AppendsIn(lines, INPUT);
    InputLinesRefer(t.input);
    assert RuleLines(INPUT, t.input)[i] in AppendsTo(lines, INPUT);
  }

  // No rule of the kernel's table leads into a managed chain.
  predicate Unreferenced(t: Table) { !Referenced(t, STABLE) && !Referenced(t, STAGING) }

  lemma NoLineNoReference(lines: seq<Line>, t: Table, family: Family)
    requires ListingOf(lines, t, family) && forall x :: x in lines ==> !RefersToManagedChain(x)
    ensures Unreferenced(t)
  {
    hide ListingOf, Refers;
    forall i | 0 <= i < |t.input| ensures !Refers(t.input[i], STABLE) && !Refers(t.input[i], STAGING) {
      InputShows(lines, t, family, i);
    }
    forall c | c in t.chains ensures Silent(t.chains[c]) {
      forall i | 0 <= i < |t.chains[c]| ensures !Refers(t.chains[c][i], STABLE) && !Refers(t.chains[c][i], STAGING) {
        RuleShows(lines, t, family, c, i, STABLE);
        RuleShows(lines, t, family, c, i, STAGING);
      }
    }
  }

  lemma NoReferenceNoLine(lines: seq<Line>, t: Table, family: Family)
    requires ListingOf(lines, t, family) && OthersSilent(lines) && Unreferenced(t)
    ensures forall x :: x in lines ==> !RefersToManagedChain(x)
  {
    AppendsIn(lines, INPUT);
    InputLinesRefer(t.input);
    forall x | x in lines ensures !RefersToManagedChain(x) {
      var k :| 0 <= k < |lines| && lines[k] == x;
      assert |lines[k]| >= 2 && lines[k][0] in {"-P", "-N", "-A"};
      if x[0] != "-A" {
        PlainLine(x, STABLE);
        PlainLine(x, STAGING);
      } else if x[1] in t.chains {
        ChainLineRefers(lines, t, family, x[1], x, STABLE);
        ChainLineRefers(lines, t, family, x[1], x, STAGING);
      } else if x[1] == INPUT {
        assert x in AppendsTo(lines, INPUT);
      }
    }
  }

  // Which of the three verdicts a full listing gets, in terms of the kernel's table: absent exactly
  // when no rule anywhere leads into a managed chain, verified exactly when it is soundly wired,
  // and unknown in every other case.
  lemma JudgedExactly(lines: seq<Line>, t: Table, family: Family, setName: Token, action: ChainAction)
    requires ListingOf(lines, t, family) && OthersSilent(lines)
    ensures var verdict := ParseWiring(lines, family, setName, action);
            && (verdict.Absent? <==> !Referenced(t, STABLE) && !Referenced(t, STAGING))
            && (verdict.Verified? <==> SoundWiring(t, family, setName, action))
            && (verdict.Unknown? <==>
                  (Referenced(t, STABLE) || Referenced(t, STAGING)) && !SoundWiring(t, family, setName, action))
  {
    VerifiedExactly(lines, t, family, setName, action);
    NothingDropped(lines, t, family);
    FilterIn(lines, RefersToManagedChain);
    hide ListingOf, OthersSilent, SoundWiring, Referenced, RefersToManagedChain;
    if Filter(lines, RefersToManagedChain) == [] {
      NoLineNoReference(lines, t, family);
    } else if Unreferenced(t) {
      NoReferenceNoLine(lines, t, family);
    }
  }

  // Absence needs nothing of the other built-in chains.
  lemma AbsentIsUnreferenced(lines: seq<Line>, t: Table, family: Family, setName: Token, action: ChainAction)
    requires ListingOf(lines, t, family) && ParseWiring(lines, family, setName, action).Absent?
    ensures !Referenced(t, STABLE) && !Referenced(t, STAGING)
  {
    NothingDropped(lines, t, family);
    FilterIn(lines, RefersToManagedChain);
    NoLineNoReference(lines, t, family);
  }

  // A listing in which some line is neither a policy, a chain nor a rule, or that does not give
  // the policy of INPUT exactly once, is never taken for an answer.
  lemma UnreadableIsUnknown(contents: seq<Line>, family: Family, setName: Token, action: ChainAction)
    ensures (exists x :: x in contents && x != [] && !(|x| >= 2 && x[0] in {"-P", "-N", "-A"})) ==>
              ParseWiring(contents, family, setName, action).Unknown?
    ensures ["-P", "INPUT", "ACCEPT"] !in contents && ["-P", "INPUT", "DROP"] !in contents ==>
              ParseWiring(contents, family, setName, action).Unknown?
    ensures (exists i, j :: 0 <= i < j < |contents| && InputPolicy(contents[i]) && InputPolicy(contents[j])) ==>
              ParseWiring(contents, family, setName, action).Unknown?
  {
    var lines := Filter(contents, NotEmpty);
    FilterIn(contents, NotEmpty);
    FilterIn(lines, Malformed);
    FilterIn(lines, InputPolicy);
    FilterTwice(contents, NotEmpty, InputPolicy);
    if x :| x in contents && x != [] && !(|x| >= 2 && x[0] in {"-P", "-N", "-A"}) {
      assert x in Filter(lines, Malformed);
    }
    if Filter(lines, InputPolicy) != [] { assert Filter(lines, InputPolicy)[0] in Filter(lines, InputPolicy); }
    if i, j :| 0 <= i < j < |contents| && InputPolicy(contents[i]) && InputPolicy(contents[j]) {
      TwoPolicies(contents, i, j);
    }
  }

  lemma {:induction false} TwoPolicies(lines: seq<Line>, i: nat, j: nat)
    requires i < j < |lines| && InputPolicy(lines[i]) && InputPolicy(lines[j])
    ensures |Filter(lines, InputPolicy)| >= 2
  {
    if i == 0 {
      FilterIn(lines[1..], InputPolicy);
      assert lines[1..][j - 1] == lines[j];
      assert lines[j] in Filter(lines[1..], InputPolicy);
    } else {
      TwoPolicies(lines[1..], i - 1, j - 1);
    }
  }

  // Rules that are not Kidobo's go to a managed chain only by naming it after a jump word.
  ghost predicate Honest(others: OtherRules) {
    forall spec: Spec, p: Packet, c: Token :: c in {STABLE, STAGING} && others(spec, p) in {Enter(c), Goto(c)} ==>
      Refers(spec, c)
  }

  lemma MeaningRefers(spec: Spec, p: Packet, others: OtherRules, c: Token)
    requires Honest(others) && (c == STABLE || c == STAGING)
    requires Meaning(spec, p, others) == Enter(c) || Meaning(spec, p, others) == Goto(c)
    ensures Refers(spec, c)
  {
    if spec != [] && |spec| == 2 && spec[0] == "-j" {
      assert spec[0] in JUMP_WORDS && spec[1] == c;
    } else if IsSetRule(spec) {
      assert spec[5] == spec[4..6][1] == "-j";
      assert spec[5] in JUMP_WORDS && spec[6] == c;
    }
  }

  lemma {:induction false} UnreachedChains(t: Table, rules: seq<Spec>, p: Packet, others: OtherRules, depth: nat)
    requires Honest(others) && Silent(rules) && forall c :: c in t.chains ==> Silent(t.chains[c])
    ensures Walk(t, rules, p, others, depth) == Walk(t.(chains := Others(t)), rules, p, others, depth)
    decreases depth, |rules|
  {
    hide Refers, Meaning, Honest;
    if rules == [] {
    } else {
      var act := Meaning(rules[0], p, others);
      assert forall i :: 0 <= i < |rules[1..]| ==> rules[1..][i] == rules[i + 1];
      UnreachedChains(t, rules[1..], p, others, depth);
      if act == Enter(STABLE) || act == Goto(STABLE) { MeaningRefers(rules[0], p, others, STABLE); }
      if act == Enter(STAGING) || act == Goto(STAGING) { MeaningRefers(rules[0], p, others, STAGING); }
      if act.Enter? || act.Goto? {
        assert act.chain != STABLE && act.chain != STAGING;
        assert act.chain in t.chains <==> act.chain in Others(t);
        if depth > 0 && act.chain in t.chains { UnreachedChains(t, t.chains[act.chain], p, others, depth - 1); }
      }
    }
  }

  // A listing judged absent: no packet's fate depends on the managed chains; taking them away
  // changes nothing for anybody.
  lemma AbsentIsInert(lines: seq<Line>, t: Table, family: Family, setName: Token, action: ChainAction, p: Packet,
                      others: OtherRules, depth: nat)
    requires ListingOf(lines, t, family) && ParseWiring(lines, family, setName, action).Absent? && Honest(others)
    ensures Walk(t, t.input, p, others, depth) == Walk(Table(t.input, Others(t)), t.input, p, others, depth)
  {
    AbsentIsUnreferenced(lines, t, family, setName, action);
    UnreachedChains(t, t.input, p, others, depth);
  }

  // Soundness needs nothing of the other built-in chains.
  lemma VerifiedIsSound(lines: seq<Line>, t: Table, family: Family, setName: Token, action: ChainAction)
    requires ListingOf(lines, t, family) && ParseWiring(lines, family, setName, action).Verified?
    ensures SoundWiring(t, family, setName, action)
  {
    NothingDropped(lines, t, family);
    ListedInput(lines, t, family);
    ListedStable(lines, t, family, setName, action);
    StagingShows(lines, t, family);
    FirstAndOnlyManaged(t.input);
    RuleLineInjective(INPUT, Visible(t.input)[0], JumpTo(STABLE));
    OnlyReference(lines, t, family);
  }

  lemma {:induction false} WalkVisible(t: Table, rules: seq<Spec>, p: Packet, others: OtherRules, depth: nat)
    ensures Walk(t, rules, p, others, depth) == Walk(t, Visible(rules), p, others, depth)
    decreases |rules|
  {
    if rules == [] {
    } else {
      WalkVisible(t, rules[1..], p, others, depth);
      if rules[0] != [] { assert Visible(rules)[1..] == Visible(rules[1..]); }
    }
  }

  lemma WantedFormDecides(t: Table, spec: Spec, family: Family, setName: Token, action: ChainAction,
                          p: Packet, others: OtherRules, depth: nat)
    requires WantedForm(spec, family, setName, action) && setName in p.sets
    ensures Walk(t, [spec], p, others, depth) == Decided(if action.Drop? then "DROP" else "REJECT")
  {
    assert spec[..3] == ["-m", "set", "--match-set"] && spec[4..6] == ["src", "-j"] && spec[6] == AsTarget(action);
    assert IsSetRule(spec) && spec[3] == setName;
  }

  // Any listing judged verified: every packet from the set is dropped or rejected, as configured,
  // at the first INPUT rule, whatever comes after it.
  lemma VerifiedBlocksMembers(lines: seq<Line>, t: Table, family: Family, setName: Token, action: ChainAction,
                              p: Packet, others: OtherRules, depth: nat, rest: seq<Spec>)
    requires ListingOf(lines, t, family) && ParseWiring(lines, family, setName, action).Verified?
    requires setName in p.sets && depth >= 1
    ensures Visible(t.input) != []
    ensures var fate := Decided(if action.Drop? then "DROP" else "REJECT");
            && Walk(t, [Visible(t.input)[0]] + rest, p, others, depth) == fate
            && Walk(t, t.input, p, others, depth) == fate
  {
    hide ParseWiring, ListingOf, WantedForm, Unshared, Meaning;
    VerifiedIsSound(lines, t, family, setName, action);
    var rules := t.chains[STABLE];
    var v := Visible(t.input);
    WalkVisible(t, rules, p, others, depth - 1);
    assert Visible(rules) == [Visible(rules)[0]];
    WantedFormDecides(t, Visible(rules)[0], family, setName, action, p, others, depth - 1);
    JumpActs(STABLE, p, others);
    assert ([v[0]] + rest)[0] == v[0];
    WalkVisible(t, t.input, p, others, depth);
  }

  // The table a successful undisturbed wiring run leaves is soundly wired.
  lemma CanonicalIsSound(before: Table, family: Family, setName: Token, action: ChainAction)
    requires IsOrderly(before)
    ensures SoundWiring(Canonical(before, WantedRule(setName, action)), family, setName, action)
  {
    var t := Canonical(before, WantedRule(setName, action));
    Names();
    NoJumpsLeft(before.input);
    VisibleFacts(Foreign(before.input));
    assert t.input[1..] == Foreign(before.input);
    assert Visible(t.input)[1..] == Visible(Foreign(before.input));
    Recovery.ForeignIdempotent(before.input);
    assert Others(t) == Others(before);
    assert Foreign(t.input) == Foreign(before.input);
    VisibleFacts(t.chains[STABLE]);
  }

  // The table a successful undisturbed wiring run leaves is judged verified.
  lemma CanonicalIsVerified(lines: seq<Line>, before: Table, family: Family, setName: Token, action: ChainAction)
    requires IsOrderly(before)
    requires ListingOf(lines, Canonical(before, WantedRule(setName, action)), family) && OthersSilent(lines)
    ensures ParseWiring(lines, family, setName, action).Verified?
  {
    hide ParseWiring, ListingOf, OthersSilent, SoundWiring, Canonical, IsOrderly;
    CanonicalIsSound(before, family, setName, action);
    VerifiedExactly(lines, Canonical(before, WantedRule(setName, action)), family, setName, action);
  }

  // No rule with text comes after one without.
  predicate BlanksLast(rules: seq<Spec>) { forall i, j :: 0 <= i < j < |rules| && rules[i] == [] ==> rules[j] == [] }

  lemma {:induction false} VisibleConcat(a: seq<Spec>, b: seq<Spec>)
    ensures Visible(a + b) == Visible(a) + Visible(b)
  {
    if a == [] {
      assert a + b == b;
    } else {
      VisibleConcat(a[1..], b);
      VisibleHead(a[0], a[1..]);
      VisibleHead(a[0], a[1..] + b);
      hide Visible;
      assert a == [a[0]] + a[1..] && a + b == [a[0]] + (a[1..] + b);
    }
  }

  lemma VisibleHead(spec: Spec, rest: seq<Spec>)
    ensures Visible([spec] + rest) == if spec == [] then Visible(rest) else [spec] + Visible(rest)
  {
    assert ([spec] + rest)[1..] == rest;
  }

  lemma {:induction false} AllBlank(rules: seq<Spec>)
    ensures Visible(rules) == [] <==> forall i :: 0 <= i < |rules| ==> rules[i] == []
  {
    if rules == [] {
    } else {
      AllBlank(rules[1..]);
      assert rules == [rules[0]] + rules[1..];
    }
  }

  lemma {:induction false} NoneBlank(rules: seq<Spec>)
    ensures |Visible(rules)| <= |rules|
    ensures |Visible(rules)| == |rules| <==> forall i :: 0 <= i < |rules| ==> rules[i] != []
  {
    if rules == [] {
    } else {
      NoneBlank(rules[1..]);
      assert rules == [rules[0]] + rules[1..];
    }
  }

  // The old rules kept in front of the new one all lack text exactly when the blank ones were last.
  lemma KeptRulesBlank(rules: seq<Spec>)
    ensures |Visible(rules)| <= |rules|
    ensures Visible(rules[|Visible(rules)|..]) == [] <==> BlanksLast(rules)
  {
    NoneBlank(rules);
    var n := |Visible(rules)|;
    var front, back := rules[..n], rules[n..];
    assert rules == front + back;
    VisibleConcat(front, back);
    AllBlank(back);
    NoneBlank(front);
    NoneBlank(back);
    if BlanksLast(rules) { FrontIsFull(rules, n); }
  }

  lemma {:induction false} FrontIsFull(rules: seq<Spec>, n: nat)
    requires BlanksLast(rules) && n == |Visible(rules)| <= |rules|
    ensures forall i :: n <= i < |rules| ==> rules[i] == []
  {
    if rules == [] {
    } else if rules[0] == [] {
      forall i | 0 <= i < |rules| ensures rules[i] == [] {}
    } else {
      NoneBlank(rules[1..]);
      forall i, j | 0 <= i < j < |rules[1..]| && rules[1..][i] == [] ensures rules[1..][j] == [] {
        assert rules[i + 1] == [] && rules[j + 1] == rules[1..][j];
      }
      FrontIsFull(rules[1..], n - 1);
      forall i | n <= i < |rules| ensures rules[i] == [] { assert rules[i] == rules[1..][i - 1]; }
    }
  }

  // What any successful wiring run leaves, whatever the other programs did to the rest of INPUT
  // meanwhile, is judged verified as long as nobody else's rule mentions the managed chains: if
  // and only if none of the replaced rules with text came after one without.
  lemma WiredIsVerified(lines: seq<Line>, before: Table, t: Table, family: Family, setName: Token, action: ChainAction)
    requires Settled(t) && Unshared(t, STABLE) && Unshared(t, STAGING)
    requires t.chains == Others(before)[STABLE := Replaced(OldRules(before, STABLE), WantedRule(setName, action))]
    requires ListingOf(lines, t, family) && OthersSilent(lines)
    ensures ParseWiring(lines, family, setName, action).Verified? <==> BlanksLast(OldRules(before, STABLE))
  {
    hide ParseWiring, ListingOf, OthersSilent, Unshared, BlanksLast, FirstAndOnly;
    var rules, spec := OldRules(before, STABLE), WantedRule(setName, action);
    VerifiedExactly(lines, t, family, setName, action);
    KeptRulesBlank(rules);
    assert t.chains[STABLE] == rules[|Visible(rules)|..] + [spec];
    VisibleConcat(rules[|Visible(rules)|..], [spec]);
    assert Visible([spec]) == [spec];
  }
}
