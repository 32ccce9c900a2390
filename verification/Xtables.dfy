// The kernel side of the iptables adapter: one filter table, the commands Kidobo sends to it and
// the listings it prints. A rule is its listed text split at blanks, without the `-A CHAIN` head.
module Xtables {

  type Token = string
  type Spec = seq<Token>
  type Line = seq<Token>

  const INPUT: Token := "INPUT"
  const STABLE: Token := "kidobo-input"
  const STAGING: Token := "kidobo-input-stage"
  const BUILTIN_TARGETS: set<Token> := {"ACCEPT", "DROP", "REJECT", "RETURN"}

  // User chains are in `chains`; INPUT is kept apart because it always exists.
  datatype Table = Table(input: seq<Spec>, chains: map<Token, seq<Spec>>)

  datatype Command =
    | ListInput
    | ListChain(chain: Token)
    | ListAll
    | New(chain: Token)
    | Append(chain: Token, spec: Spec)
    | InsertInput(spec: Spec)
    | DeleteInput(spec: Spec)
    | DeleteFirst(chain: Token)
    | Flush(chain: Token)
    | Erase(chain: Token)

  // The adapter classifies a finished command by status and diagnostic.
  // A full `-S` is answered by the chain names on its `-N` and `-P` lines.
  datatype Reply = Done(lines: seq<Line>) | Declared(names: set<Token>) | Missing | Ambiguous | Refused

  function JumpTo(chain: Token): Spec { ["-j", chain] }

  function SetRule(setName: Token, target: Token): Spec {
    ["-m", "set", "--match-set", setName, "src", "-j", target]
  }

  // An exact, unconditional jump to one of the two managed chains.
  predicate ManagedJump(spec: Spec) { spec == JumpTo(STABLE) || spec == JumpTo(STAGING) }

  const JUMP_WORDS: set<Token> := {"-j", "--jump", "-g", "--goto"}

  predicate Refers(spec: Spec, chain: Token) {
    exists i :: 0 <= i < |spec| - 1 && spec[i] in JUMP_WORDS && spec[i + 1] == chain
  }

  predicate AnyRefers(rules: seq<Spec>, chain: Token) {
    exists i :: 0 <= i < |rules| && Refers(rules[i], chain)
  }

  // The kernel keeps a chain while INPUT or any chain still refers to it.
  predicate Referenced(t: Table, chain: Token) {
    AnyRefers(t.input, chain) || exists c :: c in t.chains && AnyRefers(t.chains[c], chain)
  }

  predicate TargetExists(t: Table, spec: Spec) {
    |spec| == 2 && spec[0] == "-j" ==> spec[1] in t.chains || spec[1] in BUILTIN_TARGETS
  }

  lemma Names()
    ensures STABLE != STAGING && INPUT != STABLE && INPUT != STAGING
    ensures JumpTo(STABLE) != JumpTo(STAGING)
    ensures STABLE !in BUILTIN_TARGETS && STAGING !in BUILTIN_TARGETS
  {
    assert |STABLE| == 12 && |STAGING| == 18 && |INPUT| == 5;
    assert forall b :: b in BUILTIN_TARGETS ==> |b| <= 6;
    assert JumpTo(STABLE)[1] == STABLE && JumpTo(STAGING)[1] == STAGING;
  }

  // ---- Sequences of rules ------------------------------------------------------------------

  function Without(rules: seq<Spec>, spec: Spec): (r: seq<Spec>) {
    if rules == [] then []
    else if rules[0] == spec then Without(rules[1..], spec)
    else [rules[0]] + Without(rules[1..], spec)
  }

  function Count(rules: seq<Spec>, spec: Spec): nat {
    if rules == [] then 0 else (if rules[0] == spec then 1 else 0) + Count(rules[1..], spec)
  }

  // What `-D INPUT <rule>` leaves: the first equal rule goes.
  function RemoveFirst(rules: seq<Spec>, spec: Spec): seq<Spec> {
    if rules == [] then []
    else if rules[0] == spec then rules[1..]
    else [rules[0]] + RemoveFirst(rules[1..], spec)
  }

  // The INPUT rules that are nobody's managed jump, and the managed jumps, each in order.
  function Foreign(rules: seq<Spec>): seq<Spec> {
    if rules == [] then []
    else if ManagedJump(rules[0]) then Foreign(rules[1..])
    else [rules[0]] + Foreign(rules[1..])
  }

  function Managed(rules: seq<Spec>): seq<Spec> {
    if rules == [] then []
    else if ManagedJump(rules[0]) then [rules[0]] + Managed(rules[1..])
    else Managed(rules[1..])
  }

  lemma {:induction false} WithoutGone(rules: seq<Spec>, spec: Spec)
    ensures spec !in Without(rules, spec)
    ensures forall s :: s in Without(rules, spec) <==> s in rules && s != spec
    ensures spec !in rules ==> Without(rules, spec) == rules
  {
    if rules == [] {
    } else {
      WithoutGone(rules[1..], spec);
    }
  }

  lemma {:induction false} CountIn(rules: seq<Spec>, spec: Spec)
    ensures (Count(rules, spec) > 0) <==> spec in rules
  {
    if rules == [] {
    } else {
      CountIn(rules[1..], spec);
    }
  }

  // Deleting one managed jump: the other jumps, the foreign rules and the eventual result of
  // deleting all equal rules stay as they were.
  lemma {:induction false} RemoveFirstKeeps(rules: seq<Spec>, spec: Spec)
    requires spec in rules && ManagedJump(spec)
    ensures var r := RemoveFirst(rules, spec);
            && Count(r, spec) == Count(rules, spec) - 1
            && Without(r, spec) == Without(rules, spec)
            && Foreign(r) == Foreign(rules)
            && Without(Managed(r), spec) == Without(Managed(rules), spec)
            && (forall s :: s != spec ==> (s in r <==> s in rules))
            && (rules[0] != spec ==> r != [] && r[0] == rules[0])
  {
    if rules[0] != spec {
      RemoveFirstKeeps(rules[1..], spec);
      var r := RemoveFirst(rules, spec);
      assert r[1..] == RemoveFirst(rules[1..], spec);
      if ManagedJump(rules[0]) {
        assert Managed(rules)[1..] == Managed(rules[1..]);
        assert Managed(r)[1..] == Managed(r[1..]);
      }
    } else {
      assert Managed(rules)[1..] == Managed(rules[1..]);
    }
  }

  lemma {:induction false} ManagedIn(rules: seq<Spec>, spec: Spec)
    requires ManagedJump(spec)
    ensures spec in Managed(rules) <==> spec in rules
    ensures Count(Managed(rules), spec) == Count(rules, spec)
  {
    if rules == [] {
    } else {
      ManagedIn(rules[1..], spec);
      if ManagedJump(rules[0]) {
        assert Managed(rules)[1..] == Managed(rules[1..]);
        assert Managed(rules)[0] == rules[0];
      }
    }
  }

  // Deleting every jump to both chains, in either order, leaves exactly the foreign rules.
  lemma {:induction false} ForeignIsRest(rules: seq<Spec>)
    ensures Without(Without(rules, JumpTo(STABLE)), JumpTo(STAGING)) == Foreign(rules)
    ensures Without(Without(rules, JumpTo(STAGING)), JumpTo(STABLE)) == Foreign(rules)
  {
    if rules == [] {
    } else {
      ForeignIsRest(rules[1..]);
    }
  }

  // ---- Listings ----------------------------------------------------------------------------

  function RuleLine(chain: Token, spec: Spec): Line { ["-A", chain] + spec }

  function RuleLines(chain: Token, rules: seq<Spec>): (lines: seq<Line>)
    ensures |lines| == |rules|
    ensures forall i :: 0 <= i < |rules| ==> lines[i] == RuleLine(chain, rules[i])
  {
    seq(|rules|, i requires 0 <= i < |rules| => RuleLine(chain, rules[i]))
  }

  // A line the adapter recognises as a rule of `chain`: it starts with "-A CHAIN " and so has at
  // least one word after the chain name. A rule with neither match nor target prints as
  // "-A CHAIN" and is not recognised.
  predicate IsRuleOf(line: Line, chain: Token) { |line| > 2 && line[0] == "-A" && line[1] == chain }

  function RulesOf(lines: seq<Line>, chain: Token): seq<Line> {
    if lines == [] then []
    else if IsRuleOf(lines[0], chain) then [lines[0]] + RulesOf(lines[1..], chain)
    else RulesOf(lines[1..], chain)
  }

  function ChainRuleCount(lines: seq<Line>, chain: Token): nat { |RulesOf(lines, chain)| }

  function PositionsFrom(rules: seq<Line>, expected: Line, start: nat): seq<nat> {
    if rules == [] then []
    else if rules[0] == expected then [start] + PositionsFrom(rules[1..], expected, start + 1)
    else PositionsFrom(rules[1..], expected, start + 1)
  }

  // One-based positions of exact jumps among the recognised INPUT rules.
  function ExactJumpPositions(lines: seq<Line>, chain: Token): seq<nat> {
    PositionsFrom(RulesOf(lines, INPUT), RuleLine(INPUT, JumpTo(chain)), 1)
  }

  // The rules that carry text, in order.
  function Visible(rules: seq<Spec>): seq<Spec> {
    if rules == [] then []
    else if rules[0] == [] then Visible(rules[1..])
    else [rules[0]] + Visible(rules[1..])
  }

  predicate NoBlank(rules: seq<Spec>) { [] !in rules }

  lemma {:induction false} VisibleFacts(rules: seq<Spec>)
    ensures |Visible(rules)| <= |rules|
    ensures |Visible(rules)| == |rules| <==> NoBlank(rules)
    ensures NoBlank(rules) ==> Visible(rules) == rules
    ensures forall s :: s in Visible(rules) <==> s in rules && s != []
  {
    if rules == [] {
    } else {
      VisibleFacts(rules[1..]);
      assert rules == [rules[0]] + rules[1..];
      assert NoBlank(rules) <==> rules[0] != [] && NoBlank(rules[1..]);
    }
  }

  lemma {:induction false} RulesOfListing(rules: seq<Spec>, chain: Token)
    ensures RulesOf(RuleLines(chain, rules), chain) == RuleLines(chain, Visible(rules))
  {
    var lines := RuleLines(chain, rules);
    if rules == [] {
    } else {
      RulesOfListing(rules[1..], chain);
      assert lines[1..] == RuleLines(chain, rules[1..]);
      assert IsRuleOf(lines[0], chain) <==> rules[0] != [];
      if rules[0] != [] {
        assert Visible(rules) == [rules[0]] + Visible(rules[1..]);
        assert RuleLines(chain, Visible(rules)) == [lines[0]] + RuleLines(chain, Visible(rules[1..]));
      }
    }
  }

  lemma RuleLineInjective(chain: Token, a: Spec, b: Spec)
    ensures RuleLine(chain, a) == RuleLine(chain, b) <==> a == b
  {
    assert RuleLine(chain, a)[2..] == a && RuleLine(chain, b)[2..] == b;
  }

  lemma {:induction false} PositionsFacts(rules: seq<Spec>, spec: Spec, start: nat)
    ensures var p := PositionsFrom(RuleLines(INPUT, rules), RuleLine(INPUT, spec), start);
            && (p == [] <==> spec !in rules)
            && (forall k :: k in p ==> k >= start)
            && (p == [start] <==> rules != [] && rules[0] == spec && spec !in rules[1..])
  {
    if rules == [] {
    } else {
      var lines := RuleLines(INPUT, rules);
      assert lines[1..] == RuleLines(INPUT, rules[1..]);
      PositionsFacts(rules[1..], spec, start + 1);
      RuleLineInjective(INPUT, rules[0], spec);
      assert rules == [rules[0]] + rules[1..];
      var rest := PositionsFrom(lines[1..], RuleLine(INPUT, spec), start + 1);
      if rules[0] == spec {
        assert PositionsFrom(lines, RuleLine(INPUT, spec), start)[1..] == rest;
      } else {
        assert PositionsFrom(lines, RuleLine(INPUT, spec), start) == rest;
        if rest != [] { assert rest[0] in rest; }
      }
    }
  }

  function InputListing(t: Table): seq<Line> { [["-P", INPUT, "ACCEPT"]] + RuleLines(INPUT, t.input) }

  function ChainListing(chain: Token, rules: seq<Spec>): seq<Line> {
    [["-N", chain]] + RuleLines(chain, rules)
  }

  lemma HeadLines(chain: Token)
    ensures !IsRuleOf(["-P", INPUT, "ACCEPT"], chain) && !IsRuleOf(["-N", chain], chain)
  {
    assert "-P"[1] != "-A"[1];
  }

  // Reading the printed INPUT rules tells exactly whether a jump is there, and whether the only
  // such jump is the first rule with text.
  lemma InputPositions(t: Table, chain: Token)
    ensures var p := ExactJumpPositions(InputListing(t), chain); var v := Visible(t.input);
            && (p == [] <==> JumpTo(chain) !in t.input)
            && (p == [1] <==> v != [] && v[0] == JumpTo(chain) && JumpTo(chain) !in v[1..])
  {
    ListingRules(["-P", INPUT, "ACCEPT"], INPUT, t.input);
    VisibleFacts(t.input);
    PositionsFacts(Visible(t.input), JumpTo(chain), 1);
  }

  lemma ListingRules(head: Line, chain: Token, rules: seq<Spec>)
    requires !IsRuleOf(head, chain) || head == ["-P", INPUT, "ACCEPT"] || head == ["-N", chain]
    ensures RulesOf([head] + RuleLines(chain, rules), chain) == RuleLines(chain, Visible(rules))
  {
    HeadLines(chain);
    var lines := [head] + RuleLines(chain, rules);
    assert lines[1..] == RuleLines(chain, rules);
    RulesOfListing(rules, chain);
  }

  lemma ChainCount(chain: Token, rules: seq<Spec>)
    ensures ChainRuleCount(ChainListing(chain, rules), chain) == |Visible(rules)|
  {
    ListingRules(["-N", chain], chain, rules);
  }

  // ---- Commands ----------------------------------------------------------------------------

  const BUILTIN_CHAINS: set<Token> := {INPUT, "FORWARD", "OUTPUT"}

  // What a working kernel does. Erasing needs an empty chain nobody refers to; new rules need
  // their jump target to exist.
  function Apply(t: Table, cmd: Command): (r: (Table, Reply)) {
    match cmd
    case ListInput => (t, Done(InputListing(t)))
    case ListChain(c) => if c in t.chains then (t, Done(ChainListing(c, t.chains[c]))) else (t, Missing)
    case ListAll => (t, Declared(t.chains.Keys + BUILTIN_CHAINS))
    case New(c) => if c in t.chains then (t, Refused) else (t.(chains := t.chains[c := []]), Done([]))
    case Append(c, spec) =>
      if c !in t.chains then (t, Missing)
      else if !TargetExists(t, spec) then (t, Missing)
      else (t.(chains := t.chains[c := t.chains[c] + [spec]]), Done([]))
    case InsertInput(spec) =>
      if !TargetExists(t, spec) then (t, Missing) else (t.(input := [spec] + t.input), Done([]))
    case DeleteInput(spec) =>
      if !TargetExists(t, spec) || spec !in t.input then (t, Refused)
      else (t.(input := RemoveFirst(t.input, spec)), Done([]))
    case DeleteFirst(c) =>
      if c in t.chains && t.chains[c] != [] then (t.(chains := t.chains[c := t.chains[c][1..]]), Done([]))
      else (t, Refused)
    case Flush(c) => if c in t.chains then (t.(chains := t.chains[c := []]), Done([])) else (t, Missing)
    case Erase(c) =>
      if c !in t.chains then (t, Missing)
      else if t.chains[c] != [] || Referenced(t, c) then (t, Refused)
      else (t.(chains := t.chains - {c}), Done([]))
  }
}
