// The adapter side: establishing, normalising and removing the managed wiring, one command at a
// time, on a table that other programs also write to.
module Wiring {
  import opened Options
  import opened Xtables

  // ---- The world a run meets ---------------------------------------------------------------

  // What may happen around one command. Other programs may rewrite INPUT just before it, as long
  // as they leave the managed jumps alone. The command may fail before it takes effect, fail
  // after it took effect, or answer a chain listing with the ambiguous diagnostic.
  datatype Fault = Works | FailsBefore | FailsAfter | Vague
  datatype Event = Event(noise: NoiseOption, fault: Fault)
  datatype NoiseOption = Calm | Rewrite(input: seq<Spec>)
  type World = nat -> Event

  function Disturb(t: Table, noise: NoiseOption): Table {
    match noise
    case Calm => t
    case Rewrite(input) => if Managed(input) == Managed(t.input) then t.(input := input) else t
  }

  function Respond(t: Table, cmd: Command, fault: Fault): (Table, Reply) {
    match fault
    case Works => Apply(t, cmd)
    case FailsBefore => (t, Refused)
    case FailsAfter => (Apply(t, cmd).0, Refused)
    case Vague => if cmd.ListChain? then (t, Ambiguous) else Apply(t, cmd)
  }

  ghost predicate Quiet(world: World, from: nat) { forall n: nat :: n >= from ==> world(n).noise.Calm? }

  // Other programs may rewrite INPUT, but their rules never mention the managed chains.
  predicate IsPolite(noise: NoiseOption) {
    noise.Rewrite? ==> !AnyRefers(Foreign(noise.input), STABLE) && !AnyRefers(Foreign(noise.input), STAGING)
  }

  ghost predicate Polite(world: World, from: nat) { forall n: nat :: n >= from ==> IsPolite(world(n).noise) }

  ghost predicate Working(world: World, from: nat) { forall n: nat :: n >= from ==> world(n).fault.Works? }

  // The table just before and just after one command.
  datatype Entry = Entry(before: Table, after: Table)

  // ---- What a run must keep true -----------------------------------------------------------

  datatype Goal =
    | ReachStable
    | ReachStaging
    | BlockStable(rule: Spec)
    | BlockStaging(rule: Spec)
    | Orderly

  predicate AllEqual(t: Table, chain: Token, rule: Spec) {
    chain in t.chains && t.chains[chain] != [] && forall i :: 0 <= i < |t.chains[chain]| ==> t.chains[chain][i] == rule
  }

  predicate StableReady(t: Table) { STABLE in t.chains && t.chains[STABLE] != [] }

  predicate Holds(g: Goal, t: Table) {
    match g
    case ReachStable => StableReady(t) && JumpTo(STABLE) in t.input
    case ReachStaging =>
      StableReady(t) && JumpTo(STAGING) in t.input && STAGING in t.chains && JumpTo(STABLE) in t.chains[STAGING]
    case BlockStable(rule) =>
      AllEqual(t, STABLE, rule) && t.input != [] && t.input[0] == JumpTo(STABLE)
    case BlockStaging(rule) =>
      AllEqual(t, STABLE, rule) && AllEqual(t, STAGING, JumpTo(STABLE)) && t.input != []
        && t.input[0] == JumpTo(STAGING)
    case Orderly => IsOrderly(t)
  }

  // A state Kidobo may leave behind: jump targets exist, nobody else refers to its chains, the
  // stable chain does not lead back to the staging chain, and its rules all carry text.
  predicate IsOrderly(t: Table) {
    && WellFormed(t) && Unshared(t, STABLE) && Unshared(t, STAGING)
    && !AnyRefers(OldRules(t, STABLE), STAGING)
    && NoBlank(OldRules(t, STABLE)) && NoBlank(OldRules(t, STAGING))
  }

  // INPUT reaches a non-empty stable chain, directly or through the staging chain.
  predicate Armed(t: Table) { Holds(ReachStable, t) || Holds(ReachStaging, t) }

  // The first INPUT rule leads straight to `rule`, and nothing else is met on the way.
  predicate Enforcing(t: Table, rule: Spec) { Holds(BlockStable(rule), t) || Holds(BlockStaging(rule), t) }

  // The commands that cannot end a goal.
  predicate Harmless(g: Goal, t: Table, cmd: Command) {
    match cmd
    case ListInput => true
    case ListChain(_) => true
    case ListAll => true
    case New(_) => true
    case Append(c, spec) =>
      && (Blocks(g) ==> (c == STABLE ==> spec == g.rule) && (c == STAGING && Staged(g) ==> spec == JumpTo(STABLE)))
      && (g.Orderly? ==> (c == STABLE || c == STAGING) && spec != [] && (c == STABLE ==> !Refers(spec, STAGING)))
    case InsertInput(spec) =>
      (Blocks(g) ==> spec == JumpTo(if Staged(g) then STAGING else STABLE)) && (g.Orderly? ==> ManagedJump(spec))
    case DeleteInput(spec) =>
      if g.Orderly? then ManagedJump(spec) else spec == JumpTo(if Staged(g) then STABLE else STAGING)
    case DeleteFirst(c) =>
      if g.Orderly? then c == STABLE || c == STAGING
      else c in t.chains && |t.chains[c]| > 1 && (Staged(g) && c == STAGING ==> JumpTo(STABLE) in t.chains[c][1..])
    case Flush(c) => if g.Orderly? then c == STABLE || c == STAGING else c == STAGING && !Staged(g)
    case Erase(c) => if g.Orderly? then c == STABLE || c == STAGING else c == STAGING && !Staged(g)
  }

  lemma HarmlessKeeps(g: Goal, t: Table, cmd: Command)
    requires Holds(g, t) && Harmless(g, t, cmd) && Owned(cmd)
    ensures Holds(g, Apply(t, cmd).0)
  {
    Names();
    if g.Orderly? { OrderlyKeeps(t, cmd); return; }
    match cmd
    case DeleteInput(spec) => if spec in t.input { RemoveFirstKeeps(t.input, spec); }
    case Append(c, spec) =>
      if c in t.chains { assert forall r :: r in t.chains[c] ==> r in t.chains[c] + [spec]; }
    case _ =>
  }

  lemma OrderlyKeeps(t: Table, cmd: Command)
    requires IsOrderly(t) && Harmless(Orderly, t, cmd) && Owned(cmd)
    ensures IsOrderly(Apply(t, cmd).0)
  {
    Names();
    OwnedKeeps(t, cmd);
    var u := Apply(t, cmd).0;
    assert Unshared(u, STABLE) && Unshared(u, STAGING);
    match cmd
    case Append(c, spec) =>
      if c in t.chains { assert forall i :: 0 <= i < |t.chains[c]| ==> (t.chains[c] + [spec])[i] == t.chains[c][i]; }
    case DeleteInput(spec) => if spec in t.input { RemoveFirstKeeps(t.input, spec); }
    case DeleteFirst(c) =>
      if c in t.chains && t.chains[c] != [] { assert forall r :: r in t.chains[c][1..] ==> r in t.chains[c]; }
    case Erase(c) =>
      if JumpTo(c) in t.input { JumpRefers(c); }
    case _ =>
  }

  lemma JumpRefers(c: Token)
    ensures Refers(JumpTo(c), c)
  {
    assert JumpTo(c)[0] in JUMP_WORDS && JumpTo(c)[1] == c;
  }

  lemma NoiseKeeps(g: Goal, t: Table, noise: NoiseOption)
    requires Holds(g, t) && Tolerates(g, noise)
    ensures Holds(g, Disturb(t, noise))
  {
    var u := Disturb(t, noise);
    if noise.Rewrite? {
      ManagedIn(t.input, JumpTo(STABLE)); ManagedIn(u.input, JumpTo(STABLE));
      ManagedIn(t.input, JumpTo(STAGING)); ManagedIn(u.input, JumpTo(STAGING));
    }
    if g.Orderly? { PoliteKeepsOrder(t, noise); }
  }

  lemma PoliteKeepsOrder(t: Table, noise: NoiseOption)
    requires IsOrderly(t) && IsPolite(noise)
    ensures IsOrderly(Disturb(t, noise))
  {
    hide AnyRefers;
    var u := Disturb(t, noise);
    assert u.chains == t.chains && Others(u) == Others(t) && OldRules(u, STABLE) == OldRules(t, STABLE);
    ManagedIn(t.input, JumpTo(STABLE));
    ManagedIn(u.input, JumpTo(STABLE));
    ManagedIn(t.input, JumpTo(STAGING));
    ManagedIn(u.input, JumpTo(STAGING));
  }

  // ---- What a run must leave alone ---------------------------------------------------------

  function Others(t: Table): map<Token, seq<Spec>> { t.chains - {STABLE, STAGING} }

  ghost predicate SameBase(t: Table, u: Table, quiet: bool) {
    Others(t) == Others(u) && (quiet ==> Foreign(t.input) == Foreign(u.input))
  }

  // The command itself neither deletes nor reorders an INPUT rule that is not a managed jump.
  predicate Conserves(e: Entry) { Foreign(e.before.input) == Foreign(e.after.input) }

  predicate Owned(cmd: Command) {
    match cmd
    case New(c) => c == STABLE || c == STAGING
    case Append(c, _) => c == STABLE || c == STAGING
    case InsertInput(spec) => ManagedJump(spec)
    case DeleteInput(spec) => ManagedJump(spec)
    case DeleteFirst(c) => c == STABLE || c == STAGING
    case Flush(c) => c == STABLE || c == STAGING
    case Erase(c) => c == STABLE || c == STAGING
    case _ => true
  }

  lemma OwnedKeeps(t: Table, cmd: Command)
    requires Owned(cmd)
    ensures var u := Apply(t, cmd).0; Others(t) == Others(u) && Foreign(t.input) == Foreign(u.input)
  {
    match cmd
    case DeleteInput(spec) => if spec in t.input { RemoveFirstKeeps(t.input, spec); }
    case InsertInput(spec) => assert ([spec] + t.input)[1..] == t.input;
    case _ =>
  }

  // A run's observable past at one moment.
  datatype Moment = Moment(table: Table, clock: nat, log: seq<Entry>)

  // Everything up to `m` stays on record, and nothing outside Kidobo's own wiring moved since.
  ghost predicate Proceeded(world: World, m: Moment, n: Moment) {
    var quiet := Quiet(world, m.clock);
    && m.log <= n.log && m.clock <= n.clock && SameBase(m.table, n.table, quiet)
    && forall i :: |m.log| <= i < |n.log| ==>
         Conserves(n.log[i]) && SameBase(m.table, n.log[i].before, quiet) && SameBase(m.table, n.log[i].after, quiet)
  }

  predicate Blocks(g: Goal) { g.BlockStable? || g.BlockStaging? }

  // The blocking goals speak about the first INPUT rule, so they need the others to leave INPUT
  // alone; an orderly table needs them not to mention the managed chains.
  predicate Tolerates(g: Goal, noise: NoiseOption) {
    (Blocks(g) ==> noise.Calm?) && (g.Orderly? ==> IsPolite(noise))
  }

  ghost predicate Tolerable(g: Goal, world: World, from: nat) {
    (Blocks(g) ==> Quiet(world, from)) && (g.Orderly? ==> Polite(world, from))
  }

  // A goal that held at `m` held after every command and disturbance up to `n`.
  ghost predicate Preserved(g: Goal, world: World, m: Moment, n: Moment) {
    Holds(g, m.table) && Tolerable(g, world, m.clock) ==>
      Holds(g, n.table) && Kept(g, n.log, |m.log|)
  }

  ghost predicate Kept(g: Goal, log: seq<Entry>, n: nat) {
    forall i :: n <= i < |log| ==> Holds(g, log[i].before) && Holds(g, log[i].after)
  }

  lemma Standstill(world: World, m: Moment)
    ensures Proceeded(world, m, m) && forall g: Goal :: Preserved(g, world, m, m)
  {
  }

  lemma Onward(world: World, m: Moment, n: Moment, o: Moment)
    requires Proceeded(world, m, n) && Proceeded(world, n, o)
    ensures Proceeded(world, m, o) && m.log <= n.log <= o.log && m.clock <= n.clock <= o.clock
    ensures forall g: Goal {:trigger Preserved(g, world, m, o)} ::
              Preserved(g, world, m, n) && Preserved(g, world, n, o) ==> Preserved(g, world, m, o)
  {
    forall i | |m.log| <= i < |n.log| ensures o.log[i] == n.log[i] {}
  }

  datatype FirewallError =
    | CommandFailed
    | UnexpectedInputWiring(stablePositions: seq<nat>, stagingPositions: seq<nat>)

  datatype Outcome<+T> = Ok(value: T) | Err(error: FirewallError) {
    predicate IsFailure() { Err? }
    function PropagateFailure<U>(): Outcome<U> requires Err? { Err(error) }
    function Extract(): T requires Ok? { value }
  }

  function Last(rules: seq<Spec>): Spec requires rules != [] { rules[|rules| - 1] }

  predicate Staged(g: Goal) { g.ReachStaging? || g.BlockStaging? }

  // Replacing the rules of `chain` by `spec` one command at a time does not end the goal.
  predicate Suits(g: Goal, chain: Token, spec: Spec) {
    && (Blocks(g) && chain == STABLE ==> spec == g.rule)
    && (Staged(g) && chain == STAGING ==> spec == JumpTo(STABLE))
    && (g.Orderly? ==> spec != [] && (chain == STABLE ==> !Refers(spec, STAGING)))
  }

  // Deleting as many rules as the listing showed leaves the wanted rule alone, except that every
  // rule without text keeps one more old rule in front of it.
  function Replaced(rules: seq<Spec>, spec: Spec): seq<Spec>
  {
    VisibleFacts(rules);
    (rules + [spec])[|Visible(rules)|..]
  }

  lemma ReplacedAlone(rules: seq<Spec>, spec: Spec)
    ensures Replaced(rules, spec) == [spec] <==> NoBlank(rules)
    ensures Replaced(rules, spec) != [] && Last(Replaced(rules, spec)) == spec
  {
    VisibleFacts(rules);
    if NoBlank(rules) { assert (rules + [spec])[|rules|..] == [spec]; }
  }

  // With a rule without text in the stable chain, an old rule survives in front of the new one:
  // here an old RETURN keeps every packet from reaching the wanted rule.
  lemma BlankRuleSurvives(setName: Token, action: ChainAction)
    ensures Replaced([[], ["-j", "RETURN"]], WantedRule(setName, action)) ==
            [["-j", "RETURN"], WantedRule(setName, action)]
  {
    var rules: seq<Spec> := [[], ["-j", "RETURN"]];
    assert Visible(rules[1..]) == [["-j", "RETURN"]] by { assert rules[1..][1..] == []; }
    assert |Visible(rules)| == 1;
  }

  // Tables that agree on their managed jumps agree on which jumps there are and how many.
  lemma SameJumps(t: Table, u: Table)
    requires Managed(t.input) == Managed(u.input)
    ensures forall c :: c == STABLE || c == STAGING ==>
              Count(t.input, JumpTo(c)) == Count(u.input, JumpTo(c)) && (JumpTo(c) in t.input <==> JumpTo(c) in u.input)
  {
    forall c | c == STABLE || c == STAGING
      ensures Count(t.input, JumpTo(c)) == Count(u.input, JumpTo(c)) && (JumpTo(c) in t.input <==> JumpTo(c) in u.input)
    {
      ManagedIn(t.input, JumpTo(c));
      ManagedIn(u.input, JumpTo(c));
    }
  }

  ghost predicate ArmedOn(m: Moment, n: Moment) {
    Armed(m.table) ==>
      Armed(n.table) && forall i :: |m.log| <= i < |n.log| ==> Armed(n.log[i].before) && Armed(n.log[i].after)
  }

  ghost predicate EnforcedOn(m: Moment, n: Moment, rule: Spec) {
    Enforcing(m.table, rule) ==>
      Enforcing(n.table, rule)
      && forall i :: |m.log| <= i < |n.log| ==> Enforcing(n.log[i].before, rule) && Enforcing(n.log[i].after, rule)
  }

  function OldRules(t: Table, chain: Token): seq<Spec> { if chain in t.chains then t.chains[chain] else [] }

  predicate StagingText(t: Table) { STAGING in t.chains ==> NoBlank(t.chains[STAGING]) }

  lemma GoalsKept(world: World, m: Moment, n: Moment, rule: Spec)
    ensures Preserved(ReachStable, world, m, n) && Preserved(ReachStaging, world, m, n) ==> ArmedOn(m, n)
    ensures Quiet(world, m.clock) && Preserved(BlockStable(rule), world, m, n)
            && Preserved(BlockStaging(rule), world, m, n) ==>
              EnforcedOn(m, n, rule)
  {
  }

  lemma OnGuard(m: Moment, n: Moment, o: Moment, rule: Spec)
    requires m.log <= n.log <= o.log
    ensures ArmedOn(m, n) && (Armed(m.table) ==> ArmedOn(n, o)) ==> ArmedOn(m, o)
    ensures EnforcedOn(m, n, rule) && (Enforcing(m.table, rule) ==> EnforcedOn(n, o, rule)) ==> EnforcedOn(m, o, rule)
  {
    forall i | |m.log| <= i < |n.log| ensures o.log[i] == n.log[i] {}
  }

  // Putting the staging jump in front hands the first INPUT rule over without a gap.
  lemma InsertStage(m: Moment, n: Moment, rule: Spec)
    requires n.log == m.log + [Entry(m.table, n.table)]
    requires n.table == m.table || n.table == Apply(m.table, InsertInput(JumpTo(STAGING))).0
    requires AllEqual(m.table, STAGING, JumpTo(STABLE))
    ensures EnforcedOn(m, n, rule)
  {
  }

  // The direct jump is in front while the staged one is still there; no matter whether the
  // insertion was reported as failed.
  lemma Handover(world: World, m: Moment, n: Moment, o: Moment, rule: Spec)
    requires m.log <= n.log && m.clock <= n.clock
    requires Preserved(ReachStaging, world, m, n) && Preserved(ReachStaging, world, n, o)
    requires Preserved(BlockStaging(rule), world, m, n)
    requires var t := Disturb(n.table, world(n.clock).noise);
             o.log == n.log + [Entry(t, o.table)]
               && (o.table == t || o.table == Apply(t, InsertInput(JumpTo(STABLE))).0)
    ensures Holds(ReachStaging, m.table) ==> ArmedOn(m, o)
    ensures Quiet(world, m.clock) && Holds(BlockStaging(rule), m.table) ==> EnforcedOn(m, o, rule)
  {
    forall i | |m.log| <= i < |n.log| ensures o.log[i] == n.log[i] {}
  }

  lemma StagedOn(world: World, m: Moment, n: Moment, rule: Spec)
    requires Preserved(ReachStaging, world, m, n) && Preserved(BlockStaging(rule), world, m, n)
    ensures Holds(ReachStaging, m.table) ==> ArmedOn(m, n)
    ensures Quiet(world, m.clock) && Holds(BlockStaging(rule), m.table) ==> EnforcedOn(m, n, rule)
  {
  }

  lemma StableOn(world: World, m: Moment, n: Moment, o: Moment, rule: Spec)
    requires m.log <= n.log <= o.log && m.clock <= n.clock
    requires Preserved(ReachStable, world, n, o) && Preserved(BlockStable(rule), world, n, o)
    requires n.table.input != [] && JumpTo(STABLE) in n.table.input
    requires Quiet(world, m.clock) ==> n.table.input[0] == JumpTo(STABLE)
    ensures ArmedOn(m, n) ==> ArmedOn(m, o)
    ensures Quiet(world, m.clock) && EnforcedOn(m, n, rule) ==> EnforcedOn(m, o, rule)
  {
    forall i | |m.log| <= i < |n.log| ensures o.log[i] == n.log[i] {}
  }

  lemma WithoutHead(rules: seq<Spec>)
    ensures Without([JumpTo(STABLE)] + rules, JumpTo(STAGING)) == [JumpTo(STABLE)] + Without(rules, JumpTo(STAGING))
  {
    Names();
    assert ([JumpTo(STABLE)] + rules)[1..] == rules;
  }

  lemma SettledInput(before: seq<Spec>, after: seq<Spec>)
    requires JumpTo(STAGING) !in after
    requires Without(after, JumpTo(STAGING)) ==
             [JumpTo(STABLE)] + Without(Without(before, JumpTo(STABLE)), JumpTo(STAGING))
    ensures after == [JumpTo(STABLE)] + Foreign(before)
  {
    ForeignIsRest(before);
    WithoutGone(after, JumpTo(STAGING));
  }

  // Nothing besides Kidobo's own jumps refers to the chain.
  predicate Unshared(t: Table, chain: Token) {
    && !AnyRefers(Foreign(t.input), chain)
    && forall c :: c in Others(t) ==> !AnyRefers(Others(t)[c], chain)
  }

  // The staging chain can be deleted once its exact jumps are gone.
  predicate Releasable(t: Table) {
    WellFormed(t) && Unshared(t, STAGING) && STABLE in t.chains && !AnyRefers(t.chains[STABLE], STAGING)
  }

  // Emptying and deleting the staging chain will work, and the validation after it.
  predicate Settles(t: Table) {
    !Referenced(Emptied(t, STAGING), STAGING) && FirstAndOnly(t.input)
  }

  lemma CanSettle(t: Table, u: Table)
    requires Releasable(t) && u.chains == t.chains
    requires u.input == [JumpTo(STABLE)] + Foreign(t.input)
    ensures Settles(u)
  {
    Names();
    var cleared := Emptied(u, STAGING);
    forall i | 0 <= i < |u.input| ensures !Refers(u.input[i], STAGING) {
      if i > 0 { assert u.input[i] == Foreign(t.input)[i - 1]; }
    }
    forall c | c in cleared.chains ensures !AnyRefers(cleared.chains[c], STAGING) {
      if c != STABLE && c != STAGING { assert c in Others(t) && Others(t)[c] == cleared.chains[c]; }
    }
    NoJumpsLeft(t.input);
    assert u.input[1..] == Foreign(t.input);
    VisibleFacts(Foreign(t.input));
  }

  lemma {:induction false} NoJumpsLeft(rules: seq<Spec>)
    ensures JumpTo(STABLE) !in Foreign(rules) && JumpTo(STAGING) !in Foreign(rules)
  {
    if rules == [] {
    } else {
      NoJumpsLeft(rules[1..]);
    }
  }

  // Removing the staging jumps does not lose a stable one.
  lemma StillThere(before: seq<Spec>, after: seq<Spec>)
    requires JumpTo(STABLE) in before
    requires Without(Managed(after), JumpTo(STAGING)) == Without(Managed(before), JumpTo(STAGING))
    ensures JumpTo(STABLE) in after
  {
    Names();
    ManagedIn(before, JumpTo(STABLE));
    ManagedIn(after, JumpTo(STABLE));
    WithoutGone(Managed(before), JumpTo(STAGING));
    WithoutGone(Managed(after), JumpTo(STAGING));
  }

  ghost predicate Between(m: Moment, n: Moment, o: Moment) {
    m.log < n.log <= o.log && Managed(n.table.input) != [] && Managed(n.table.input)[0] == JumpTo(STAGING)
    && LastOf(n.log).after == n.table
  }

  function LastOf(log: seq<Entry>): Entry requires log != [] { log[|log| - 1] }

  // Once the staging jump is in front, whoever was on guard is on guard through it.
  lemma StagedNow(m: Moment, n: Moment, rule: Spec)
    requires ArmedOn(m, n)
    requires Managed(n.table.input) == [JumpTo(STAGING)] + Managed(m.table.input)
    requires STAGING in n.table.chains && JumpTo(STABLE) in n.table.chains[STAGING]
    ensures Armed(m.table) ==> Holds(ReachStaging, n.table)
    ensures EnforcedOn(m, n, rule) && Enforcing(m.table, rule) && n.table.input == [JumpTo(STAGING)] + m.table.input ==>
              Holds(BlockStaging(rule), n.table)
  {
    Names();
    ManagedIn(n.table.input, JumpTo(STAGING));
  }

  lemma ReleasableStaged(t: Table, u: Table)
    requires Releasable(t) && u.input == [JumpTo(STAGING)] + t.input
    requires STAGING in u.chains && u.chains == t.chains[STAGING := u.chains[STAGING]]
    ensures Releasable(u)
  {
    Names();
    assert u.input[1..] == t.input;
    assert Others(u) == Others(t);
  }

  lemma Idle(m: Moment, rule: Spec)
    ensures ArmedOn(m, m) && EnforcedOn(m, m, rule)
  {
  }

  // The final validation: the only managed jump is the stable one, and no rule with text comes
  // before it.
  predicate Settled(t: Table) { FirstAndOnly(t.input) && STAGING !in t.chains }

  predicate FirstAndOnly(input: seq<Spec>) {
    var v := Visible(input);
    v != [] && v[0] == JumpTo(STABLE) && JumpTo(STABLE) !in v[1..] && JumpTo(STAGING) !in input
  }

  datatype ChainAction = Drop | Reject

  function AsTarget(action: ChainAction): Token { if action.Drop? then "DROP" else "REJECT" }

  function WantedRule(setName: Token, action: ChainAction): Spec { SetRule(setName, AsTarget(action)) }

  // The states an undisturbed run can start from and finish: the kernel's own rule that jump
  // targets exist, a stable chain whose rules all carry text, and nobody else's rule or chain
  // refers to the staging chain.
  predicate Recoverable(t: Table) {
    WellFormed(t) && Unshared(t, STAGING) && NoBlank(OldRules(t, STABLE))
  }

  lemma ReleasableReplaced(t: Table, u: Table, setName: Token, action: ChainAction)
    requires Recoverable(t) && u.input == t.input && STABLE in u.chains
    requires u.chains[STABLE] == [WantedRule(setName, action)] && Others(u) == Others(t)
    requires STAGING in t.chains ==> STAGING in u.chains
    ensures Releasable(u)
  {
    WantedRuleIsPlain(setName, action);
  }

  lemma WantedRuleIsPlain(setName: Token, action: ChainAction)
    ensures !Refers(WantedRule(setName, action), STAGING) && !Refers(WantedRule(setName, action), STABLE)
  {
    var rule := WantedRule(setName, action);
    assert |STABLE| == 12 && |STAGING| == 18;
    assert |rule[1]| == 3 && |rule[2]| == 11 && |rule[4]| == 3 && |rule[5]| == 2 && 4 <= |rule[6]| <= 6;
    assert |rule[0]| == 2 && rule[0][1] == 'm';
    assert rule[2] !in JUMP_WORDS by { assert |"--jump"| == 6 && |"--goto"| == 6 && |"-j"| == 2 && |"-g"| == 2; }
    forall i | 0 <= i < |rule| - 1 && rule[i] in JUMP_WORDS ensures rule[i + 1] != STABLE && rule[i + 1] != STAGING {
      if i == 2 { assert false; }
    }
  }

  // Cleanup gets through exactly when nothing but Kidobo's own jumps holds on to its chains. The
  // staging chain's own rules never matter: it goes first.
  predicate Removable(t: Table) {
    && (STAGING in t.chains ==> Unshared(t, STAGING) && !AnyRefers(OldRules(t, STABLE), STAGING))
    && (STABLE in t.chains ==> Unshared(t, STABLE))
  }

  lemma BothGone(a: seq<Spec>, b: seq<Spec>, c: seq<Spec>)
    requires Without(b, JumpTo(STAGING)) == Without(a, JumpTo(STAGING))
    requires Without(c, JumpTo(STABLE)) == Without(b, JumpTo(STABLE))
    ensures JumpTo(STAGING) !in b && JumpTo(STABLE) !in c ==> c == Foreign(a)
  {
    ForeignIsRest(a);
    WithoutGone(b, JumpTo(STAGING));
    WithoutGone(c, JumpTo(STABLE));
  }

  lemma SameJumpsIn(a: seq<Spec>, b: seq<Spec>)
    requires Managed(a) == Managed(b)
    ensures JumpTo(STABLE) in a <==> JumpTo(STABLE) in b
  {
    ManagedIn(a, JumpTo(STABLE));
    ManagedIn(b, JumpTo(STABLE));
  }

  // Removing staging jumps leaves the question whether there is a stable one as it was.
  lemma SameStable(a: seq<Spec>, b: seq<Spec>)
    requires Without(Managed(a), JumpTo(STAGING)) == Without(Managed(b), JumpTo(STAGING))
    ensures JumpTo(STABLE) in a <==> JumpTo(STABLE) in b
  {
    if JumpTo(STABLE) in a { StillThere(a, b); }
    if JumpTo(STABLE) in b { StillThere(b, a); }
  }

  lemma EmptyManaged(a: seq<Spec>, b: seq<Spec>)
    requires Managed(a) == Managed(b)
    ensures JumpTo(STABLE) !in a && JumpTo(STAGING) !in a ==> Managed(b) == []
  {
    ManagedIn(a, JumpTo(STABLE));
    ManagedIn(a, JumpTo(STAGING));
    ManagedOnly(a);
    if Managed(a) != [] { assert Managed(a)[0] in Managed(a); }
  }

  // Other programs bring no managed jump back while the stable ones are removed.
  lemma StillGone(before: seq<Spec>, after: seq<Spec>)
    requires JumpTo(STAGING) !in before
    requires Without(Managed(after), JumpTo(STABLE)) == Without(Managed(before), JumpTo(STABLE))
    ensures JumpTo(STAGING) !in after
  {
    Names();
    ManagedIn(before, JumpTo(STAGING));
    ManagedIn(after, JumpTo(STAGING));
    WithoutGone(Managed(before), JumpTo(STABLE));
    WithoutGone(Managed(after), JumpTo(STABLE));
  }

  lemma {:induction false} ManagedOnly(rules: seq<Spec>)
    ensures forall s :: s in Managed(rules) ==> ManagedJump(s)
  {
    if rules == [] {
    } else {
      ManagedOnly(rules[1..]);
    }
  }

  function Emptied(t: Table, chain: Token): Table {
    if chain in t.chains then t.(chains := t.chains[chain := []]) else t
  }

  lemma ErasableStaging(t: Table, u: Table)
    requires u.input == Foreign(t.input)
    requires u.chains == if STAGING in t.chains then t.chains[STAGING := []] else t.chains
    ensures STAGING in t.chains ==>
              (Referenced(u, STAGING) <==> !(Unshared(t, STAGING) && !AnyRefers(OldRules(t, STABLE), STAGING)))
  {
    Names();
    if STAGING in t.chains {
      assert forall c :: c in u.chains && AnyRefers(u.chains[c], STAGING) ==> c != STAGING;
      assert forall c :: c in Others(t) ==> c in u.chains && u.chains[c] == Others(t)[c];
      assert STABLE in u.chains ==> u.chains[STABLE] == OldRules(t, STABLE);
      assert forall c :: c in u.chains && c != STABLE && c != STAGING ==> c in Others(t) && Others(t)[c] == u.chains[c];
    }
  }

  lemma ErasableStable(t: Table, u: Table)
    requires u.input == Foreign(t.input)
    requires STABLE in t.chains <==> STABLE in u.chains
    requires Others(u) == Others(t) && OldRules(u, STABLE) == [] && OldRules(u, STAGING) == []
    ensures STABLE in t.chains ==> (Referenced(u, STABLE) <==> !Unshared(t, STABLE))
  {
    assert forall c :: c in Others(t) ==> c in u.chains && u.chains[c] == Others(t)[c];
    assert forall c :: c in u.chains && c != STABLE && c != STAGING ==> c in Others(t) && Others(t)[c] == u.chains[c];
  }

  // The table every undisturbed, uninterrupted wiring run ends in.
  function Canonical(t: Table, rule: Spec): Table {
    Table([JumpTo(STABLE)] + Foreign(t.input), Others(t)[STABLE := [rule]])
  }

  predicate WellFormed(t: Table) {
    && (JumpTo(STABLE) in t.input ==> STABLE in t.chains)
    && (JumpTo(STAGING) in t.input ==> STAGING in t.chains)
  }

  predicate ManagedText(t: Table) {
    && (STABLE in t.chains ==> NoBlank(t.chains[STABLE]))
    && (STAGING in t.chains ==> NoBlank(t.chains[STAGING]))
  }

  class Runner {
    var table: Table
    var clock: nat
    const world: World
    ghost var log: seq<Entry>

    constructor (table: Table, world: World)
      ensures this.table == table && this.world == world && clock == 0 && log == []
    {
      this.table, this.world, clock, log := table, world, 0, [];
    }

    ghost function Now(): Moment reads this { Moment(table, clock, log) }

    method Run(cmd: Command) returns (reply: Reply)
      requires Owned(cmd)
      modifies this
      ensures Proceeded(world, old(Now()), Now()) && clock == old(clock) + 1
      ensures var e := world(old(clock)); var t := Disturb(old(table), e.noise);
              (table, reply) == Respond(t, cmd, e.fault) && log == old(log) + [Entry(t, table)]
      ensures forall g: Goal {:trigger Preserved(g, world, old(Now()), Now())} ::
                Harmless(g, Disturb(old(table), world(old(clock)).noise), cmd) ==>
                  Preserved(g, world, old(Now()), Now())
    {
      var e := world(clock);
      var t := Disturb(table, e.noise);
      var (t', r) := Respond(t, cmd, e.fault);
      OwnedKeeps(t, cmd);
      forall g: Goal | Harmless(g, t, cmd) && Holds(g, table) && Tolerates(g, e.noise)
        ensures Holds(g, t) && Holds(g, t')
      {
        NoiseKeeps(g, table, e.noise);
        HarmlessKeeps(g, t, cmd);
      }
      table, clock, reply := t', clock + 1, r;
      log := log + [Entry(t, t')];
    }

    // Between two points only other programs touched the table, and only INPUT.
    twostate predicate OnlyNoise() reads this {
      && table.chains == old(table.chains)
      && Managed(table.input) == Managed(old(table.input))
      && (Quiet(world, old(clock)) ==> table == old(table))
    }

    method RunChecked(cmd: Command) returns (r: Outcome<Reply>)
      requires Owned(cmd)
      modifies this
      ensures Proceeded(world, old(Now()), Now()) && clock == old(clock) + 1
      ensures var e := world(old(clock)); var t := Disturb(old(table), e.noise);
              var (t', reply) := Respond(t, cmd, e.fault);
              && table == t' && log == old(log) + [Entry(t, t')]
              && r == if reply.Done? || reply.Declared? then Ok(reply) else Err(CommandFailed)
      ensures forall g: Goal {:trigger Preserved(g, world, old(Now()), Now())} ::
                Harmless(g, Disturb(old(table), world(old(clock)).noise), cmd) ==>
                  Preserved(g, world, old(Now()), Now())
    {
      var reply := Run(cmd);
      if reply.Done? || reply.Declared? { return Ok(reply); }
      return Err(CommandFailed);
    }

    method RunCheckedAllowMissingChain(cmd: Command) returns (r: Outcome<()>)
      requires Owned(cmd)
      modifies this
      ensures Proceeded(world, old(Now()), Now()) && clock == old(clock) + 1
      ensures var e := world(old(clock)); var t := Disturb(old(table), e.noise);
              var (t', reply) := Respond(t, cmd, e.fault);
              && table == t' && log == old(log) + [Entry(t, t')]
              && r == if reply.Done? || reply.Declared? || reply.Missing? then Ok(()) else Err(CommandFailed)
      ensures forall g: Goal {:trigger Preserved(g, world, old(Now()), Now())} ::
                Harmless(g, Disturb(old(table), world(old(clock)).noise), cmd) ==>
                  Preserved(g, world, old(Now()), Now())
    {
      var reply := Run(cmd);
      if reply.Done? || reply.Declared? || reply.Missing? { return Ok(()); }
      return Err(CommandFailed);
    }

    // Only a missing-chain answer, or a full listing without the name, counts as absence.
    method ChainExists(chain: Token) returns (r: Outcome<bool>)
      requires chain !in BUILTIN_CHAINS
      modifies this
      ensures Proceeded(world, old(Now()), Now()) && clock >= old(clock) && OnlyNoise()
              && forall g: Goal :: Preserved(g, world, old(Now()), Now())
      ensures r.Ok? ==> (r.value <==> chain in table.chains)
      ensures Working(world, old(clock)) ==> r.Ok?
    {
      var reply := Run(ListChain(chain));
      if reply.Done? { return Ok(true); }
      if reply.Missing? { return Ok(false); }
      if reply.Ambiguous? {
        ghost var listed := Now();
        var full := RunChecked(ListAll);
        Onward(world, old(Now()), listed, Now());
        var listing :- full;
        if chain !in listing.names { return Ok(false); }
      }
      return Err(CommandFailed);
    }

    method EnsureChainExists(chain: Token) returns (r: Outcome<()>)
      requires chain == STABLE || chain == STAGING
      modifies this
      ensures Proceeded(world, old(Now()), Now()) && clock >= old(clock)
              && forall g: Goal :: Preserved(g, world, old(Now()), Now())
      ensures Managed(table.input) == Managed(old(table.input))
      ensures Quiet(world, old(clock)) ==> table.input == old(table.input)
      ensures r.Ok? ==>
                table.chains ==
                  (if chain in old(table.chains) then old(table.chains) else old(table.chains)[chain := []])
      ensures Working(world, old(clock)) ==> r.Ok?
    {
      Names();
      var present :- ChainExists(chain);
      if present { return Ok(()); }
      ghost var checked := Now();
      var made := RunChecked(New(chain));
      Onward(world, old(Now()), checked, Now());
      return if made.Ok? then Ok(()) else Err(made.error);
    }

    // The number of rules a chain's listing shows.
    method CountRules(chain: Token) returns (r: Outcome<nat>)
      modifies this
      ensures Proceeded(world, old(Now()), Now()) && clock >= old(clock) && OnlyNoise()
      ensures forall g: Goal :: Preserved(g, world, old(Now()), Now())
      ensures r.Ok? ==> chain in table.chains && r.value == |Visible(table.chains[chain])|
      ensures Working(world, old(clock)) && chain in old(table.chains) ==> r.Ok?
    {
      hide Proceeded, Preserved, Holds, ChainRuleCount, RulesOf, Visible, Managed, Foreign;
      var current :- RunChecked(ListChain(chain));
      ChainCount(chain, table.chains[chain]);
      return Ok(ChainRuleCount(current.lines, chain));
    }

    // Adds one rule at the end of a managed chain.
    method AppendRule(chain: Token, spec: Spec) returns (r: Outcome<()>)
      requires chain == STABLE || chain == STAGING
      modifies this
      ensures Proceeded(world, old(Now()), Now()) && clock >= old(clock)
      ensures forall g: Goal {:trigger Preserved(g, world, old(Now()), Now())} ::
                Suits(g, chain, spec) ==> Preserved(g, world, old(Now()), Now())
      ensures Managed(table.input) == Managed(old(table.input))
      ensures Quiet(world, old(clock)) ==> table.input == old(table.input)
      ensures r.Ok? ==>
                && chain in old(table.chains)
                && table.chains == old(table.chains)[chain := old(table.chains[chain]) + [spec]]
      ensures Working(world, old(clock)) && chain in old(table.chains) && TargetExists(old(table), spec) ==> r.Ok?
    {
      hide Proceeded, Preserved, Holds, RulesOf, Visible, Managed, Foreign, Refers;
      var appended := RunChecked(Append(chain, spec));
      return if appended.Ok? then Ok(()) else Err(appended.error);
    }

    // Adds the wanted rule behind the old ones, then deletes as many rules from the front as the
    // listing showed. The chain is never left empty, and never without the wanted rule.
    method ReplaceChain(chain: Token, spec: Spec) returns (r: Outcome<()>)
      requires chain == STABLE || chain == STAGING
      modifies this
      ensures Proceeded(world, old(Now()), Now()) && clock >= old(clock)
      ensures forall g: Goal {:trigger Preserved(g, world, old(Now()), Now())} ::
                Suits(g, chain, spec) ==> Preserved(g, world, old(Now()), Now())
      ensures Managed(table.input) == Managed(old(table.input))
      ensures Quiet(world, old(clock)) ==> table.input == old(table.input)
      ensures r.Ok? ==> chain in old(table.chains)
      ensures r.Ok? ==> table.chains == old(table.chains)[chain := Replaced(old(table.chains[chain]), spec)]
      ensures Working(world, old(clock)) && chain in old(table.chains) && TargetExists(old(table), spec) ==> r.Ok?
    {
      hide Proceeded, Preserved, Holds, Visible, Managed, Foreign, Without, Refers, Count, RemoveFirst, RuleLines;
      ghost var m0 := Now();
      var counted := CountRules(chain);
      ghost var m1 := Now();
      Onward(world, m0, m0, m1) by { Standstill(world, m0); }
      if counted.Err? { return Err(counted.error); }
      ghost var rules := table.chains[chain];
      VisibleFacts(rules);
      var appended := AppendRule(chain, spec);
      ghost var m2 := Now();
      Onward(world, m0, m1, m2);
      if appended.Err? { return appended; }
      r := DeleteFromFront(chain, counted.value);
      Onward(world, m0, m2, Now());
    }

    // Deletes `count` rules, one by one, from the front of a chain that has more than that.
    method DeleteFromFront(chain: Token, count: nat) returns (r: Outcome<()>)
      requires chain == STABLE || chain == STAGING
      requires chain in table.chains && count < |table.chains[chain]|
      modifies this
      ensures Proceeded(world, old(Now()), Now()) && clock >= old(clock)
      ensures forall g: Goal {:trigger Preserved(g, world, old(Now()), Now())} ::
                (Staged(g) && chain == STAGING ==> JumpTo(STABLE) == old(Last(table.chains[chain]))) ==>
                  Preserved(g, world, old(Now()), Now())
      ensures Managed(table.input) == Managed(old(table.input))
      ensures Quiet(world, old(clock)) ==> table.input == old(table.input)
      ensures r.Ok? ==> table.chains == old(table.chains)[chain := old(table.chains[chain])[count..]]
      ensures Working(world, old(clock)) ==> r.Ok?
    {
      hide Proceeded, Preserved, Holds, ChainRuleCount, RulesOf, Visible, Managed, Foreign, Without, Refers, Count,
        RemoveFirst, RuleLines;
      ghost var rules := table.chains[chain];
      Standstill(world, Now());
      var k := 0;
      while k < count
        invariant 0 <= k <= count
        invariant Proceeded(world, old(Now()), Now()) && clock >= old(clock)
        invariant table.chains == old(table.chains)[chain := rules[k..]]
        invariant Managed(table.input) == Managed(old(table.input))
        invariant Quiet(world, old(clock)) ==> table.input == old(table.input)
        invariant forall g: Goal {:trigger Preserved(g, world, old(Now()), Now())} ::
                    (Staged(g) && chain == STAGING ==> JumpTo(STABLE) == Last(rules)) ==>
                      Preserved(g, world, old(Now()), Now())
      {
        ghost var before := Now();
        assert rules[k..][1..] == rules[k + 1..];
        assert Last(rules) == rules[k..][1..][|rules| - k - 2];
        var deleted := RunChecked(DeleteFirst(chain));
        Onward(world, old(Now()), before, Now());
        if deleted.Err? { return Err(deleted.error); }
        k := k + 1;
      }
      return Ok(());
    }

    method ReplaceChainRuleFailClosed(chain: Token, setName: Token, target: Token) returns (r: Outcome<()>)
      requires chain == STABLE
      modifies this
      ensures Proceeded(world, old(Now()), Now()) && clock >= old(clock)
      ensures forall g: Goal {:trigger Preserved(g, world, old(Now()), Now())} ::
                Suits(g, chain, SetRule(setName, target)) ==> Preserved(g, world, old(Now()), Now())
      ensures Managed(table.input) == Managed(old(table.input))
      ensures Quiet(world, old(clock)) ==> table.input == old(table.input)
      ensures r.Ok? ==> chain in old(table.chains)
      ensures r.Ok? ==>
                table.chains == old(table.chains)[chain := Replaced(old(table.chains[chain]), SetRule(setName, target))]
      ensures Working(world, old(clock)) && chain in old(table.chains) ==> r.Ok?
    {
      r := ReplaceChain(chain, SetRule(setName, target));
    }

    // Lists INPUT and deletes one exact jump, again and again, until a listing shows none.
    method RemoveAllInputJumpsForChain(chain: Token) returns (r: Outcome<()>)
      requires chain == STABLE || chain == STAGING
      modifies this
      ensures Proceeded(world, old(Now()), Now()) && clock >= old(clock)
      ensures forall g: Goal {:trigger Preserved(g, world, old(Now()), Now())} ::
                g.Orderly? || Staged(g) == (chain == STABLE) ==> Preserved(g, world, old(Now()), Now())
      ensures table.chains == old(table.chains)
      ensures Without(Managed(table.input), JumpTo(chain)) == Without(Managed(old(table.input)), JumpTo(chain))
      ensures Quiet(world, old(clock)) ==>
                Without(table.input, JumpTo(chain)) == Without(old(table.input), JumpTo(chain))
      ensures r.Ok? ==> JumpTo(chain) !in table.input
      ensures Working(world, old(clock)) && (JumpTo(chain) in old(table.input) ==> chain in old(table.chains)) ==> r.Ok?
    {
      hide Proceeded, Preserved, Holds, ChainRuleCount, RulesOf, Visible, Managed, Foreign, Without, Refers, Count,
        RemoveFirst, RuleLines;
      Names();
      Standstill(world, Now());
      while true
        invariant Proceeded(world, old(Now()), Now()) && clock >= old(clock)
        invariant forall g: Goal {:trigger Preserved(g, world, old(Now()), Now())} ::
                    g.Orderly? || Staged(g) == (chain == STABLE) ==> Preserved(g, world, old(Now()), Now())
        invariant table.chains == old(table.chains)
        invariant Without(Managed(table.input), JumpTo(chain)) == Without(Managed(old(table.input)), JumpTo(chain))
        invariant Quiet(world, old(clock)) ==>
                    Without(table.input, JumpTo(chain)) == Without(old(table.input), JumpTo(chain))
        invariant JumpTo(chain) in table.input ==> JumpTo(chain) in old(table.input)
        decreases Count(table.input, JumpTo(chain))
      {
        ghost var start := Now();
        var input := RunChecked(ListInput);
        Onward(world, old(Now()), start, Now());
        if input.Err? { return Err(input.error); }
        InputPositions(table, chain);
        SameJumps(start.table, table);
        CountIn(old(table.input), JumpTo(chain));
        if ExactJumpPositions(input.value.lines, chain) == [] { return Ok(()); }
        ghost var listed := Now();
        var deleted := DeleteJump(chain);
        Onward(world, old(Now()), listed, Now());
        if !deleted { return Err(CommandFailed); }
      }
    }

    method DeleteJump(chain: Token) returns (deleted: bool)
      requires chain == STABLE || chain == STAGING
      requires JumpTo(chain) in table.input
      modifies this
      ensures Proceeded(world, old(Now()), Now()) && clock >= old(clock)
      ensures forall g: Goal {:trigger Preserved(g, world, old(Now()), Now())} ::
                g.Orderly? || Staged(g) == (chain == STABLE) ==> Preserved(g, world, old(Now()), Now())
      ensures table.chains == old(table.chains)
      ensures Without(Managed(table.input), JumpTo(chain)) == Without(Managed(old(table.input)), JumpTo(chain))
      ensures Quiet(world, old(clock)) ==>
                Without(table.input, JumpTo(chain)) == Without(old(table.input), JumpTo(chain))
      ensures deleted ==> Count(table.input, JumpTo(chain)) < Count(old(table.input), JumpTo(chain))
      ensures Working(world, old(clock)) && chain in old(table.chains) ==> deleted
    {
      hide Proceeded, Preserved, Holds, RemoveFirst, Without, Foreign, Managed, Refers, Count, RuleLines;
      Names();
      ghost var seen := Disturb(table, world(clock).noise);
      SameJumps(table, seen);
      RemoveFirstKeeps(seen.input, JumpTo(chain));
      var reply := Run(DeleteInput(JumpTo(chain)));
      deleted := reply.Done?;
    }

    // Puts a jump to a managed chain in front of everything.
    method InsertJump(chain: Token) returns (r: Outcome<()>)
      requires chain == STABLE || chain == STAGING
      modifies this
      ensures Proceeded(world, old(Now()), Now()) && clock == old(clock) + 1
      ensures forall g: Goal {:trigger Preserved(g, world, old(Now()), Now())} ::
                (Blocks(g) ==> (Staged(g) <==> chain == STAGING)) ==> Preserved(g, world, old(Now()), Now())
      ensures var t := Disturb(old(table), world(old(clock)).noise);
              && log == old(log) + [Entry(t, table)] && table.chains == old(table.chains)
              && (table == t || table == Apply(t, InsertInput(JumpTo(chain))).0)
              && (r.Ok? ==> table.input == [JumpTo(chain)] + t.input)
              && Managed(t.input) == Managed(old(table.input)) && (Quiet(world, old(clock)) ==> t == old(table))
      ensures r.Ok? ==> Managed(table.input) == [JumpTo(chain)] + Managed(old(table.input))
      ensures Working(world, old(clock)) && chain in old(table.chains) ==> r.Ok?
    {
      hide Proceeded, Preserved, Holds, Foreign, Refers, AnyRefers, Visible;
      Names();
      ghost var t := Disturb(table, world(clock).noise);
      assert ([JumpTo(chain)] + t.input)[1..] == t.input;
      var inserted := RunChecked(InsertInput(JumpTo(chain)));
      return if inserted.Ok? then Ok(()) else Err(inserted.error);
    }

    // First half of the normalisation: a staging chain that only jumps to the stable chain is put
    // in front of everything.
    method StageJump(ghost rule: Spec) returns (r: Outcome<()>)
      modifies this
      ensures Proceeded(world, old(Now()), Now()) && clock >= old(clock)
      ensures forall g: Goal {:trigger Preserved(g, world, old(Now()), Now())} ::
                !Blocks(g) ==> Preserved(g, world, old(Now()), Now())
      ensures ArmedOn(old(Now()), Now())
      ensures Quiet(world, old(clock)) && StagingText(old(table)) ==> EnforcedOn(old(Now()), Now(), rule)
      ensures r.Ok? ==>
                table.chains == old(table.chains)[STAGING := Replaced(OldRules(old(table), STAGING), JumpTo(STABLE))]
      ensures r.Ok? ==> Managed(table.input) == [JumpTo(STAGING)] + Managed(old(table.input))
      ensures r.Ok? ==> old(log) < log && LastOf(log).after == table
      ensures r.Ok? && Quiet(world, old(clock)) ==> table.input == [JumpTo(STAGING)] + old(table.input)
      ensures Working(world, old(clock)) && STABLE in old(table.chains) ==> r.Ok?
    {
      hide Proceeded, Preserved, ArmedOn, EnforcedOn, Without, Foreign, Visible, Replaced, Refers, Count,
        RemoveFirst, RuleLines;
      Names();
      ghost var m0 := Now();
      var ensured := EnsureChainExists(STAGING);
      ghost var m1 := Now();
      GoalsKept(world, m0, m1, rule);
      if ensured.Err? { return ensured; }
      var replaced := ReplaceChain(STAGING, JumpTo(STABLE));
      ghost var m2 := Now();
      Onward(world, m0, m1, m2);
      GoalsKept(world, m0, m2, rule);
      if replaced.Err? { return replaced; }
      ReplacedAlone(OldRules(m0.table, STAGING), JumpTo(STABLE));
      var inserted := InsertJump(STAGING);
      Onward(world, m0, m2, Now());
      GoalsKept(world, m0, Now(), rule);
      if Quiet(world, m0.clock) && StagingText(m0.table) {
        InsertStage(m2, Now(), rule);
        OnGuard(m0, m2, Now(), rule);
      }
      if inserted.Err? { return Err(inserted.error); }
      return Ok(());
    }

    // The direct jump goes in front, then the staged one is removed everywhere.
    method SwapJumps(ghost rule: Spec) returns (r: Outcome<()>)
      modifies this
      ensures Proceeded(world, old(Now()), Now()) && clock >= old(clock)
      ensures Preserved(Orderly, world, old(Now()), Now())
      ensures Holds(ReachStaging, old(table)) ==> ArmedOn(old(Now()), Now())
      ensures Quiet(world, old(clock)) && Holds(BlockStaging(rule), old(table)) ==> EnforcedOn(old(Now()), Now(), rule)
      ensures table.chains == old(table.chains)
      ensures r.Ok? ==> JumpTo(STABLE) in table.input && JumpTo(STAGING) !in table.input
      ensures r.Ok? && Quiet(world, old(clock)) ==> table.input == [JumpTo(STABLE)] + Foreign(old(table.input))
      ensures Quiet(world, old(clock)) && Working(world, old(clock)) && Releasable(old(table)) ==> r.Ok?
    {
      hide Proceeded, Preserved, ArmedOn, EnforcedOn, Without, Foreign, Managed, Unshared, AnyRefers, Refers, Count,
        RemoveFirst, RuleLines;
      Names();
      ghost var m0 := Now();
      Standstill(world, m0);
      var unlinked := RemoveAllInputJumpsForChain(STABLE);
      ghost var m1 := Now();
      Onward(world, m0, m0, m1);
      StagedOn(world, m0, m1, rule);
      if unlinked.Err? { return unlinked; }
      var inserted := InsertJump(STABLE);
      ghost var m2 := Now();
      Onward(world, m0, m1, m2);
      Handover(world, m0, m1, m2, rule);
      if inserted.Err? { return Err(inserted.error); }
      WithoutHead(m1.table.input);
      WithoutGone(m0.table.input, JumpTo(STABLE));
      WithoutGone(m1.table.input, JumpTo(STABLE));
      ManagedIn(m2.table.input, JumpTo(STABLE));
      var unstaged := RemoveAllInputJumpsForChain(STAGING);
      Onward(world, m0, m2, Now());
      StableOn(world, m0, m2, Now(), rule);
      if unstaged.Err? { return unstaged; }
      StillThere(m2.table.input, table.input);
      if Quiet(world, m0.clock) { SettledInput(m0.table.input, table.input); }
      return Ok(());
    }

    // The staging chain is emptied and deleted, and the final INPUT listing is validated.
    method DropStaging() returns (r: Outcome<()>)
      modifies this
      ensures Proceeded(world, old(Now()), Now()) && clock >= old(clock)
      ensures forall g: Goal {:trigger Preserved(g, world, old(Now()), Now())} ::
                !Staged(g) ==> Preserved(g, world, old(Now()), Now())
      ensures r.Ok? ==> Settled(table) && table.chains == old(table.chains) - {STAGING}
      ensures Quiet(world, old(clock)) ==> table.input == old(table.input)
      ensures Quiet(world, old(clock)) && Working(world, old(clock)) && Settles(old(table)) ==> r.Ok?
    {
      hide Proceeded, Preserved, Managed, Visible, Referenced, FirstAndOnly, Refers, Count, RemoveFirst, RuleLines;
      Names();
      ghost var m0 := Now();
      var flushed := FlushChain(STAGING);
      ghost var m1 := Now();
      if flushed.Err? { return flushed; }
      var erased := EraseChain(STAGING);
      ghost var m2 := Now();
      Onward(world, m0, m1, m2);
      if erased.Err? { return erased; }
      r := ValidateInput();
      Onward(world, m0, m2, Now());
    }

    method ValidateInput() returns (r: Outcome<()>)
      modifies this
      ensures Proceeded(world, old(Now()), Now()) && clock >= old(clock)
      ensures forall g: Goal :: Preserved(g, world, old(Now()), Now())
      ensures table.chains == old(table.chains)
      ensures Quiet(world, old(clock)) ==> table == old(table)
      ensures r.Ok? ==> FirstAndOnly(table.input)
      ensures r.Err? && r.error.UnexpectedInputWiring? ==>
                && !FirstAndOnly(table.input)
                && (r.error.stablePositions == [] <==> JumpTo(STABLE) !in table.input)
                && (r.error.stagingPositions == [] <==> JumpTo(STAGING) !in table.input)
      ensures Quiet(world, old(clock)) && Working(world, old(clock)) && FirstAndOnly(old(table.input)) ==> r.Ok?
    {
      hide Proceeded, Preserved, Managed, Visible, RulesOf, PositionsFrom, ExactJumpPositions, Refers, Count,
        RemoveFirst, RuleLines;
      var finalInput :- RunChecked(ListInput);
      var stablePositions := ExactJumpPositions(finalInput.lines, STABLE);
      var stagingPositions := ExactJumpPositions(finalInput.lines, STAGING);
      InputPositions(table, STABLE);
      InputPositions(table, STAGING);
      if stablePositions != [1] || stagingPositions != [] {
        return Err(UnexpectedInputWiring(stablePositions, stagingPositions));
      }
      return Ok(());
    }

    // Normalises INPUT. `mark` is the moment the staging jump went in, when it did.
    method NormalizeInputJumpFailClosed(ghost rule: Spec) returns (r: Outcome<()>, ghost mark: Option<Moment>)
      modifies this
      ensures Proceeded(world, old(Now()), Now()) && clock >= old(clock)
      ensures Preserved(Orderly, world, old(Now()), Now())
      ensures ArmedOn(old(Now()), Now())
      ensures Quiet(world, old(clock)) && StagingText(old(table)) ==> EnforcedOn(old(Now()), Now(), rule)
      ensures Quiet(world, old(clock)) && StagingText(old(table)) && AllEqual(old(table), STABLE, rule)
              && mark.Some? ==>
                Enforcing(mark.value.table, rule) && EnforcedOn(mark.value, Now(), rule)
      ensures mark.Some? ==> Between(old(Now()), mark.value, Now())
      ensures r.Ok? ==> mark.Some? && Settled(table) && table.chains == old(table.chains) - {STAGING}
      ensures r.Ok? && Quiet(world, old(clock)) ==> table.input == [JumpTo(STABLE)] + Foreign(old(table.input))
      ensures Quiet(world, old(clock)) && Working(world, old(clock)) && Releasable(old(table)) ==> r.Ok?
    {
      hide Proceeded, Preserved, ArmedOn, EnforcedOn, Unshared, AnyRefers, Replaced, Settles, FirstAndOnly, Refers,
        Count, RemoveFirst, RuleLines;
      Names();
      ghost var m0 := Now();
      mark := None;
      r := StageJump(rule);
      ghost var m1 := Now();
      Onward(world, m0, m0, m1);
      if r.Err? { return; }
      mark := Some(m1);
      ReplacedAlone(OldRules(m0.table, STAGING), JumpTo(STABLE));
      StagedNow(m0, m1, rule);
      assert ([JumpTo(STAGING)] + m0.table.input)[1..] == m0.table.input;
      if Quiet(world, m0.clock) && Releasable(m0.table) { ReleasableStaged(m0.table, m1.table); }
      r := SwapJumps(rule);
      ghost var m2 := Now();
      Onward(world, m0, m1, m2);
      OnGuard(m0, m1, m2, rule);
      Idle(m1, rule);
      OnGuard(m1, m1, m2, rule);
      if r.Err? { return; }
      if Quiet(world, m0.clock) && Releasable(m1.table) { CanSettle(m1.table, m2.table); }
      r := DropStaging();
      Onward(world, m0, m2, Now());
      Onward(world, m1, m2, Now());
      StableOn(world, m0, m2, Now(), rule);
      StableOn(world, m1, m2, Now(), rule);
    }

    // Establishes and normalises the wiring. Whatever fails and whoever else writes to INPUT, a
    // table that was armed stays armed at every moment; undisturbed, a table that enforced the
    // wanted rule keeps enforcing it at every moment, and from `mark` on any table does.
    method EnsureFirewallWiring(setName: Token, action: ChainAction)
      returns (r: Outcome<()>, ghost mark: Option<Moment>)
      modifies this
      ensures Proceeded(world, old(Now()), Now()) && clock >= old(clock)
      ensures Preserved(Orderly, world, old(Now()), Now())
      ensures ArmedOn(old(Now()), Now())
      ensures Quiet(world, old(clock)) && StagingText(old(table)) ==>
                EnforcedOn(old(Now()), Now(), WantedRule(setName, action))
      ensures Quiet(world, old(clock)) && ManagedText(old(table)) && mark.Some? ==>
                && Enforcing(mark.value.table, WantedRule(setName, action))
                && EnforcedOn(mark.value, Now(), WantedRule(setName, action))
      ensures mark.Some? ==> Between(old(Now()), mark.value, Now())
      ensures r.Ok? ==> mark.Some? && Settled(table)
      ensures r.Ok? ==>
                var kept := Replaced(OldRules(old(table), STABLE), WantedRule(setName, action));
                table.chains == Others(old(table))[STABLE := kept]
      ensures r.Ok? && Quiet(world, old(clock)) ==> table.input == [JumpTo(STABLE)] + Foreign(old(table.input))
      ensures Quiet(world, old(clock)) && Working(world, old(clock)) && Recoverable(old(table)) ==> r.Ok?
    {
      hide Proceeded, Preserved, ArmedOn, EnforcedOn, Unshared, AnyRefers, Foreign, Managed, Replaced, Visible,
        Refers, Count, RemoveFirst, RuleLines;
      Names();
      ghost var rule := WantedRule(setName, action);
      ghost var m0 := Now();
      mark := None;
      r := EnsureChainExists(STABLE);
      ghost var m1 := Now();
      Onward(world, m0, m0, m1);
      GoalsKept(world, m0, m1, rule);
      if r.Err? { return; }
      WantedRuleIsPlain(setName, action);
      r := ReplaceChainRuleFailClosed(STABLE, setName, AsTarget(action));
      ghost var m2 := Now();
      Onward(world, m0, m1, m2);
      GoalsKept(world, m0, m2, rule);
      if r.Err? { return; }
      ReplacedAlone(OldRules(m0.table, STABLE), rule);
      if Quiet(world, m0.clock) && Recoverable(m0.table) { ReleasableReplaced(m0.table, m2.table, setName, action); }
      r, mark := NormalizeInputJumpFailClosed(rule);
      Onward(world, m0, m2, Now());
      OnGuard(m0, m2, Now(), rule);
      assert Others(m2.table) == Others(m0.table);
    }

    // Empties a managed chain, if it is there.
    method FlushChain(chain: Token) returns (r: Outcome<()>)
      requires chain == STABLE || chain == STAGING
      modifies this
      ensures Proceeded(world, old(Now()), Now()) && clock >= old(clock)
      ensures forall g: Goal {:trigger Preserved(g, world, old(Now()), Now())} ::
                g.Orderly? || (chain == STAGING && !Staged(g)) ==> Preserved(g, world, old(Now()), Now())
      ensures Managed(table.input) == Managed(old(table.input))
      ensures Quiet(world, old(clock)) ==> table.input == old(table.input)
      ensures r.Ok? ==> table.chains == Emptied(old(table), chain).chains
      ensures r.Ok? || table.chains == old(table.chains) || table.chains == Emptied(old(table), chain).chains
      ensures clock == old(clock) + 1 && (world(old(clock)).fault.Works? ==> r.Ok?)
      ensures Working(world, old(clock)) ==> r.Ok?
    {
      hide Proceeded, Preserved, Holds, Foreign, Managed, Refers;
      r := RunCheckedAllowMissingChain(Flush(chain));
    }

    // Deletes a managed chain, if it is there; the kernel refuses while it is referred to.
    method EraseChain(chain: Token) returns (r: Outcome<()>)
      requires chain == STABLE || chain == STAGING
      modifies this
      ensures Proceeded(world, old(Now()), Now()) && clock >= old(clock)
      ensures forall g: Goal {:trigger Preserved(g, world, old(Now()), Now())} ::
                g.Orderly? || (chain == STAGING && !Staged(g)) ==> Preserved(g, world, old(Now()), Now())
      ensures Managed(table.input) == Managed(old(table.input))
      ensures Quiet(world, old(clock)) ==> table.input == old(table.input)
      ensures r.Ok? ==> table.chains == old(table.chains) - {chain}
      ensures clock == old(clock) + 1
              && (table.chains == old(table.chains) || table.chains == old(table.chains) - {chain})
      ensures Quiet(world, old(clock)) && Working(world, old(clock)) ==>
                && (r.Ok? <==>
                      chain !in old(table.chains) || (old(table.chains[chain]) == [] && !Referenced(old(table), chain)))
                && (r.Err? ==> table == old(table))
    {
      hide Proceeded, Preserved, Holds, Foreign, Managed, Refers, Referenced;
      r := RunCheckedAllowMissingChain(Erase(chain));
    }

    method FlushAndErase(chain: Token) returns (flushed: Outcome<()>, erased: Outcome<()>)
      requires chain == STABLE || chain == STAGING
      modifies this
      ensures Proceeded(world, old(Now()), Now()) && clock >= old(clock)
      ensures Preserved(Orderly, world, old(Now()), Now())
      ensures Managed(table.input) == Managed(old(table.input))
      ensures Quiet(world, old(clock)) ==> table.input == old(table.input)
      ensures flushed.Ok? && erased.Ok? ==> table.chains == old(table.chains) - {chain}
      ensures clock == old(clock) + 2 && (world(old(clock)).fault.Works? ==> OldRules(table, chain) == [])
      ensures forall c :: c != chain ==> OldRules(table, c) == OldRules(old(table), c)
      ensures Quiet(world, old(clock)) && Working(world, old(clock)) ==>
                && flushed.Ok?
                && (erased.Ok? <==> chain !in old(table.chains) || !Referenced(Emptied(old(table), chain), chain))
                && table ==
                   if erased.Ok? then old(table).(chains := old(table.chains) - {chain}) else Emptied(old(table), chain)
    {
      hide Proceeded, Preserved, Foreign, Managed, Referenced, Refers, Count, RemoveFirst, RuleLines;
      ghost var m0 := Now();
      flushed := FlushChain(chain);
      ghost var m1 := Now();
      erased := EraseChain(chain);
      Onward(world, m0, m1, Now());
    }

    // Empties and deletes both chains, the staging chain first. All four commands are tried; the
    // first failure is reported. `was` is the table before its managed jumps were removed.
    method EraseChains(ghost was: Table) returns (r: Outcome<()>)
      modifies this
      ensures Proceeded(world, old(Now()), Now())
      ensures Preserved(Orderly, world, old(Now()), Now())
      ensures Managed(table.input) == Managed(old(table.input))
      ensures Quiet(world, old(clock)) ==> table.input == old(table.input)
      ensures r.Ok? ==> table.chains == Others(old(table))
      ensures Quiet(world, old(clock)) && Working(world, old(clock))
              && old(table) == Table(Foreign(was.input), was.chains) ==>
                (r.Ok? <==> Removable(was))
      ensures clock == old(clock) + 4
              && (world(old(clock)).fault.Works? ==> OldRules(table, STAGING) == [])
              && (world(old(clock) + 2).fault.Works? ==> OldRules(table, STABLE) == [])
    {
      hide Proceeded, Preserved, Foreign, Managed, Without, Unshared, AnyRefers, Referenced, Refers, Count,
        RemoveFirst, RuleLines;
      Names();
      ghost var m0 := Now();
      var stagingFlush, stagingDelete := FlushAndErase(STAGING);
      ghost var m1 := Now();
      var stableFlush, stableDelete := FlushAndErase(STABLE);
      Onward(world, m0, m1, Now());
      if Quiet(world, m0.clock) && Working(world, m0.clock) && m0.table == Table(Foreign(was.input), was.chains) {
        ErasableStaging(was, Emptied(m0.table, STAGING));
        ErasableStable(was, Emptied(m1.table, STABLE));
      }
      if stagingFlush.Err? { return stagingFlush; }
      if stagingDelete.Err? { return stagingDelete; }
      if stableFlush.Err? { return stableFlush; }
      return stableDelete;
    }

    // Removes the managed wiring. All six steps are tried; the first failure is reported. `second` is
    // the moment the first step, removing the staging jumps, was over: however it ended, a working
    // kernel from then on loses every stable jump and the rules of both chains. In fact each chain
    // is emptied if just its own flush works, whatever else failed.
    method CleanupFirewallWiring() returns (r: Outcome<()>, ghost second: Moment)
      modifies this
      ensures Proceeded(world, old(Now()), Now()) && clock >= old(clock)
      ensures Preserved(Orderly, world, old(Now()), Now())
      ensures r.Ok? ==> table.chains == Others(old(table)) && Managed(table.input) == []
      ensures r.Ok? && Quiet(world, old(clock)) ==> table == Table(Foreign(old(table.input)), Others(old(table)))
      ensures Quiet(world, old(clock)) && Working(world, old(clock)) && WellFormed(old(table)) ==>
                (r.Ok? <==> Removable(old(table)))
      ensures Proceeded(world, old(Now()), second) && Proceeded(world, second, Now())
      ensures second.table.chains == old(table.chains)
              && Without(Managed(second.table.input), JumpTo(STAGING)) ==
                 Without(Managed(old(table.input)), JumpTo(STAGING))
      ensures Working(world, second.clock) && WellFormed(old(table)) ==>
                JumpTo(STABLE) !in table.input && OldRules(table, STAGING) == [] && OldRules(table, STABLE) == []
      ensures clock >= old(clock) + 4
              && (world(clock - 4).fault.Works? ==> OldRules(table, STAGING) == [])
              && (world(clock - 2).fault.Works? ==> OldRules(table, STABLE) == [])
    {
      hide Proceeded, Preserved, Foreign, Managed, Without, Unshared, AnyRefers, Referenced, Refers, Count,
        RemoveFirst, RuleLines, Removable;
      Names();
      ghost var m0 := Now();
      var stagingJump := RemoveAllInputJumpsForChain(STAGING);
      ghost var m1 := Now();
      second := m1;
      Onward(world, m0, m0, m1);
      SameStable(m0.table.input, m1.table.input);
      WithoutGone(m0.table.input, JumpTo(STAGING));
      WithoutGone(m1.table.input, JumpTo(STAGING));
      var stableJump := RemoveAllInputJumpsForChain(STABLE);
      ghost var m2 := Now();
      Onward(world, m0, m1, m2);
      if Quiet(world, m0.clock) { BothGone(m0.table.input, m1.table.input, m2.table.input); }
      var erased := EraseChains(m0.table);
      Onward(world, m0, m2, Now());
      Onward(world, m1, m2, Now());
      SameJumpsIn(m2.table.input, table.input);
      if JumpTo(STAGING) !in m1.table.input { StillGone(m1.table.input, m2.table.input); }
      EmptyManaged(m2.table.input, table.input);
      if stagingJump.Err? { return stagingJump, second; }
      if stableJump.Err? { return stableJump, second; }
      return erased, second;
    }
  }
}
