// Blocks taken from selected parts of a JSON document, by a worklist.
module Extraction {
  import opened Options
  import opened Ordering
  import opened Networks
  import opened Envelope
  import opened Feed

  datatype Value =
    | Null
    | Bool(truth: bool)
    | Number(digits: string)
    | Text(text: string)
    | Array(values: seq<Value>)
    | Object(members: seq<Member>)

  datatype Member = Member(key: string, value: Value)

  datatype Selection = All | Selected(categories: seq<string>)

  // ---- Trees -------------------------------------------------------------------------------

  function ValuesOf(members: seq<Member>): (r: seq<Value>)
    ensures |r| == |members| && forall i :: 0 <= i < |r| ==> r[i] == members[i].value
  {
    seq(|members|, i requires 0 <= i < |members| => members[i].value)
  }

  function Children(v: Value): (r: seq<Value>)
    ensures forall i :: 0 <= i < |r| ==> r[i] < v
  {
    match v
    case Array(values) => values
    case Object(members) => ValuesOf(members)
    case _ => []
  }

  // A string somewhere in the tree.
  predicate HasText(v: Value, text: string)
    decreases v
  {
    v == Text(text) || exists i :: 0 <= i < |Children(v)| && HasText(Children(v)[i], text)
  }

  // Anything but arrays and objects somewhere in the tree.
  predicate HasScalar(v: Value)
    decreases v
  {
    (!v.Array? && !v.Object?) || exists i :: 0 <= i < |Children(v)| && HasScalar(Children(v)[i])
  }

  predicate IsEmptyContainerTree(v: Value)
    decreases v
  {
    match v
    case Array(values) => forall i :: 0 <= i < |values| ==> IsEmptyContainerTree(values[i])
    case Object(members) => forall i :: 0 <= i < |members| ==> IsEmptyContainerTree(members[i].value)
    case _ => false
  }

  lemma {:induction false} EmptyMeansNoScalar(v: Value)
    ensures IsEmptyContainerTree(v) <==> !HasScalar(v)
    decreases v
  {
    var kids := Children(v);
    forall i | 0 <= i < |kids| ensures IsEmptyContainerTree(kids[i]) <==> !HasScalar(kids[i]) {
      EmptyMeansNoScalar(kids[i]);
    }
  }

  function Nodes(v: Value): (n: nat)
    ensures n > 0
    decreases v
  {
    1 + (match v case Array(values) => NodesIn(values) case Object(members) => NodesInMembers(members) case _ => 0)
  }

  function NodesIn(values: seq<Value>): nat
    decreases values
  {
    if values == [] then 0 else Nodes(values[0]) + NodesIn(values[1..])
  }

  function NodesInMembers(members: seq<Member>): nat
    decreases members
  {
    if members == [] then 0 else Nodes(members[0].value) + NodesInMembers(members[1..])
  }

  lemma {:induction false} MembersCount(members: seq<Member>)
    ensures NodesInMembers(members) == NodesIn(ValuesOf(members))
  {
    if members == [] {
    } else {
      MembersCount(members[1..]);
      assert ValuesOf(members)[1..] == ValuesOf(members[1..]);
    }
  }

  lemma {:induction false} NodesConcat(a: seq<Value>, b: seq<Value>)
    ensures NodesIn(a + b) == NodesIn(a) + NodesIn(b)
  {
    if a == [] {
      assert a + b == b;
    } else {
      NodesConcat(a[1..], b);
      assert (a + b)[1..] == a[1..] + b;
    }
  }

  lemma NodesOfChildren(v: Value)
    ensures NodesIn(Children(v)) < Nodes(v)
  {
    if v.Object? { MembersCount(v.members); }
  }

  // ---- Worklist ----------------------------------------------------------------------------

  // The first word of a text, read as a block.
  function ParseNonStrict(codec: Codec, text: string): Option<CanonicalCidr> {
    var word := FirstWord(text);
    if word.Some? then codec.parse(word.value) else None
  }

  // A string gives the block its first word is, whatever blanks come before it and whatever words
  // come after; a blank string gives none.
  lemma FirstWordCounts(codec: Codec, lead: string, word: string, rest: string)
    requires Blank(lead)
    ensures ParseNonStrict(codec, lead).None?
    ensures word != "" && (forall i :: 0 <= i < |word| ==> !IsSpace(word[i])) && (rest == "" || IsSpace(rest[0])) ==>
              ParseNonStrict(codec, lead + word + rest) == codec.parse(word)
  {
    TrimStartFacts(lead, "");
    assert lead + "" == lead;
    if word != "" && (forall i :: 0 <= i < |word| ==> !IsSpace(word[i])) && (rest == "" || IsSpace(rest[0])) {
      assert lead + word + rest == lead + (word + rest);
      TrimStartFacts(lead, word + rest);
      WordEnds(word, rest);
    }
  }

  ghost predicate Found(codec: Codec, v: Value, c: CanonicalCidr) {
    exists text :: HasText(v, text) && ParseNonStrict(codec, text) == Some(c)
  }

  ghost predicate FoundIn(codec: Codec, queue: seq<Value>, c: CanonicalCidr) {
    exists i :: 0 <= i < |queue| && Found(codec, queue[i], c)
  }

  lemma FoundHere(codec: Codec, v: Value, c: CanonicalCidr)
    ensures Found(codec, v, c) <==>
            (v.Text? && ParseNonStrict(codec, v.text) == Some(c)) || FoundIn(codec, Children(v), c)
  {
    var kids := Children(v);
    if Found(codec, v, c) {
      var text :| HasText(v, text) && ParseNonStrict(codec, text) == Some(c);
      if v != Text(text) {
        var i :| 0 <= i < |kids| && HasText(kids[i], text);
        assert Found(codec, kids[i], c);
      }
    }
    if FoundIn(codec, kids, c) {
      var i :| 0 <= i < |kids| && Found(codec, kids[i], c);
      var text :| HasText(kids[i], text) && ParseNonStrict(codec, text) == Some(c);
      assert HasText(v, text);
    }
    if v.Text? && ParseNonStrict(codec, v.text) == Some(c) { assert HasText(v, v.text); }
  }

  lemma FoundInConcat(codec: Codec, a: seq<Value>, b: seq<Value>, c: CanonicalCidr)
    ensures FoundIn(codec, a + b, c) <==> FoundIn(codec, a, c) || FoundIn(codec, b, c)
  {
    var u := a + b;
    if FoundIn(codec, a, c) {
      var i :| 0 <= i < |a| && Found(codec, a[i], c);
      assert Found(codec, u[i], c);
    }
    if FoundIn(codec, b, c) {
      var i :| 0 <= i < |b| && Found(codec, b[i], c);
      assert Found(codec, u[|a| + i], c);
    }
  }

  // What taking one value off the queue and putting its children at the end does.
  lemma QueueStep(codec: Codec, queue: seq<Value>)
    requires queue != []
    ensures var v, next := queue[0], queue[1..] + Children(queue[0]);
            && NodesIn(next) < NodesIn(queue)
            && forall c :: FoundIn(codec, queue, c) <==>
                 FoundIn(codec, next, c) || (v.Text? && ParseNonStrict(codec, v.text) == Some(c))
  {
    hide Found, Nodes, Children, ParseNonStrict;
    var v, rest := queue[0], queue[1..];
    NodesOfChildren(v);
    NodesConcat(rest, Children(v));
    assert queue == [v] + rest;
    forall c ensures FoundIn(codec, queue, c) <==>
        FoundIn(codec, rest + Children(v), c) || (v.Text? && ParseNonStrict(codec, v.text) == Some(c))
    {
      FoundHere(codec, v, c);
      FoundInConcat(codec, rest, Children(v), c);
      FoundInConcat(codec, [v], rest, c);
      OneFound(codec, v, c);
    }
  }

  lemma OneFound(codec: Codec, v: Value, c: CanonicalCidr)
    ensures FoundIn(codec, [v], c) <==> Found(codec, v, c)
  {
    if Found(codec, v, c) { assert Found(codec, [v][0], c); }
  }

  // Adds every block found in the tree, in the order a breadth-first walk meets them.
  method CollectNetworks(codec: Codec, value: Value, already: seq<CanonicalCidr>)
    returns (extracted: seq<CanonicalCidr>)
    ensures forall c :: c in extracted <==> c in already || Found(codec, value, c)
  {
    hide Found, FoundIn, Nodes, NodesIn, Children, ParseNonStrict;
    var queue := [value];
    extracted := already;
    forall c ensures FoundIn(codec, queue, c) <==> Found(codec, value, c) { OneFound(codec, value, c); }
    while queue != []
      invariant forall c :: c in extracted || FoundIn(codec, queue, c) <==> c in already || Found(codec, value, c)
      decreases NodesIn(queue)
    {
      var next := queue[0];
      QueueStep(codec, queue);
      queue := queue[1..] + Children(next);
      if next.Text? {
        var cidr := ParseNonStrict(codec, next.text);
        if cidr.Some? { extracted := extracted + [cidr.value]; }
      }
    }
    NoneFound(codec);
  }

  lemma NoneFound(codec: Codec)
    ensures forall c :: !FoundIn(codec, [], c)
  {
  }

  // ---- Selection ---------------------------------------------------------------------------

  function Get(members: seq<Member>, key: string): Option<Value> {
    if members == [] then None else if members[0].key == key then Some(members[0].value) else Get(members[1..], key)
  }

  function Present(members: seq<Member>, categories: seq<string>): seq<Value> {
    if categories == [] then []
    else
      var rest, v := Present(members, categories[..|categories| - 1]), Get(members, categories[|categories| - 1]);
      if v.Some? then rest + [v.value] else rest
  }

  // A parsed document's objects have each key once.
  predicate DistinctKeys(value: Value) {
    value.Object? ==>
      forall i, j :: 0 <= i < j < |value.members| ==> value.members[i].key != value.members[j].key
  }

  // What a selection is meant to take from a document: all of it, or the values of the members
  // whose key is one of the categories.
  ghost predicate Chosen(value: Value, selection: Selection, v: Value) {
    match selection
    case All => v == value
    case Selected(categories) =>
      value.Object?
      && exists i :: 0 <= i < |value.members| && value.members[i].key in categories && v == value.members[i].value
  }

  // Every category is some member's key.
  ghost predicate Covered(value: Value, selection: Selection) {
    match selection
    case All => true
    case Selected(categories) =>
      value.Object?
      && forall k :: 0 <= k < |categories| ==>
           exists i :: 0 <= i < |value.members| && value.members[i].key == categories[k]
  }

  lemma {:induction false} GetFinds(members: seq<Member>, key: string)
    ensures Get(members, key).Some? <==> exists i :: 0 <= i < |members| && members[i].key == key
    ensures Get(members, key).Some? ==> Member(key, Get(members, key).value) in members
  {
    if members == [] {
    } else {
      GetFinds(members[1..], key);
      assert members == [members[0]] + members[1..];
      if i :| 0 <= i < |members| && members[i].key == key && members[0].key != key {
        assert members[1..][i - 1] == members[i];
      }
    }
  }

  lemma GetAt(members: seq<Member>, i: nat)
    requires DistinctKeys(Object(members)) && i < |members|
    ensures Get(members, members[i].key) == Some(members[i].value)
  {
    var key := members[i].key;
    GetFinds(members, key);
    var j :| 0 <= j < |members| && members[j] == Member(key, Get(members, key).value);
    assert Object(members).members == members;
  }

  lemma {:induction false} PresentAre(members: seq<Member>, categories: seq<string>)
    ensures forall v :: v in Present(members, categories) <==>
              exists k :: 0 <= k < |categories| && Get(members, categories[k]) == Some(v)
  {
    if categories == [] {
    } else {
      var front, last := categories[..|categories| - 1], categories[|categories| - 1];
      PresentAre(members, front);
      assert categories == front + [last];
      forall v ensures v in Present(members, categories) <==>
        exists k :: 0 <= k < |categories| && Get(members, categories[k]) == Some(v) {
        if k :| 0 <= k < |front| && Get(members, front[k]) == Some(v) {
          assert categories[k] == front[k];
        }
        if k :| 0 <= k < |categories| && Get(members, categories[k]) == Some(v) {
          assert k < |front| ==> front[k] == categories[k];
        }
      }
    }
  }

  // Looking the categories up one by one finds exactly the chosen subtrees.
  lemma SubtreesAreChosen(value: Value, selection: Selection)
    requires DistinctKeys(value)
    ensures forall v :: v in Subtrees(value, selection) <==> Chosen(value, selection, v)
    ensures AllPresent(value, selection) <==> Covered(value, selection)
  {
    if selection.Selected? && value.Object? {
      var members, categories := value.members, selection.categories;
      hide Get;
      PresentAre(members, categories);
      forall k | 0 <= k < |categories|
        ensures Get(members, categories[k]).Some? <==> exists i :: 0 <= i < |members| && members[i].key == categories[k]
      {
        GetFinds(members, categories[k]);
      }
      forall v ensures v in Present(members, categories) <==> Chosen(value, selection, v) {
        if k :| 0 <= k < |categories| && Get(members, categories[k]) == Some(v) { GetFinds(members, categories[k]); }
        if i :| 0 <= i < |members| && members[i].key in categories && members[i].value == v { GetAt(members, i); }
      }
    }
  }

  lemma FoundAmong(codec: Codec, trees: seq<Value>, c: CanonicalCidr)
    ensures FoundIn(codec, trees, c) <==> exists v :: v in trees && Found(codec, v, c)
  {
    hide Found;
  }

  // The subtrees that count.
  function Subtrees(value: Value, selection: Selection): seq<Value> {
    match selection
    case All => [value]
    case Selected(categories) => if value.Object? then Present(value.members, categories) else []
  }

  predicate AllPresent(value: Value, selection: Selection) {
    match selection
    case All => true
    case Selected(categories) =>
      value.Object? && forall i :: 0 <= i < |categories| ==> Get(value.members, categories[i]).Some?
  }

  method ExtractNetworks(codec: Codec, value: Value, selection: Selection) returns (networks: seq<CanonicalCidr>)
    ensures Sorted(networks, CidrLess)
    ensures forall c :: c in networks <==> FoundIn(codec, Subtrees(value, selection), c)
    ensures DistinctKeys(value) ==>
              forall c :: c in networks <==> exists v :: Chosen(value, selection, v) && Found(codec, v, c)
  {
    hide Found, FoundIn, Chosen;
    var extracted := [];
    NoneFound(codec);
    match selection {
      case All =>
        forall c ensures FoundIn(codec, [value], c) <==> Found(codec, value, c) { OneFound(codec, value, c); }
        extracted := CollectNetworks(codec, value, extracted);
      case Selected(categories) =>
        if value.Object? {
          for k := 0 to |categories|
            invariant forall c :: c in extracted <==> FoundIn(codec, Present(value.members, categories[..k]), c)
          {
            var entry := Get(value.members, categories[k]);
            ghost var seen := Present(value.members, categories[..k]);
            assert categories[..k + 1][..k] == categories[..k];
            if entry.Some? {
              forall c ensures FoundIn(codec, seen + [entry.value], c) <==>
                FoundIn(codec, seen, c) || Found(codec, entry.value, c) {
                FoundInConcat(codec, seen, [entry.value], c);
                OneFound(codec, entry.value, c);
              }
              extracted := CollectNetworks(codec, entry.value, extracted);
            }
          }
          assert categories[..|categories|] == categories;
        }
    }
    CidrOrder();
    SortUniqueFacts(extracted, CidrLess);
    networks := SortUnique(extracted, CidrLess);
    if DistinctKeys(value) {
      SubtreesAreChosen(value, selection);
      forall c ensures c in networks <==> exists v :: Chosen(value, selection, v) && Found(codec, v, c) {
        FoundAmong(codec, Subtrees(value, selection), c);
      }
    }
  }

  // ---- Recursive definition ----------------------------------------------------------------

  // The blocks of a tree in depth-first order.
  function Blocks(codec: Codec, v: Value): seq<CanonicalCidr>
    decreases v
  {
    match v
    case Text(text) =>
      var c := ParseNonStrict(codec, text);
      if c.Some? then [c.value] else []
    case Array(values) => BlocksIn(codec, values)
    case Object(members) => BlocksInMembers(codec, members)
    case _ => []
  }

  function BlocksIn(codec: Codec, values: seq<Value>): seq<CanonicalCidr>
    decreases values
  {
    if values == [] then [] else Blocks(codec, values[0]) + BlocksIn(codec, values[1..])
  }

  function BlocksInMembers(codec: Codec, members: seq<Member>): seq<CanonicalCidr>
    decreases members
  {
    if members == [] then [] else Blocks(codec, members[0].value) + BlocksInMembers(codec, members[1..])
  }

  lemma {:induction false} BlocksOfMembers(codec: Codec, members: seq<Member>)
    ensures BlocksInMembers(codec, members) == BlocksIn(codec, ValuesOf(members))
  {
    if members == [] {
    } else {
      BlocksOfMembers(codec, members[1..]);
      assert ValuesOf(members)[1..] == ValuesOf(members[1..]);
    }
  }

  lemma {:induction false} BlocksAreFound(codec: Codec, v: Value)
    ensures forall c :: c in Blocks(codec, v) <==> Found(codec, v, c)
    decreases v, 1
  {
    hide Found, FoundIn, ParseNonStrict;
    var kids := Children(v);
    BlocksInAreFound(codec, v, kids);
    if v.Object? { BlocksOfMembers(codec, v.members); }
    forall c ensures c in Blocks(codec, v) <==> Found(codec, v, c) { FoundHere(codec, v, c); }
  }

  lemma {:induction false} BlocksInAreFound(codec: Codec, parent: Value, kids: seq<Value>)
    requires forall i :: 0 <= i < |kids| ==> kids[i] < parent
    ensures forall c :: c in BlocksIn(codec, kids) <==> FoundIn(codec, kids, c)
    decreases parent, 0, |kids|
  {
    hide Found, FoundIn;
    NoneFound(codec);
    if kids == [] {
    } else {
      BlocksAreFound(codec, kids[0]);
      BlocksInAreFound(codec, parent, kids[1..]);
      assert kids == [kids[0]] + kids[1..];
      forall c ensures c in BlocksIn(codec, kids) <==> FoundIn(codec, kids, c) {
        FoundInConcat(codec, [kids[0]], kids[1..], c);
        OneFound(codec, kids[0], c);
      }
    }
  }

  lemma {:induction false} BlocksOfTrees(codec: Codec, trees: seq<Value>)
    ensures forall c :: c in BlocksIn(codec, trees) <==> FoundIn(codec, trees, c)
  {
    hide Found, FoundIn;
    NoneFound(codec);
    if trees == [] {
    } else {
      BlocksAreFound(codec, trees[0]);
      BlocksOfTrees(codec, trees[1..]);
      assert trees == [trees[0]] + trees[1..];
      forall c ensures c in BlocksIn(codec, trees) <==> FoundIn(codec, trees, c) {
        FoundInConcat(codec, [trees[0]], trees[1..], c);
        OneFound(codec, trees[0], c);
      }
    }
  }

  // ---- The whole document ------------------------------------------------------------------

  predicate NoScalars(trees: seq<Value>) { forall i :: 0 <= i < |trees| ==> !HasScalar(trees[i]) }

  lemma FoundAreValid(codec: Codec, trees: seq<Value>, networks: seq<CanonicalCidr>)
    requires Faithful(codec) && forall c :: c in networks ==> FoundIn(codec, trees, c)
    ensures AllValid(networks)
  {
    forall k | 0 <= k < |networks| ensures Valid(networks[k]) {
      assert networks[k] in networks && FoundIn(codec, trees, networks[k]);
    }
  }

  // The blocks of the selected subtrees, ascending and without repetition, by recursion.
  function SelectedBlocks(codec: Codec, value: Value, selection: Selection): seq<CanonicalCidr> {
    SortUnique(BlocksIn(codec, Subtrees(value, selection)), CidrLess)
  }

  lemma SelectionFacts(codec: Codec, value: Value, selection: Selection)
    requires Faithful(codec)
    ensures var networks := SelectedBlocks(codec, value, selection);
            && Sorted(networks, CidrLess) && AllValid(networks) && AllCanonical(32, Ipv4Of(networks))
            && forall c :: c in networks <==> FoundIn(codec, Subtrees(value, selection), c)
  {
    hide FoundIn, Subtrees;
    var trees := Subtrees(value, selection);
    CidrOrder();
    BlocksOfTrees(codec, trees);
    SortUniqueFacts(BlocksIn(codec, trees), CidrLess);
    FoundAreValid(codec, trees, SelectedBlocks(codec, value, selection));
    SplitFacts(SelectedBlocks(codec, value, selection));
  }

  // What a document gives: nothing unless every selected category is there, a result without
  // blocks comes from subtrees without any scalar, and the blocks stay within the envelope.
  ghost function Extract(codec: Codec, value: Value, selection: Selection): Option<seq<CanonicalCidr>>
    requires Faithful(codec)
  {
    SelectionFacts(codec, value, selection);
    var networks := SelectedBlocks(codec, value, selection);
    if AllPresent(value, selection) && (networks == [] ==> NoScalars(Subtrees(value, selection)))
       && SmallEnough(networks) && |Union(32, Ipv4Of(networks))| <= Ipv4CoverageLimit()
    then Some(networks) else None
  }

  // Exactly when a document gives networks, and which: every category must be there; without any
  // block, the chosen subtrees must hold nothing but empty containers; and the list must keep to
  // 4096 blocks, prefixes of at least 8 and 16, and 2^28 IPv4 addresses.
  lemma ExtractExactly(codec: Codec, value: Value, selection: Selection)
    requires Faithful(codec) && DistinctKeys(value)
    ensures var r := Extract(codec, value, selection);
            && (r.Some? ==> Yields(codec, value, selection, r.value))
            && (r.None? ==> forall networks: seq<CanonicalCidr> :: !Yields(codec, value, selection, networks))
  {
    hide FoundIn, Found, Subtrees, AllPresent, Covered, Chosen, SelectedBlocks, HasScalar;
    var networks := SelectedBlocks(codec, value, selection);
    SelectionFacts(codec, value, selection);
    SubtreesAreChosen(value, selection);
    forall c ensures c in networks <==> exists v :: Chosen(value, selection, v) && Found(codec, v, c) {
      FoundAmong(codec, Subtrees(value, selection), c);
    }
    assert NoScalars(Subtrees(value, selection)) <==> forall v :: Chosen(value, selection, v) ==> !HasScalar(v) by {
      assert forall i :: 0 <= i < |Subtrees(value, selection)| ==>
          Subtrees(value, selection)[i] in Subtrees(value, selection);
    }
    CidrOrder();
    forall other: seq<CanonicalCidr> | Yields(codec, value, selection, other) ensures other == networks {
      SortedUnique(other, networks, CidrLess);
    }
    assert Yields(codec, value, selection, networks) <==> Extract(codec, value, selection).Some?;
  }

  // A list a document may give.
  ghost predicate Yields(codec: Codec, value: Value, selection: Selection, networks: seq<CanonicalCidr>) {
    && Covered(value, selection) && Sorted(networks, CidrLess)
    && (forall c :: c in networks <==> exists v :: Chosen(value, selection, v) && Found(codec, v, c))
    && (networks == [] ==> forall v :: Chosen(value, selection, v) ==> !HasScalar(v))
    && |networks| <= 4096
    && (forall c :: c in networks ==> c.cidr.prefix >= if c.V4? then 8 else 16)
    && AllCanonical(32, Ipv4Of(networks)) && |Union(32, Ipv4Of(networks))| <= Pow2(28)
  }

  method ParseAndExtract(codec: Codec, value: Value, selection: Selection) returns (r: Option<seq<CanonicalCidr>>)
    requires Faithful(codec)
    ensures r == Extract(codec, value, selection)
    ensures DistinctKeys(value) && r.Some? ==> Yields(codec, value, selection, r.value)
    ensures DistinctKeys(value) && r.None? ==>
              forall networks: seq<CanonicalCidr> :: !Yields(codec, value, selection, networks)
  {
    hide Yields, Covered, Chosen, DistinctKeys, Found, BlocksIn, Get;
    if DistinctKeys(value) { ExtractExactly(codec, value, selection); }
    hide FoundIn, Union, SmallEnough, HasScalar, IsEmptyContainerTree, Pow2, SelectedBlocks;
    var networks := ExtractNetworks(codec, value, selection);
    SelectionFacts(codec, value, selection);
    CidrOrder();
    SortedUnique(networks, SelectedBlocks(codec, value, selection), CidrLess);
    if !AllPresent(value, selection) { return None; }
    if networks == [] {
      var trees := Subtrees(value, selection);
      forall i | 0 <= i < |trees| ensures IsEmptyContainerTree(trees[i]) <==> !HasScalar(trees[i]) {
        EmptyMeansNoScalar(trees[i]);
      }
      if exists i :: 0 <= i < |trees| && !IsEmptyContainerTree(trees[i]) { return None; }
    }
    var within := WithinEnvelope(networks);
    if !within { return None; }
    return Some(networks);
  }
}
