// Remote lists: bounded parsing of untrusted text, and the normalized form it is cached in.
module Feed {
  import opened Options
  import opened Ordering
  import opened Networks

  // ---- Text --------------------------------------------------------------------------------

  // Characters with the Unicode property White_Space.
  predicate IsSpace(c: char) {
    var n := c as int;
    9 <= n <= 13 || n == 0x20 || n == 0x85 || n == 0xA0 || n == 0x1680 || 0x2000 <= n <= 0x200A
    || n == 0x2028 || n == 0x2029 || n == 0x202F || n == 0x205F || n == 0x3000
  }

  const BYTE_ORDER_MARK: char := '\U{FEFF}'

  function TrimStart(s: string): string { if s != "" && IsSpace(s[0]) then TrimStart(s[1..]) else s }

  function TrimEnd(s: string): string { if s != "" && IsSpace(s[|s| - 1]) then TrimEnd(s[..|s| - 1]) else s }

  function Trim(s: string): string { TrimEnd(TrimStart(s)) }

  function StripMarks(s: string): string { if s != "" && s[0] == BYTE_ORDER_MARK then StripMarks(s[1..]) else s }

  function UpTo(s: string, c: char): (r: string)
    ensures |r| <= |s|
  {
    if s == "" || s[0] == c then "" else [s[0]] + UpTo(s[1..], c)
  }

  function Word(s: string): string { if s == "" || IsSpace(s[0]) then "" else [s[0]] + Word(s[1..]) }

  function FirstWord(s: string): Option<string> {
    var t := TrimStart(s);
    if t == "" then None else Some(Word(t))
  }

  function StripReturn(s: string): string { if s != "" && s[|s| - 1] == '\r' then s[..|s| - 1] else s }

  // Lines end with a line feed, or a carriage return and a line feed; the last one need not.
  function Lines(text: string): seq<string> {
    if text == "" then []
    else
      var line := UpTo(text, '\n');
      if |line| == |text| then [line] else [StripReturn(line)] + Lines(text[|line| + 1..])
  }

  // ---- Order of blocks ---------------------------------------------------------------------

  predicate CidrLess(a: CanonicalCidr, b: CanonicalCidr) {
    if a.V4? != b.V4? then a.V4?
    else a.cidr.network < b.cidr.network || (a.cidr.network == b.cidr.network && a.cidr.prefix < b.cidr.prefix)
  }

  lemma CidrOrder()
    ensures StrictTotal(CidrLess)
  {
  }

  // ---- Text of a block ---------------------------------------------------------------------

  // How one address or block is read and written. Reading gives blocks without host bits; what is
  // written consists of hexadecimal digits, dots, colons and a slash, and reads back.
  datatype Codec = Codec(parse: string -> Option<CanonicalCidr>, show: CanonicalCidr -> string)

  predicate IsPlain(c: char) { '0' <= c <= '9' || 'a' <= c <= 'f' || c == '.' || c == ':' || c == '/' }

  predicate Plain(s: string) { s != "" && forall i :: 0 <= i < |s| ==> IsPlain(s[i]) }

  ghost predicate Faithful(codec: Codec) {
    && (forall s :: codec.parse(s).Some? ==> Valid(codec.parse(s).value))
    && (forall c :: Valid(c) ==> Plain(codec.show(c)) && codec.parse(codec.show(c)) == Some(c))
  }

  // ---- Limits ------------------------------------------------------------------------------

  datatype Limits = Limits(dataLines: nat, uniqueCidrs: nat)

  function Max(a: nat, b: nat): nat { if a < b then b else a }

  function Min(a: nat, b: nat): nat { if a < b then a else b }

  // `wordMax` is the largest machine word, at which the doubling saturates.
  function FromMaxelem(maxelem: nat, wordMax: nat): Limits {
    var doubled := Min(2 * Min(maxelem, wordMax), wordMax);
    Limits(Max(16384, Min(doubled, 1000000)), Max(4096, Min(doubled, 1000000)))
  }

  lemma FeedsFitTheirLines(maxelem: nat, wordMax: nat)
    ensures var l := FromMaxelem(maxelem, wordMax); l.uniqueCidrs <= l.dataLines <= 1000000 && l.uniqueCidrs >= 4096
    ensures wordMax >= 0xFFFF_FFFF && maxelem <= 500000 ==> FromMaxelem(maxelem, wordMax).uniqueCidrs >= 2 * maxelem
    ensures var l := FromMaxelem(maxelem, wordMax);
            wordMax >= 0xFFFF_FFFF ==>
              && l.uniqueCidrs == (if maxelem <= 2048 then 4096 else if maxelem < 500000 then 2 * maxelem else 1000000)
              && l.dataLines == (if maxelem <= 8192 then 16384 else if maxelem < 500000 then 2 * maxelem else 1000000)
  {
  }

  // ---- What a feed says --------------------------------------------------------------------

  function Content(line: string): string { Trim(StripMarks(line)) }

  predicate IsData(content: string) { content != "" && content[0] != '#' }

  // The first word of the first comma-separated column.
  function Token(content: string): Option<string> { FirstWord(UpTo(content, ',')) }

  predicate Blank(s: string) { forall i :: 0 <= i < |s| ==> IsSpace(s[i]) }

  predicate Marks(s: string) { forall i :: 0 <= i < |s| ==> s[i] == '\U{FEFF}' }

  // No blank and no comma in it.
  predicate Solid(s: string) { s != "" && forall i :: 0 <= i < |s| ==> !IsSpace(s[i]) && s[i] != ',' }

  // What follows a first word.
  predicate Follows(rest: string) { rest == "" || rest[0] == ',' || IsSpace(rest[0]) }

  lemma {:induction false} StripMarksFacts(marks: string, s: string)
    requires Marks(marks) && (s == "" || s[0] != '\U{FEFF}')
    ensures StripMarks(marks + s) == s
  {
    if marks == "" {
      assert marks + s == s;
    } else {
      StripMarksFacts(marks[1..], s);
      assert (marks + s)[1..] == marks[1..] + s;
    }
  }

  lemma {:induction false} TrimStartFacts(lead: string, s: string)
    requires Blank(lead) && (s == "" || !IsSpace(s[0]))
    ensures TrimStart(lead + s) == s
  {
    if lead == "" {
      assert lead + s == s;
    } else {
      TrimStartFacts(lead[1..], s);
      assert (lead + s)[1..] == lead[1..] + s;
    }
  }

  lemma {:induction false} TrimEndKeeps(s: string, rest: string)
    requires s != "" && !IsSpace(s[|s| - 1])
    ensures TrimEnd(s + rest) == s + TrimEnd(rest)
    ensures TrimEnd(rest) != "" ==> TrimEnd(rest)[0] == rest[0]
  {
    if rest == "" {
      assert s + rest == s;
    } else if IsSpace(rest[|rest| - 1]) {
      TrimEndKeeps(s, rest[..|rest| - 1]);
      assert (s + rest)[..|s + rest| - 1] == s + rest[..|rest| - 1];
    }
  }

  lemma {:induction false} UpToKeeps(s: string, rest: string)
    requires forall i :: 0 <= i < |s| ==> s[i] != ','
    ensures UpTo(s + rest, ',') == s + UpTo(rest, ',')
    ensures UpTo(rest, ',') != "" ==> UpTo(rest, ',')[0] == rest[0] != ','
  {
    if s == "" {
      assert s + rest == rest;
    } else {
      UpToKeeps(s[1..], rest);
      assert (s + rest)[1..] == s[1..] + rest;
    }
  }

  lemma {:induction false} WordEnds(s: string, rest: string)
    requires forall i :: 0 <= i < |s| ==> !IsSpace(s[i])
    requires rest == "" || IsSpace(rest[0])
    ensures Word(s + rest) == s
  {
    if s == "" {
      assert s + rest == rest;
    } else {
      WordEnds(s[1..], rest);
      assert (s + rest)[1..] == s[1..] + rest;
    }
  }

  // What a line means, after byte-order marks and blanks: a word up to the next blank or comma is
  // the block it gives; a leading `#` makes it a comment, a leading comma leaves it without a block.
  lemma LineExactly(marks: string, lead: string, word: string, rest: string)
    requires Marks(marks) && Blank(lead)
    ensures Solid(word) && word[0] != '#' && word[0] != '\U{FEFF}' && Follows(rest) ==>
              var content := Content(marks + lead + word + rest);
              IsData(content) && Token(content) == Some(word)
    ensures !IsData(Content(marks + lead + "#" + rest)) && !IsData(Content(marks + lead))
    ensures var content := Content(marks + lead + "," + rest); IsData(content) && Token(content).None?
  {
    BlankLine(marks, lead);
    ContentKeeps(marks, lead, "#", rest);
    ContentKeeps(marks, lead, ",", rest);
    if Solid(word) && word[0] != '#' && word[0] != '\U{FEFF}' && Follows(rest) {
      ContentKeeps(marks, lead, word, rest);
      TrimEndKeeps(word, rest);
      var tail := TrimEnd(rest);
      UpToKeeps(word, tail);
      var more := UpTo(tail, ',');
      assert TrimStart(word + more) == word + more;
      WordEnds(word, more);
    }
  }

  lemma ContentKeeps(marks: string, lead: string, word: string, rest: string)
    requires Marks(marks) && Blank(lead) && word != "" && !IsSpace(word[0]) && !IsSpace(word[|word| - 1])
    requires word[0] != '\U{FEFF}'
    ensures Content(marks + lead + word + rest) == word + TrimEnd(rest)
  {
    var s := word + rest;
    assert marks + lead + word + rest == marks + (lead + s);
    StripMarksFacts(marks, lead + s);
    TrimStartFacts(lead, s);
    TrimEndKeeps(word, rest);
  }

  lemma BlankLine(marks: string, lead: string)
    requires Marks(marks) && Blank(lead)
    ensures Content(marks + lead) == ""
  {
    StripMarksFacts(marks, lead);
    TrimStartFacts(lead, "");
    assert lead + "" == lead;
  }

  function DataOf(lines: seq<string>): seq<string> {
    if lines == [] then []
    else
      var rest, content := DataOf(lines[..|lines| - 1]), Content(lines[|lines| - 1]);
      if IsData(content) then rest + [content] else rest
  }

  function Entries(codec: Codec, data: seq<string>): seq<CanonicalCidr> {
    if data == [] then []
    else
      var rest, token := Entries(codec, data[..|data| - 1]), Token(data[|data| - 1]);
      if token.Some? && codec.parse(token.value).Some? then rest + [codec.parse(token.value).value] else rest
  }

  function InvalidIn(codec: Codec, data: seq<string>): nat {
    if data == [] then 0
    else
      var token := Token(data[|data| - 1]);
      InvalidIn(codec, data[..|data| - 1]) + if token.Some? && codec.parse(token.value).None? then 1 else 0
  }

  // The distinct blocks of a feed, ascending.
  function Distinct(codec: Codec, data: seq<string>): seq<CanonicalCidr> { SortUnique(Entries(codec, data), CidrLess) }

  // ---- Parsing -----------------------------------------------------------------------------

  datatype Budget = DataLines(observed: nat, limit: nat) | UniqueCidrs(observed: nat, limit: nat)

  datatype Parsing = Parsed(networks: seq<CanonicalCidr>, dataLines: nat, invalidLines: nat) | Exceeded(budget: Budget)

  // What parsing gives: the distinct blocks, or the first budget that a line broke.
  ghost predicate Outcome(codec: Codec, text: string, limits: Limits, r: Parsing) {
    var data := DataOf(Lines(text));
    match r
    case Parsed(networks, dataLines, invalidLines) =>
      && dataLines == |data| <= limits.dataLines && networks == Distinct(codec, data)
      && |networks| <= limits.uniqueCidrs && invalidLines == InvalidIn(codec, data)
    case Exceeded(DataLines(observed, limit)) =>
      && limit == limits.dataLines && observed == limit + 1 && |data| > limit
      && |Distinct(codec, data[..limit])| <= limits.uniqueCidrs
    case Exceeded(UniqueCidrs(observed, limit)) =>
      && limit == limits.uniqueCidrs && observed == limit + 1
      && exists k :: 0 < k <= |data| && k <= limits.dataLines && |Distinct(codec, data[..k])| == observed
  }

  lemma DataSnoc(lines: seq<string>, k: nat)
    requires k < |lines|
    ensures DataOf(lines[..k + 1]) ==
            if IsData(Content(lines[k])) then DataOf(lines[..k]) + [Content(lines[k])] else DataOf(lines[..k])
  {
    assert lines[..k + 1][..k] == lines[..k];
  }

  lemma {:induction false} DataPrefix(lines: seq<string>, k: nat)
    requires k <= |lines|
    ensures DataOf(lines[..k]) <= DataOf(lines)
  {
    if k < |lines| {
      var front := lines[..|lines| - 1];
      DataPrefix(front, k);
      assert front[..k] == lines[..k];
    } else {
      assert lines[..k] == lines;
    }
  }

  lemma DistinctSnoc(codec: Codec, data: seq<string>, content: string)
    ensures var token := Token(content);
            Distinct(codec, data + [content]) ==
            if token.Some? && codec.parse(token.value).Some?
            then Insert(codec.parse(token.value).value, Distinct(codec, data), CidrLess) else Distinct(codec, data)
    ensures |Distinct(codec, data)| <= |Distinct(codec, data + [content])| <= |Distinct(codec, data)| + 1
    ensures InvalidIn(codec, data + [content]) ==
            InvalidIn(codec, data) + if Token(content).Some? && codec.parse(Token(content).value).None? then 1 else 0
  {
    assert (data + [content])[..|data|] == data;
    CidrOrder();
    SortUniqueFacts(Entries(codec, data), CidrLess);
    if Token(content).Some? && codec.parse(Token(content).value).Some? {
      var c := codec.parse(Token(content).value).value;
      var before := Entries(codec, data);
      assert (before + [c])[..|before|] == before;
      InsertFacts(c, Distinct(codec, data), CidrLess);
    }
  }

  lemma {:induction false} DistinctGrows(codec: Codec, data: seq<string>, k: nat)
    requires k <= |data|
    ensures |Distinct(codec, data[..k])| <= |Distinct(codec, data)|
  {
    if k < |data| {
      var front := data[..|data| - 1];
      DistinctGrows(codec, front, k);
      assert front[..k] == data[..k];
      DistinctSnoc(codec, front, data[|data| - 1]);
      assert data == front + [data[|data| - 1]];
    } else {
      assert data[..k] == data;
    }
  }

  // Stops at the first line that breaks a budget.
  method ParseBounded(codec: Codec, text: string, limits: Limits) returns (r: Parsing)
    ensures r == Parse(codec, text, limits) && Outcome(codec, text, limits, r)
  {
    r := ParseLines(codec, text, limits);
    ParseIsOutcome(codec, text, limits);
    OutcomeUnique(codec, text, limits, r, Parse(codec, text, limits));
  }

  method ParseLines(codec: Codec, text: string, limits: Limits) returns (r: Parsing)
    ensures Outcome(codec, text, limits, r)
  {
    hide DataOf, Distinct, InvalidIn, Lines, Content, IsData, Token;
    var lines := Lines(text);
    var parsed := [];
    var dataLines: nat, invalidLines: nat := 0, 0;
    Nothing(codec);
    for k := 0 to |lines|
      invariant dataLines == |DataOf(lines[..k])| <= limits.dataLines
      invariant parsed == Distinct(codec, DataOf(lines[..k])) && |parsed| <= limits.uniqueCidrs
      invariant invalidLines == InvalidIn(codec, DataOf(lines[..k]))
    {
      var content := Content(lines[k]);
      ghost var seen := DataOf(lines[..k]);
      DataSnoc(lines, k);
      DataPrefix(lines, k + 1);
      if !IsData(content) { continue; }
      assert DataOf(lines)[..|seen|] == seen && DataOf(lines)[..|seen| + 1] == seen + [content];
      dataLines := dataLines + 1;
      if dataLines > limits.dataLines { return Exceeded(DataLines(dataLines, limits.dataLines)); }
      DistinctSnoc(codec, seen, content);
      var token := Token(content);
      if token.None? { continue; }
      var cidr := codec.parse(token.value);
      if cidr.Some? {
        parsed := Insert(cidr.value, parsed, CidrLess);
        if |parsed| > limits.uniqueCidrs { return Exceeded(UniqueCidrs(|parsed|, limits.uniqueCidrs)); }
      } else {
        invalidLines := invalidLines + 1;
      }
    }
    assert lines[..|lines|] == lines;
    return Parsed(parsed, dataLines, invalidLines);
  }

  lemma Nothing(codec: Codec)
    ensures DataOf([]) == [] && Distinct(codec, []) == [] && InvalidIn(codec, []) == 0
  {
  }

  // A feed is accepted exactly when it stays within both budgets.
  lemma AcceptedWithinBudgets(codec: Codec, text: string, limits: Limits, r: Parsing)
    requires Outcome(codec, text, limits, r)
    ensures var data := DataOf(Lines(text));
            r.Parsed? <==> |data| <= limits.dataLines && |Distinct(codec, data)| <= limits.uniqueCidrs
  {
    hide DataOf, Distinct;
    var data := DataOf(Lines(text));
    if r.Exceeded? && r.budget.UniqueCidrs? {
      var k :| 0 < k <= |data| && k <= limits.dataLines && |Distinct(codec, data[..k])| == r.budget.observed;
      DistinctGrows(codec, data, k);
    }
  }

  // A text has one outcome only.
  lemma OutcomeUnique(codec: Codec, text: string, limits: Limits, r: Parsing, q: Parsing)
    requires Outcome(codec, text, limits, r) && Outcome(codec, text, limits, q)
    ensures r == q
  {
    hide DataOf, Distinct;
    AcceptedWithinBudgets(codec, text, limits, r);
    AcceptedWithinBudgets(codec, text, limits, q);
    NotBothBudgets(codec, text, limits, r, q);
    NotBothBudgets(codec, text, limits, q, r);
  }

  lemma NotBothBudgets(codec: Codec, text: string, limits: Limits, r: Parsing, q: Parsing)
    requires Outcome(codec, text, limits, r) && Outcome(codec, text, limits, q)
    ensures !(r.Exceeded? && q.Exceeded? && r.budget.DataLines? && q.budget.UniqueCidrs?)
  {
    hide DataOf, Distinct;
    var data := DataOf(Lines(text));
    if r.Exceeded? && q.Exceeded? && r.budget.DataLines? && q.budget.UniqueCidrs? {
      var k :| 0 < k <= |data| && k <= limits.dataLines && |Distinct(codec, data[..k])| == q.budget.observed;
      assert data[..limits.dataLines][..k] == data[..k];
      DistinctGrows(codec, data[..limits.dataLines], k);
    }
  }

  // The one outcome of a text: the block budget comes first when the lines allowed break it.
  function Parse(codec: Codec, text: string, limits: Limits): Parsing {
    var data := DataOf(Lines(text));
    if |data| <= limits.dataLines && |Distinct(codec, data)| <= limits.uniqueCidrs
    then Parsed(Distinct(codec, data), |data|, InvalidIn(codec, data))
    else if |Distinct(codec, data[..Min(|data|, limits.dataLines)])| > limits.uniqueCidrs
    then Exceeded(UniqueCidrs(limits.uniqueCidrs + 1, limits.uniqueCidrs))
    else Exceeded(DataLines(limits.dataLines + 1, limits.dataLines))
  }

  // The count of distinct blocks passes every value on its way up.
  lemma {:induction false} CountPasses(codec: Codec, data: seq<string>, n: nat, limit: nat)
    requires n <= |data| && |Distinct(codec, data[..n])| > limit
    ensures exists k :: 0 < k <= n && |Distinct(codec, data[..k])| == limit + 1
  {
    hide Distinct;
    Nothing(codec);
    if n == 0 {
    } else {
      if |Distinct(codec, data[..n])| == limit + 1 { return; }
      DistinctSnoc(codec, data[..n - 1], data[n - 1]);
      assert data[..n] == data[..n - 1] + [data[n - 1]];
      CountPasses(codec, data, n - 1, limit);
    }
  }

  lemma ParseIsOutcome(codec: Codec, text: string, limits: Limits)
    ensures Outcome(codec, text, limits, Parse(codec, text, limits))
  {
    hide DataOf, Distinct, InvalidIn, Lines;
    var data := DataOf(Lines(text));
    var n := Min(|data|, limits.dataLines);
    assert n == |data| ==> data[..n] == data;
    if |Distinct(codec, data[..n])| > limits.uniqueCidrs { CountPasses(codec, data, n, limits.uniqueCidrs); }
  }

  // What is accepted is strictly ascending and holds exactly what the lines' first words parse to.
  lemma ParsedMeaning(codec: Codec, text: string, limits: Limits, r: Parsing)
    requires Outcome(codec, text, limits, r) && r.Parsed?
    ensures Sorted(r.networks, CidrLess)
    ensures forall c :: c in r.networks <==> Says(codec, DataOf(Lines(text)), c)
    ensures Faithful(codec) ==> AllValid(r.networks)
  {
    CidrOrder();
    var data := DataOf(Lines(text));
    SortUniqueFacts(Entries(codec, data), CidrLess);
    EntriesAre(codec, data);
    if Faithful(codec) {
      forall k | 0 <= k < |r.networks| ensures Valid(r.networks[k]) {
        assert r.networks[k] in r.networks && Says(codec, data, r.networks[k]);
      }
    }
  }

  ghost predicate Says(codec: Codec, data: seq<string>, c: CanonicalCidr) {
    exists k :: 0 <= k < |data| && SaysAt(codec, data[k], c)
  }

  predicate SaysAt(codec: Codec, content: string, c: CanonicalCidr) {
    Token(content).Some? && codec.parse(Token(content).value) == Some(c)
  }

  lemma {:induction false} EntriesAre(codec: Codec, data: seq<string>)
    ensures forall c :: c in Entries(codec, data) <==> Says(codec, data, c)
  {
    if data == [] {
    } else {
      var front, last := data[..|data| - 1], data[|data| - 1];
      EntriesAre(codec, front);
      forall c ensures c in Entries(codec, data) <==> Says(codec, data, c) {
        assert Says(codec, data, c) <==> Says(codec, front, c) || SaysAt(codec, last, c) by {
          if Says(codec, front, c) {
            var k :| 0 <= k < |front| && SaysAt(codec, front[k], c);
            assert data[k] == front[k];
          }
        }
      }
    }
  }

  // ---- Printing ----------------------------------------------------------------------------

  function Join(lines: seq<string>): string {
    if lines == [] then ""
    else if |lines| == 1 then lines[0]
    else lines[0] + ['\n'] + Join(lines[1..])
  }

  function Shown(codec: Codec, cidrs: seq<CanonicalCidr>): seq<string> {
    seq(|cidrs|, i requires 0 <= i < |cidrs| => codec.show(cidrs[i]))
  }

  function Normalized(codec: Codec, cidrs: seq<CanonicalCidr>): string { Join(Shown(codec, cidrs)) }

  lemma {:induction false} JoinSnoc(lines: seq<string>, line: string)
    ensures Join(lines + [line]) == (if lines == [] then line else Join(lines) + ['\n'] + line)
  {
    if |lines| > 1 {
      JoinSnoc(lines[1..], line);
      assert (lines + [line])[1..] == lines[1..] + [line];
      assert lines[0] + ['\n'] + (Join(lines[1..]) + ['\n'] + line) ==
        (lines[0] + ['\n'] + Join(lines[1..])) + ['\n'] + line;
    } else if |lines| == 1 {
      assert (lines + [line])[1..] == [line];
    }
  }

  lemma NormalizedNone(codec: Codec)
    ensures Normalized(codec, []) == ""
  {
  }

  lemma NormalizedSnoc(codec: Codec, cidrs: seq<CanonicalCidr>, c: CanonicalCidr)
    ensures Normalized(codec, cidrs + [c]) ==
            if cidrs == [] then codec.show(c) else Normalized(codec, cidrs) + ['\n'] + codec.show(c)
  {
    hide Join;
    assert Shown(codec, cidrs + [c]) == Shown(codec, cidrs) + [codec.show(c)];
    JoinSnoc(Shown(codec, cidrs), codec.show(c));
  }

  method FormatNormalized(codec: Codec, cidrs: seq<CanonicalCidr>) returns (normalized: string)
    ensures normalized == Normalized(codec, cidrs)
  {
    hide Normalized;
    assert Normalized(codec, []) == "" by { NormalizedNone(codec); }
    normalized := "";
    for index := 0 to |cidrs|
      invariant normalized == Normalized(codec, cidrs[..index])
    {
      NormalizedSnoc(codec, cidrs[..index], cidrs[index]);
      assert cidrs[..index + 1] == cidrs[..index] + [cidrs[index]];
      if index > 0 { normalized := normalized + ['\n']; }
      normalized := normalized + codec.show(cidrs[index]);
    }
    assert cidrs[..|cidrs|] == cidrs;
  }

  lemma {:induction false} UpToPlain(s: string, rest: string, c: char)
    requires (forall i :: 0 <= i < |s| ==> IsPlain(s[i])) && !IsPlain(c)
    ensures UpTo(s, c) == s && UpTo(s + [c] + rest, c) == s
  {
    if s == "" {
    } else {
      UpToPlain(s[1..], rest, c);
      assert (s + [c] + rest)[1..] == s[1..] + [c] + rest;
    }
  }

  lemma {:induction false} WordPlain(s: string)
    requires forall i :: 0 <= i < |s| ==> IsPlain(s[i])
    ensures Word(s) == s
  {
    if s == "" {
    } else {
      WordPlain(s[1..]);
    }
  }

  lemma PlainContent(s: string)
    requires Plain(s)
    ensures Content(s) == s && IsData(s) && Token(s) == Some(s)
  {
    UpToPlain(s, "", ',');
    WordPlain(s);
  }

  lemma NoLines()
    ensures Lines("") == []
  {
  }

  lemma FirstLine(line: string, rest: string)
    requires Plain(line)
    ensures Lines(line) == [line] && Lines(line + ['\n'] + rest) == [line] + Lines(rest)
  {
    UpToPlain(line, rest, '\n');
    assert (line + ['\n'] + rest)[|line| + 1..] == rest;
  }

  lemma LinesOfJoin(lines: seq<string>)
    requires forall i :: 0 <= i < |lines| ==> Plain(lines[i])
    ensures Lines(Join(lines)) == lines
  {
    hide Lines, UpTo, Plain;
    NoLines();
    if lines != [] {
      var line, rest := lines[0], lines[1..];
      if rest != [] { LinesOfJoin(rest); }
      FirstLine(line, Join(rest));
      assert lines == [line] + rest;
    }
  }

  lemma {:induction false} ShownIsData(codec: Codec, cidrs: seq<CanonicalCidr>)
    requires Faithful(codec) && AllValid(cidrs)
    ensures DataOf(Shown(codec, cidrs)) == Shown(codec, cidrs)
    ensures Entries(codec, Shown(codec, cidrs)) == cidrs && InvalidIn(codec, Shown(codec, cidrs)) == 0
  {
    hide Content, IsData, Token;
    if cidrs == [] {
    } else {
      var front, last := cidrs[..|cidrs| - 1], cidrs[|cidrs| - 1];
      ShownIsData(codec, front);
      assert Shown(codec, cidrs) == Shown(codec, front) + [codec.show(last)];
      assert Shown(codec, cidrs)[..|cidrs| - 1] == Shown(codec, front);
      PlainContent(codec.show(last));
      assert cidrs == front + [last];
    }
  }

  // Printing and parsing again, within limits that leave room for as many lines as blocks, gives
  // the same list back.
  lemma PrintedReadsBack(codec: Codec, networks: seq<CanonicalCidr>, limits: Limits, r: Parsing)
    requires Faithful(codec) && AllValid(networks) && Sorted(networks, CidrLess)
    requires |networks| <= limits.uniqueCidrs <= limits.dataLines
    requires Outcome(codec, Normalized(codec, networks), limits, r)
    ensures r == Parsed(networks, |networks|, 0)
  {
    hide DataOf, Entries, InvalidIn, Lines, Join;
    var shown := Shown(codec, networks);
    LinesOfJoin(shown);
    ShownIsData(codec, networks);
    CidrOrder();
    SortedIsSortUnique(networks, CidrLess);
    AcceptedWithinBudgets(codec, Normalized(codec, networks), limits, r);
  }

  // The round trip for whatever was accepted from the network, under the limits of any set size.
  lemma AcceptedReadsBack(codec: Codec, text: string, maxelem: nat, wordMax: nat, r: Parsing, again: Parsing)
    requires Faithful(codec)
    requires var limits := FromMaxelem(maxelem, wordMax);
             Outcome(codec, text, limits, r) && r.Parsed?
               && Outcome(codec, Normalized(codec, r.networks), limits, again)
    ensures again == Parsed(r.networks, |r.networks|, 0)
  {
    var limits := FromMaxelem(maxelem, wordMax);
    FeedsFitTheirLines(maxelem, wordMax);
    ParsedMeaning(codec, text, limits, r);
    PrintedReadsBack(codec, r.networks, limits, again);
  }
}
