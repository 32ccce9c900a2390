// Text on a terminal: an escape without control characters, and wrapping at a display width.
module Presentation {
  import opened Options
  import opened Feed

  // ---- Escaping ----------------------------------------------------------------------------

  predicate IsAsciiControl(c: char) { (c as int) < 0x20 || c as int == 0x7F }

  // Characters of the Unicode category Cc.
  predicate IsControl(c: char) { IsAsciiControl(c) || 0x80 <= c as int < 0xA0 }

  function UpperHexDigit(n: nat): char
    requires n < 16
  {
    if n < 10 then '0' + n as char else 'A' + (n - 10) as char
  }

  predicate IsUpperHexDigit(c: char) { '0' <= c <= '9' || 'A' <= c <= 'F' }

  function UpperHexValue(c: char): nat
    requires IsUpperHexDigit(c)
  {
    if c <= '9' then (c - '0') as nat else (c - 'A') as nat + 10
  }

  // The two hexadecimal digits of a control character, all of which are below 0x100.
  function TwoDigits(c: char): string
    requires (c as int) < 0x100
  {
    [UpperHexDigit(c as int / 16), UpperHexDigit(c as int % 16)]
  }

  function EscapeChar(c: char): string {
    if c == '\\' then "\\\\"
    else if c == '\t' then "\\t"
    else if c == '\r' then "\\r"
    else if c == '\n' then "\\n"
    else if IsAsciiControl(c) then "\\x" + TwoDigits(c)
    else if IsControl(c) then "\\u{" + TwoDigits(c) + "}"
    else [c]
  }

  function Escaped(value: string): string { if value == "" then "" else EscapeChar(value[0]) + Escaped(value[1..]) }

  lemma {:induction false} EscapedSnoc(value: string, c: char)
    ensures Escaped(value + [c]) == Escaped(value) + EscapeChar(c)
  {
    hide EscapeChar;
    if value == "" {
      assert [c][1..] == "";
    } else {
      EscapedSnoc(value[1..], c);
      assert (value + [c])[1..] == value[1..] + [c];
    }
  }

  method Escape(value: string) returns (encoded: string)
    ensures encoded == Escaped(value)
  {
    hide EscapeChar;
    encoded := "";
    for k := 0 to |value|
      invariant encoded == Escaped(value[..k])
    {
      EscapedSnoc(value[..k], value[k]);
      assert value[..k + 1] == value[..k] + [value[k]];
      encoded := encoded + EscapeChar(value[k]);
    }
    assert value[..|value|] == value;
  }

  // The character an escaped text starts with, and how much of the text it takes.
  function DecodeFirst(s: string): (r: Option<(char, nat)>)
    requires s != ""
    ensures r.Some? ==> 0 < r.value.1 <= |s|
  {
    if s[0] != '\\' then Some((s[0], 1))
    else if |s| < 2 then None
    else if s[1] == '\\' then Some(('\\', 2))
    else if s[1] == 't' then Some(('\t', 2))
    else if s[1] == 'r' then Some(('\r', 2))
    else if s[1] == 'n' then Some(('\n', 2))
    else if s[1] == 'x' && |s| >= 4 && IsUpperHexDigit(s[2]) && IsUpperHexDigit(s[3])
    then Some(((16 * UpperHexValue(s[2]) + UpperHexValue(s[3])) as char, 4))
    else if s[1] == 'u' && |s| >= 6 && s[2] == '{' && IsUpperHexDigit(s[3]) && IsUpperHexDigit(s[4]) && s[5] == '}'
    then Some(((16 * UpperHexValue(s[3]) + UpperHexValue(s[4])) as char, 6))
    else None
  }

  function Decode(s: string): Option<string> {
    if s == "" then Some("")
    else
      var first := DecodeFirst(s);
      if first.None? then None
      else
        var rest := Decode(s[first.value.1..]);
        if rest.None? then None else Some([first.value.0] + rest.value)
  }

  lemma CharReadsBack(c: char, rest: string)
    ensures EscapeChar(c) != "" && DecodeFirst(EscapeChar(c) + rest) == Some((c, |EscapeChar(c)|))
    ensures forall i :: 0 <= i < |EscapeChar(c)| ==> !IsControl(EscapeChar(c)[i])
  {
    var e := EscapeChar(c);
    assert forall i :: 0 <= i < |e| ==> (e + rest)[i] == e[i];
    if (c as int) < 0x100 {
      var n := c as int;
      assert n == 16 * (n / 16) + n % 16;
      HexReadsBack(n / 16);
      HexReadsBack(n % 16);
    }
  }

  lemma HexReadsBack(n: nat)
    requires n < 16
    ensures IsUpperHexDigit(UpperHexDigit(n)) && UpperHexValue(UpperHexDigit(n)) == n && !IsControl(UpperHexDigit(n))
  {
  }

  // No control character is left, and the text can be recovered exactly.
  lemma {:induction false} EscapeRoundTrip(value: string)
    ensures Decode(Escaped(value)) == Some(value)
    ensures forall i :: 0 <= i < |Escaped(value)| ==> !IsControl(Escaped(value)[i])
  {
    hide EscapeChar, DecodeFirst;
    if value == "" {
    } else {
      var rest := Escaped(value[1..]);
      CharReadsBack(value[0], rest);
      EscapeRoundTrip(value[1..]);
      assert (EscapeChar(value[0]) + rest)[|EscapeChar(value[0])|..] == rest;
      assert value == [value[0]] + value[1..];
    }
  }

  // A text is left as it is exactly when it has neither a control character nor a backslash; and
  // the four characters with a short escape get it.
  lemma {:induction false} EscapeUnchanged(value: string)
    ensures Escaped(value) == value <==>
            forall i :: 0 <= i < |value| ==>
              0x20 <= value[i] as int && value[i] != '\\' && !(0x7F <= value[i] as int < 0xA0)
    ensures |Escaped(value)| >= |value|
    ensures EscapeChar('\t') == "\\t" && EscapeChar('\n') == "\\n" && EscapeChar('\r') == "\\r"
            && EscapeChar('\\') == "\\\\"
  {
    CharUnchanged('\t');
    hide EscapeChar;
    if value == "" {
    } else {
      EscapeUnchanged(value[1..]);
      CharUnchanged(value[0]);
      var e, rest := EscapeChar(value[0]), Escaped(value[1..]);
      assert value == [value[0]] + value[1..];
      assert |e| == 1 ==> (e + rest)[1..] == rest;
    }
  }

  lemma CharUnchanged(c: char)
    ensures EscapeChar(c) == [c] <==> 0x20 <= c as int && c != '\\' && !(0x7F <= c as int < 0xA0)
    ensures |EscapeChar(c)| >= 1 && (|EscapeChar(c)| == 1 ==> EscapeChar(c) == [c])
    ensures EscapeChar('\t') == "\\t" && EscapeChar('\n') == "\\n" && EscapeChar('\r') == "\\r"
            && EscapeChar('\\') == "\\\\"
  {
    hide TwoDigits;
  }

  // ---- Wrapping ----------------------------------------------------------------------------

  // Display columns and grapheme clusters as the libraries give them. Widths are taken to add up.
  datatype Display = Display(width: string -> nat, graphemes: string -> seq<string>)

  ghost predicate Regular(d: Display) {
    && (forall a, b :: d.width(a + b) == d.width(a) + d.width(b))
    && d.width(" ") == 1
    && (forall w :: Flatten(d.graphemes(w)) == w)
    && (forall w, i :: 0 <= i < |d.graphemes(w)| ==> d.graphemes(w)[i] != "")
  }

  function Flatten(s: seq<string>): string { if s == [] then "" else Flatten(s[..|s| - 1]) + s[|s| - 1] }

  function NonSpace(s: string): string {
    if s == "" then "" else if IsSpace(s[|s| - 1]) then NonSpace(s[..|s| - 1])
      else NonSpace(s[..|s| - 1]) + [s[|s| - 1]]
  }

  lemma {:induction false} NonSpaceConcat(a: string, b: string)
    ensures NonSpace(a + b) == NonSpace(a) + NonSpace(b)
  {
    if b == "" {
      assert a + b == a;
    } else {
      NonSpaceConcat(a, b[..|b| - 1]);
      assert (a + b)[..|a + b| - 1] == a + b[..|b| - 1];
    }
  }

  function Words(s: string): seq<string>
    decreases |s|
  {
    var t := TrimStart(s);
    TrimStartShorter(s);
    if t == "" then []
    else
      WordShorter(t);
      [Word(t)] + Words(t[|Word(t)|..])
  }

  lemma {:induction false} TrimStartShorter(s: string)
    ensures |TrimStart(s)| <= |s| && NonSpace(TrimStart(s)) == NonSpace(s)
    ensures TrimStart(s) != "" ==> !IsSpace(TrimStart(s)[0])
  {
    if s != "" && IsSpace(s[0]) {
      TrimStartShorter(s[1..]);
      NonSpaceConcat([s[0]], s[1..]);
      assert s == [s[0]] + s[1..];
      assert NonSpace([s[0]]) == "";
    }
  }

  lemma {:induction false} WordShorter(s: string)
    ensures |Word(s)| <= |s| && s == Word(s) + s[|Word(s)|..] && (s != "" && !IsSpace(s[0]) ==> Word(s) != "")
    ensures NonSpace(Word(s)) == Word(s)
  {
    if s != "" && !IsSpace(s[0]) {
      WordShorter(s[1..]);
      NonSpaceConcat([s[0]], Word(s[1..]));
      assert NonSpace([s[0]]) == [s[0]];
      assert s == [s[0]] + s[1..];
    }
  }

  lemma {:induction false} FlattenConcat(a: seq<string>, b: seq<string>)
    ensures Flatten(a + b) == Flatten(a) + Flatten(b)
  {
    if b == [] {
      assert a + b == a;
    } else {
      FlattenConcat(a, b[..|b| - 1]);
      assert (a + b)[..|a + b| - 1] == a + b[..|b| - 1];
    }
  }

  // The words are the text without its spaces.
  lemma {:induction false} WordsKeepText(s: string)
    ensures Flatten(Words(s)) == NonSpace(s)
    ensures forall i :: 0 <= i < |Words(s)| ==> Words(s)[i] != "" && NonSpace(Words(s)[i]) == Words(s)[i]
    decreases |s|
  {
    hide Words, TrimStart, Word, NonSpace, Flatten;
    var t := TrimStart(s);
    TrimStartShorter(s);
    WordsUnfold(s);
    NonSpaceNone();
    if t == "" {
    } else {
      WordShorter(t);
      var w, rest := Word(t), t[|Word(t)|..];
      WordsKeepText(rest);
      FlattenConcat([w], Words(rest));
      NonSpaceConcat(w, rest);
      FlattenOne(w);
    }
  }

  lemma WordsUnfold(s: string)
    ensures var t := TrimStart(s);
            if t == "" then Words(s) == []
            else |Word(t)| <= |t| && Words(s) == [Word(t)] + Words(t[|Word(t)|..])
  {
    hide NonSpace;
    TrimStartShorter(s);
    WordShorter(TrimStart(s));
  }

  lemma FlattenOne(w: string)
    ensures Flatten([w]) == w
  {
    assert [w][..0] == [];
  }

  // Fits, or is one grapheme cluster that cannot.
  ghost predicate LineFits(d: Display, line: string, width: nat, words: seq<string>) {
    d.width(line) <= width || exists i :: 0 <= i < |words| && line in d.graphemes(words[i])
  }

  predicate At(line: string, word: string, i: nat) { i + |word| <= |line| && line[i..i + |word|] == word }

  ghost predicate Whole(lines: seq<string>, word: string) { exists k, i :: 0 <= k < |lines| && At(lines[k], word, i) }

  // What is on the lines so far, the last one included.
  ghost predicate Laid(d: Display, lines: seq<string>, words: seq<string>, k: nat, width: nat, part: string)
    requires k <= |words|
  {
    && (forall i :: 0 <= i < |lines| ==> LineFits(d, lines[i], width, words))
    && NonSpace(Flatten(lines)) == Flatten(words[..k]) + part
    && (forall i :: 0 <= i < k && d.width(words[i]) <= width ==> Whole(lines, words[i]))
  }

  lemma FlattenSnoc(lines: seq<string>, line: string)
    ensures Flatten(lines + [line]) == Flatten(lines) + line
  {
    assert (lines + [line])[..|lines|] == lines;
  }

  // Putting more at the end of the last line.
  lemma Extend(d: Display, lines: seq<string>, line: string, more: string, words: seq<string>, k: nat, width: nat,
          part: string)
    requires k <= |words| && Laid(d, lines + [line], words, k, width, part) && LineFits(d, line + more, width, words)
    ensures Laid(d, lines + [line + more], words, k, width, part + NonSpace(more))
  {
    hide LineFits, Whole, NonSpace, Flatten;
    var before, after := lines + [line], lines + [line + more];
    ExtendText(lines, line, more);
    assert Flatten(words[..k]) + part + NonSpace(more) == Flatten(words[..k]) + (part + NonSpace(more));
    forall i | 0 <= i < k && d.width(words[i]) <= width ensures Whole(after, words[i]) {
      ExtendWhole(lines, line, more, words[i]);
    }
    forall i | 0 <= i < |after| ensures LineFits(d, after[i], width, words) {
      if i < |lines| { assert after[i] == before[i]; }
    }
  }

  lemma ExtendText(lines: seq<string>, line: string, more: string)
    ensures NonSpace(Flatten(lines + [line + more])) == NonSpace(Flatten(lines + [line])) + NonSpace(more)
  {
    FlattenSnoc(lines, line);
    FlattenSnoc(lines, line + more);
    assert Flatten(lines) + (line + more) == Flatten(lines) + line + more;
    NonSpaceConcat(Flatten(lines) + line, more);
  }

  lemma ExtendWhole(lines: seq<string>, line: string, more: string, word: string)
    requires Whole(lines + [line], word)
    ensures Whole(lines + [line + more], word)
  {
    var before, after := lines + [line], lines + [line + more];
    var n: int, j: nat :| 0 <= n < |before| && At(before[n], word, j);
    assert n == |lines| ==> line == before[n] && (line + more)[j..j + |word|] == line[j..j + |word|];
    assert At(after[n], word, j);
  }

  // Starting a new line.
  lemma Break(d: Display, lines: seq<string>, words: seq<string>, k: nat, width: nat, part: string, line: string)
    requires k <= |words| && Laid(d, lines, words, k, width, part) && LineFits(d, line, width, words)
    ensures Laid(d, lines + [line], words, k, width, part + NonSpace(line))
  {
    hide LineFits;
    FlattenSnoc(lines, line);
    NonSpaceConcat(Flatten(lines), line);
    forall i | 0 <= i < k && d.width(words[i]) <= width ensures Whole(lines + [line], words[i]) {
      var n: int, j: nat :| 0 <= n < |lines| && At(lines[n], words[i], j);
      assert At((lines + [line])[n], words[i], j);
    }
  }

  // A word that is on the lines completely is done.
  lemma WordDone(d: Display, lines: seq<string>, words: seq<string>, k: nat, width: nat)
    requires k < |words| && Laid(d, lines, words, k, width, words[k])
    requires d.width(words[k]) <= width ==> Whole(lines, words[k])
    ensures Laid(d, lines, words, k + 1, width, "")
  {
    FlattenSnoc(words[..k], words[k]);
    assert words[..k + 1] == words[..k] + [words[k]];
  }

  function WithLast(lines: seq<string>, line: string): seq<string> { if line == "" then lines else lines + [line] }

  // Adds text to the last line, or starts one with it.
  lemma Append(d: Display, lines: seq<string>, line: string, more: string, words: seq<string>, k: nat, width: nat,
          part: string)
    requires k <= |words| && more != "" && Laid(d, WithLast(lines, line), words, k, width, part)
    requires LineFits(d, line + more, width, words)
    ensures Laid(d, WithLast(lines, line + more), words, k, width, part + NonSpace(more))
  {
    hide Laid;
    if line == "" {
      assert line + more == more;
      Break(d, lines, words, k, width, part, more);
    } else {
      Extend(d, lines, line, more, words, k, width, part);
    }
  }

  // ---- Filling lines as far as they go -----------------------------------------------------

  // The first word of the next line would not have fitted behind this one, or it starts a word
  // that no line could hold.
  ghost predicate Full(d: Display, line: string, next: string, width: nat, words: seq<string>) {
    || d.width(line) + 1 + d.width(Word(next)) > width
    || exists i :: 0 <= i < |words| && d.width(words[i]) > width && Word(next) <= words[i]
  }

  ghost predicate Packed(d: Display, lines: seq<string>, width: nat, words: seq<string>) {
    forall i :: 0 < i < |lines| ==> Full(d, lines[i - 1], lines[i], width, words)
  }

  predicate NoSpaces(s: string) { forall i :: 0 <= i < |s| ==> !IsSpace(s[i]) }

  lemma {:induction false} NonSpaceMeans(s: string)
    ensures |NonSpace(s)| <= |s| && (NonSpace(s) == s ==> NoSpaces(s))
  {
    if s == "" {
    } else {
      NonSpaceMeans(s[..|s| - 1]);
      assert NonSpace(s) == s ==> s[..|s| - 1] == NonSpace(s[..|s| - 1]);
    }
  }

  lemma {:induction false} WordWhole(s: string)
    requires NoSpaces(s)
    ensures Word(s) == s
  {
    if s == "" {
    } else {
      WordWhole(s[1..]);
    }
  }

  // What follows a blank is not part of the first word.
  lemma {:induction false} WordStops(s: string, more: string)
    ensures Word(s + " " + more) == Word(s)
  {
    if s == "" {
      assert (s + " " + more)[0] == ' ';
    } else {
      WordStops(s[1..], more);
      assert (s + " " + more)[1..] == s[1..] + " " + more;
    }
  }

  lemma PackedPush(d: Display, lines: seq<string>, line: string, width: nat, words: seq<string>)
    requires Packed(d, lines, width, words) && (lines != [] ==> Full(d, lines[|lines| - 1], line, width, words))
    ensures Packed(d, lines + [line], width, words)
  {
  }

  lemma PackedFront(d: Display, lines: seq<string>, line: string, width: nat, words: seq<string>)
    requires Packed(d, lines + [line], width, words)
    ensures Packed(d, lines, width, words) && (lines != [] ==> Full(d, lines[|lines| - 1], line, width, words))
  {
    var all := lines + [line];
    forall i | 0 < i < |lines| ensures Full(d, lines[i - 1], lines[i], width, words) {
      assert all[i - 1] == lines[i - 1] && all[i] == lines[i];
    }
    if lines != [] { assert all[|lines| - 1] == lines[|lines| - 1] && all[|lines|] == line; }
  }

  // The first `k` words are on the lines, the last one included; nothing is there before the first.
  ghost predicate Wrapping(d: Display, lines: seq<string>, line: string, words: seq<string>, k: nat, width: nat)
    requires k <= |words|
  {
    && Laid(d, WithLast(lines, line), words, k, width, "") && Packed(d, WithLast(lines, line), width, words)
    && (line == "" <==> k == 0) && (k == 0 ==> lines == [])
    && forall i :: 0 <= i < |lines| ==> lines[i] != ""
  }

  lemma WrappingStarts(d: Display, words: seq<string>, width: nat)
    requires Regular(d)
    ensures Wrapping(d, [], "", words, 0, width)
  {
    NothingLaid(d, words, width);
  }

  lemma WrappingEnds(d: Display, lines: seq<string>, line: string, value: string, width: nat)
    requires Regular(d) && Wrapping(d, lines, line, Words(value), |Words(value)|, width)
    ensures var all, words := if line != "" || lines == [] then lines + [line] else lines, Words(value);
            && NonSpace(Flatten(all)) == NonSpace(value)
            && (forall i :: 0 <= i < |all| ==> LineFits(d, all[i], width, words))
            && (forall i :: 0 <= i < |words| && d.width(words[i]) <= width ==> Whole(all, words[i]))
            && Packed(d, all, width, words)
            && if NonSpace(value) == "" then all == [""] else forall i :: 0 <= i < |all| ==> all[i] != ""
  {
    hide NonSpace, Flatten, Words, LineFits, Whole, Full, Laid;
    var words := Words(value);
    NothingLaid(d, words, width);
    WordsKeepText(value);
    assert line == "" ==> lines + [line] == [""] && |words| == 0;
    assert line != "" ==> WithLast(lines, line) == lines + [line];
    AllLaid(d, if line != "" || lines == [] then lines + [line] else lines, words, width, value);
  }

  // Fills lines with whole words; a word wider than a line is cut between grapheme clusters. The
  // text without its spaces is kept, every line fits unless it is one cluster that cannot, a word
  // that fits a line is on one line, and a line ends only where the next word does not fit.
  method WrapEncoded(d: Display, value: string, columns: nat) returns (lines: seq<string>)
    requires Regular(d)
    ensures NonSpace(Flatten(lines)) == NonSpace(value)
    ensures var width, words := Max(columns, 1), Words(value);
            && (forall i :: 0 <= i < |lines| ==> LineFits(d, lines[i], width, words))
            && (forall i :: 0 <= i < |words| && d.width(words[i]) <= width ==> Whole(lines, words[i]))
            && Packed(d, lines, width, words)
    ensures if NonSpace(value) == "" then lines == [""] else forall i :: 0 <= i < |lines| ==> lines[i] != ""
  {
    hide Wrapping, NonSpace, Flatten, Words, Whole, LineFits, Packed, Regular;
    var width := Max(columns, 1);
    var words := Words(value);
    WordsKeepText(value);
    lines := [];
    var line := "";
    WrappingStarts(d, words, width);
    for k := 0 to |words|
      invariant Wrapping(d, lines, line, words, k, width)
    {
      lines, line := PlaceWord(d, lines, line, words, k, width);
    }
    WrappingEnds(d, lines, line, value, width);
    if line != "" || lines == [] { lines := lines + [line]; }
  }

  // Puts one word behind a space, on a line of its own, or cut up on several.
  method PlaceWord(d: Display, start: seq<string>, last: string, words: seq<string>, k: nat, width: nat)
    returns (lines: seq<string>, line: string)
    requires Regular(d) && k < |words| && words[k] != "" && NonSpace(words[k]) == words[k]
    requires Wrapping(d, start, last, words, k, width)
    ensures Wrapping(d, lines, line, words, k + 1, width)
  {
    hide Laid, NonSpace, Flatten, Whole, LineFits, At, Packed, Regular, IsSpace;
    var word := words[k];
    assert "" + word == word;
    lines, line := start, last;
    if line != "" { PackedFront(d, lines, line, width, words); }
    if line != "" && d.width(line) + 1 + d.width(word) <= width {
      Spaced(d, line, word, words, width);
      Append(d, lines, line, " " + word, words, k, width, "");
      line := line + " " + word;
      WordStops(last, word);
      PackedPush(d, lines, line, width, words);
      WholeAtEnd(lines, last + " ", word);
      WordDone(d, lines + [line], words, k, width);
      return;
    }
    if line != "" { lines := lines + [line]; line := ""; }
    NonSpaceMeans(word);
    WordWhole(word);
    if d.width(word) <= width {
      Narrow(d, word, width, words);
      Append(d, lines, "", word, words, k, width, "");
      line := word;
      PackedPush(d, lines, line, width, words);
      WholeAtEnd(lines, "", word);
      WordDone(d, lines + [line], words, k, width);
      return;
    }
    lines, line := CutWord(d, lines, words, k, width);
    WordDone(d, lines + [line], words, k, width);
  }

  // The clusters up to one are a part of the word at its start, without spaces.
  lemma Slices(graphemes: seq<string>, j: nat, word: string)
    requires j < |graphemes| && Flatten(graphemes) == word && NoSpaces(word)
    ensures Flatten(graphemes[..j + 1]) == Flatten(graphemes[..j]) + graphemes[j]
    ensures Flatten(graphemes[..j + 1]) <= word && NoSpaces(graphemes[j]) && NoSpaces(Flatten(graphemes[..j + 1]))
  {
    hide Flatten, NoSpaces, IsSpace;
    assert graphemes[..j + 1] == graphemes[..j] + [graphemes[j]];
    FlattenSnoc(graphemes[..j], graphemes[j]);
    FlattenConcat(graphemes[..j + 1], graphemes[j + 1..]);
    assert graphemes == graphemes[..j + 1] + graphemes[j + 1..];
    PartsNoSpaces(Flatten(graphemes[..j]), graphemes[j], Flatten(graphemes[j + 1..]));
  }

  lemma PartsNoSpaces(a: string, b: string, c: string)
    requires NoSpaces(a + b + c)
    ensures NoSpaces(b) && NoSpaces(a + b)
  {
    var all := a + b + c;
    forall i | 0 <= i < |b| ensures !IsSpace(b[i]) { assert b[i] == all[|a| + i]; }
    forall i | 0 <= i < |a + b| ensures !IsSpace((a + b)[i]) { assert (a + b)[i] == all[i]; }
  }

  // The first `j` clusters of a wide word are laid; the first line of it started the word, and each
  // later one starts with a cluster that did not fit before.
  ghost predicate Cutting(d: Display, start: seq<string>, lines: seq<string>, line: string, words: seq<string>, k: nat,
          j: nat, width: nat)
    requires k < |words| && j <= |d.graphemes(words[k])|
  {
    var head := Flatten(d.graphemes(words[k])[..j]);
    && Laid(d, WithLast(lines, line), words, k, width, NonSpace(head))
    && (line == "" <==> j == 0) && (forall i :: 0 <= i < |lines| ==> lines[i] != "")
    && Packed(d, lines, width, words) && NoSpaces(line) && |lines| >= |start|
    && (if |lines| == |start| then lines == start && line == head
        else lines != [] && d.width(lines[|lines| - 1]) + d.width(line) > width)
    && (line != "" && lines != [] ==> Full(d, lines[|lines| - 1], line, width, words))
  }

  predicate WideWord(d: Display, words: seq<string>, k: nat, width: nat) {
    && k < |words| && words[k] != "" && NonSpace(words[k]) == words[k] && NoSpaces(words[k])
      && d.width(words[k]) > width
  }

  // The next cluster goes on the same line, or starts the first one.
  lemma CutSame(d: Display, start: seq<string>, lines: seq<string>, line: string, words: seq<string>, k: nat, j: nat,
          width: nat)
    requires Regular(d) && WideWord(d, words, k, width) && j < |d.graphemes(words[k])|
    requires Cutting(d, start, lines, line, words, k, j, width)
    requires line == "" || d.width(line) + d.width(d.graphemes(words[k])[j]) <= width
    ensures Cutting(d, start, lines, line + d.graphemes(words[k])[j], words, k, j + 1, width)
  {
    hide Laid, NonSpace, LineFits, Packed, Flatten, IsSpace;
    var graphemes := d.graphemes(words[k]);
    var grapheme := graphemes[j];
    Slices(graphemes, j, words[k]);
    NonSpaceConcat(Flatten(graphemes[..j]), grapheme);
    Single(d, grapheme, width, words, k);
    assert "" + grapheme == grapheme;
    Narrow(d, line + grapheme, width, words);
    Append(d, lines, line, grapheme, words, k, width, NonSpace(Flatten(graphemes[..j])));
    NoSpacesConcat(line, grapheme);
    WordWhole(line);
    WordWhole(line + grapheme);
    assert d.width(line + grapheme) >= d.width(line);
  }

  // The next cluster starts another line.
  lemma CutBreak(d: Display, start: seq<string>, lines: seq<string>, line: string, words: seq<string>, k: nat, j: nat,
          width: nat)
    requires Regular(d) && WideWord(d, words, k, width) && j < |d.graphemes(words[k])|
    requires Cutting(d, start, lines, line, words, k, j, width)
    requires line != "" && d.width(line) + d.width(d.graphemes(words[k])[j]) > width
    ensures Cutting(d, start, lines + [line], d.graphemes(words[k])[j], words, k, j + 1, width)
  {
    hide Laid, NonSpace, LineFits, Packed, Flatten, IsSpace;
    var graphemes := d.graphemes(words[k]);
    var grapheme := graphemes[j];
    Slices(graphemes, j, words[k]);
    NonSpaceConcat(Flatten(graphemes[..j]), grapheme);
    Single(d, grapheme, width, words, k);
    assert "" + grapheme == grapheme;
    PackedPush(d, lines, line, width, words);
    Append(d, lines + [line], "", grapheme, words, k, width, NonSpace(Flatten(graphemes[..j])));
    WordWhole(grapheme);
  }

  lemma CutEnds(d: Display, start: seq<string>, lines: seq<string>, line: string, words: seq<string>, k: nat,
          width: nat)
    requires Regular(d) && WideWord(d, words, k, width)
    requires Cutting(d, start, lines, line, words, k, |d.graphemes(words[k])|, width)
    ensures line != "" && Laid(d, lines + [line], words, k, width, words[k]) && Packed(d, lines + [line], width, words)
    ensures forall i :: 0 <= i < |lines| ==> lines[i] != ""
  {
    hide Laid, NonSpace, Packed, Flatten;
    var graphemes := d.graphemes(words[k]);
    assert graphemes[..|graphemes|] == graphemes;
    NonSpaceNone();
    PackedPush(d, lines, line, width, words);
  }

  // Cuts a word that is wider than a line, starting on a line of its own.
  method CutWord(d: Display, start: seq<string>, words: seq<string>, k: nat, width: nat)
    returns (lines: seq<string>, line: string)
    requires Regular(d) && WideWord(d, words, k, width)
    requires Laid(d, start, words, k, width, "") && Packed(d, start, width, words)
    requires forall i :: 0 <= i < |start| ==> start[i] != ""
    ensures line != "" && Laid(d, lines + [line], words, k, width, words[k]) && Packed(d, lines + [line], width, words)
    ensures forall i :: 0 <= i < |lines| ==> lines[i] != ""
  {
    var graphemes := d.graphemes(words[k]);
    lines, line := start, "";
    assert graphemes[..0] == [];
    NonSpaceNone();
    hide Laid, NonSpace, Packed, Flatten, Regular, WideWord, LineFits;
    assert Cutting(d, start, lines, line, words, k, 0, width);
    hide Cutting;
    for j := 0 to |graphemes|
      invariant Cutting(d, start, lines, line, words, k, j, width)
    {
      var grapheme := graphemes[j];
      if line != "" && d.width(line) + d.width(grapheme) > width {
        CutBreak(d, start, lines, line, words, k, j, width);
        lines := lines + [line];
        line := grapheme;
      } else {
        CutSame(d, start, lines, line, words, k, j, width);
        line := line + grapheme;
      }
    }
    CutEnds(d, start, lines, line, words, k, width);
  }

  lemma NoSpacesConcat(a: string, b: string)
    ensures NoSpaces(a) && NoSpaces(b) ==> NoSpaces(a + b)
  {
  }

  lemma NonSpaceOfSpace()
    ensures NonSpace(" ") == ""
  {
    assert " "[..0] == "";
  }

  lemma NonSpaceNone()
    ensures NonSpace("") == "" && Flatten([]) == ""
  {
  }

  lemma NothingLaid(d: Display, words: seq<string>, width: nat)
    requires Regular(d)
    ensures Laid(d, [], words, 0, width, "") && Laid(d, [""], words, 0, width, "")
  {
    assert "" + "" == "";
    assert d.width("" + "") == d.width("") + d.width("");
    assert [""][..0] == [];
    assert Flatten([""]) == "";
    assert forall i :: 0 <= i < 1 ==> [""][i] == "";
  }

  lemma Single(d: Display, grapheme: string, width: nat, words: seq<string>, k: nat)
    requires k < |words| && grapheme in d.graphemes(words[k])
    ensures LineFits(d, grapheme, width, words)
  {
  }

  lemma Narrow(d: Display, line: string, width: nat, words: seq<string>)
    ensures d.width(line) <= width ==> LineFits(d, line, width, words)
  {
  }

  lemma Spaced(d: Display, line: string, word: string, words: seq<string>, width: nat)
    requires Regular(d) && d.width(line) + 1 + d.width(word) <= width && NonSpace(word) == word
    ensures line + (" " + word) == line + " " + word && LineFits(d, line + (" " + word), width, words)
    ensures NonSpace(" " + word) == word
  {
    hide NonSpace;
    assert line + (" " + word) == line + " " + word;
    assert d.width(line + " " + word) == d.width(line + " ") + d.width(word);
    assert d.width(line + " ") == d.width(line) + d.width(" ");
    NonSpaceConcat(" ", word);
    assert NonSpace(" ") == "" by { NonSpaceOfSpace(); }
    assert "" + word == word;
  }

  lemma WholeAtEnd(lines: seq<string>, before: string, word: string)
    ensures Whole(lines + [before + word], word)
  {
    var all := lines + [before + word];
    assert all[|lines|] == before + word && At(all[|lines|], word, |before|);
  }

  lemma AllLaid(d: Display, lines: seq<string>, words: seq<string>, width: nat, value: string)
    requires Laid(d, lines, words, |words|, width, "") && words == Words(value)
    ensures NonSpace(Flatten(lines)) == NonSpace(value)
    ensures forall i :: 0 <= i < |lines| ==> LineFits(d, lines[i], width, words)
    ensures forall i :: 0 <= i < |words| && d.width(words[i]) <= width ==> Whole(lines, words[i])
    ensures NonSpace(value) == "" <==> words == []
  {
    WordsKeepText(value);
    assert words[..|words|] == words;
  }
}
