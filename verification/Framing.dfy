// What the generation id is computed from: file names and contents, each behind its length, in the
// order of the names; and the hexadecimal text of the digest.
module Framing {
  import opened Ordering

  type Byte = b: int | 0 <= b < 256
  type Bytes = seq<Byte>

  // File names are byte strings here; the source's names are ASCII.
  datatype File = File(name: Bytes, contents: Bytes)

  type Digest = Bytes -> Bytes

  const WORD: nat := 8
  const WORD_LIMIT: nat := 0x1_0000_0000_0000_0000

  // ---- Length-prefixed frames --------------------------------------------------------------

  function LittleEndian(n: nat, width: nat): (r: Bytes)
    ensures |r| == width
  {
    if width == 0 then [] else [n % 256] + LittleEndian(n / 256, width - 1)
  }

  function FromLittleEndian(s: Bytes): nat {
    if s == [] then 0 else s[0] + 256 * FromLittleEndian(s[1..])
  }

  function Power256(k: nat): nat { if k == 0 then 1 else 256 * Power256(k - 1) }

  lemma {:induction false} LittleEndianInverse(n: nat, width: nat)
    requires n < Power256(width)
    ensures FromLittleEndian(LittleEndian(n, width)) == n
  {
    if width == 0 {
    } else {
      var s := LittleEndian(n, width);
      assert s[1..] == LittleEndian(n / 256, width - 1);
      assert n / 256 < Power256(width - 1);
      LittleEndianInverse(n / 256, width - 1);
    }
  }

  function Field(s: Bytes): Bytes { LittleEndian(|s|, WORD) + s }

  function Frame(files: seq<File>): Bytes {
    if files == [] then [] else Field(files[0].name) + Field(files[0].contents) + Frame(files[1..])
  }

  // Lengths fit the eight bytes they are written in.
  predicate Addressable(files: seq<File>) {
    forall i :: 0 <= i < |files| ==> |files[i].name| < WORD_LIMIT && |files[i].contents| < WORD_LIMIT
  }

  // A field and what follows it can be told apart.
  lemma FieldSplits(a: Bytes, x: Bytes, b: Bytes, y: Bytes)
    requires |a| < WORD_LIMIT && |b| < WORD_LIMIT && Field(a) + x == Field(b) + y
    ensures a == b && x == y
  {
    hide LittleEndian, FromLittleEndian, Power256;
    assert Field(a) + x == LittleEndian(|a|, WORD) + (a + x);
    assert Field(b) + y == LittleEndian(|b|, WORD) + (b + y);
    SplitAt(LittleEndian(|a|, WORD), a + x, LittleEndian(|b|, WORD), b + y);
    Power256Word();
    LittleEndianInverse(|a|, WORD);
    LittleEndianInverse(|b|, WORD);
    SplitAt(a, x, b, y);
  }

  lemma SplitAt(p: Bytes, x: Bytes, q: Bytes, y: Bytes)
    requires |p| == |q| && p + x == q + y
    ensures p == q && x == y
  {
    assert (p + x)[..|p|] == p && (q + y)[..|q|] == q;
    assert (p + x)[|p|..] == x && (q + y)[|q|..] == y;
  }

  lemma Power256Word()
    ensures Power256(WORD) == WORD_LIMIT
  {
    assert Power256(4) == 0x1_0000_0000;
    assert Power256(8) == 256 * (256 * (256 * (256 * Power256(4))));
  }

  lemma FilesSplit(f: File, x: Bytes, g: File, y: Bytes)
    requires Addressable([f]) && Addressable([g])
    requires Field(f.name) + Field(f.contents) + x == Field(g.name) + Field(g.contents) + y
    ensures f == g && x == y
  {
    hide Field;
    assert Addressable([f]) ==> |[f][0].name| < WORD_LIMIT && |[f][0].contents| < WORD_LIMIT;
    assert Addressable([g]) ==> |[g][0].name| < WORD_LIMIT && |[g][0].contents| < WORD_LIMIT;
    var s, t := Field(f.contents) + x, Field(g.contents) + y;
    assert Field(f.name) + Field(f.contents) + x == Field(f.name) + s;
    assert Field(g.name) + Field(g.contents) + y == Field(g.name) + t;
    FieldSplits(f.name, s, g.name, t);
    FieldSplits(f.contents, x, g.contents, y);
  }

  lemma FieldLength(files: seq<File>)
    ensures files != [] ==> |Frame(files)| >= WORD
  {
  }

  // The byte stream determines the ordered file list.
  lemma {:induction false} FrameInjective(a: seq<File>, b: seq<File>)
    requires Addressable(a) && Addressable(b) && Frame(a) == Frame(b)
    ensures a == b
  {
    hide Field;
    FieldLength(a);
    FieldLength(b);
    if a != [] && b != [] {
      FilesSplit(a[0], Frame(a[1..]), b[0], Frame(b[1..]));
      FrameInjective(a[1..], b[1..]);
      assert a == [a[0]] + a[1..] && b == [b[0]] + b[1..];
    }
  }

  // ---- Ordering by name --------------------------------------------------------------------

  // Names decide; contents only break ties, which unique names do not have.
  predicate FileLess(a: File, b: File) {
    SeqLess(a.name, b.name) || (a.name == b.name && SeqLess(a.contents, b.contents))
  }

  lemma FileOrder()
    ensures StrictTotal(FileLess)
  {
    forall a: File ensures !FileLess(a, a) {
      SeqLessIrreflexive(a.name);
      SeqLessIrreflexive(a.contents);
    }
    forall a: File, b: File ensures FileLess(a, b) || FileLess(b, a) || a == b {
      SeqLessConnected(a.name, b.name);
      SeqLessConnected(a.contents, b.contents);
    }
    forall a: File, b: File, c: File | FileLess(a, b) && FileLess(b, c) ensures FileLess(a, c) {
      if SeqLess(a.name, b.name) && SeqLess(b.name, c.name) { SeqLessTransitive(a.name, b.name, c.name); }
      if SeqLess(a.contents, b.contents) && SeqLess(b.contents, c.contents) {
        SeqLessTransitive(a.contents, b.contents, c.contents);
      }
    }
  }

  function ByName(files: seq<File>): seq<File> { SortUnique(files, FileLess) }

  predicate UniqueNames(files: seq<File>) {
    forall i, j :: 0 <= i < j < |files| ==> files[i].name != files[j].name
  }

  function GenerationId(sha: Digest, files: seq<File>): string { HexLower(sha(Frame(ByName(files)))) }

  // The id depends on which files there are, not on the order they are declared in.
  lemma IdIgnoresOrder(sha: Digest, a: seq<File>, b: seq<File>)
    requires forall f :: f in a <==> f in b
    ensures GenerationId(sha, a) == GenerationId(sha, b)
  {
    FileOrder();
    SortUniqueFacts(a, FileLess);
    SortUniqueFacts(b, FileLess);
    SortedUnique(ByName(a), ByName(b), FileLess);
  }

  // Different file sets feed different bytes to the digest.
  lemma FramesTellFilesApart(a: seq<File>, b: seq<File>)
    requires Addressable(a) && Addressable(b)
    requires Frame(ByName(a)) == Frame(ByName(b))
    ensures forall f :: f in a <==> f in b
  {
    FileOrder();
    SortUniqueFacts(a, FileLess);
    SortUniqueFacts(b, FileLess);
    forall i | 0 <= i < |ByName(a)|
      ensures |ByName(a)[i].name| < WORD_LIMIT && |ByName(a)[i].contents| < WORD_LIMIT { assert ByName(a)[i] in a; }
    forall i | 0 <= i < |ByName(b)|
      ensures |ByName(b)[i].name| < WORD_LIMIT && |ByName(b)[i].contents| < WORD_LIMIT { assert ByName(b)[i] in b; }
    FrameInjective(ByName(a), ByName(b));
    forall f ensures f in a <==> f in b { assert f in ByName(a) <==> f in a; }
  }

  // ---- Hexadecimal -------------------------------------------------------------------------

  function LowerHexNibble(value: nat): char {
    var n := value % 16;
    if n <= 9 then '0' + n as char else 'a' + (n - 10) as char
  }

  function HexLower(bytes: Bytes): string {
    if bytes == [] then "" else [LowerHexNibble(bytes[0] / 16), LowerHexNibble(bytes[0])] + HexLower(bytes[1..])
  }

  predicate IsHexDigit(c: char) { '0' <= c <= '9' || 'a' <= c <= 'f' }

  predicate IsGenerationId(value: string) {
    |value| == 64 && forall i :: 0 <= i < |value| ==> IsHexDigit(value[i])
  }

  function HexValue(c: char): nat
    requires IsHexDigit(c)
  {
    if c <= '9' then (c - '0') as nat else (c - 'a') as nat + 10
  }

  function HexDecode(text: string): Bytes
    requires |text| % 2 == 0 && forall i :: 0 <= i < |text| ==> IsHexDigit(text[i])
  {
    if text == "" then [] else [16 * HexValue(text[0]) + HexValue(text[1])] + HexDecode(text[2..])
  }

  method EncodeHex(bytes: Bytes) returns (output: string)
    ensures output == HexLower(bytes)
  {
    output := "";
    for k := 0 to |bytes|
      invariant output == HexLower(bytes[..k])
    {
      HexSnoc(bytes[..k], bytes[k]);
      assert bytes[..k + 1] == bytes[..k] + [bytes[k]];
      output := output + [LowerHexNibble(bytes[k] / 16)];
      output := output + [LowerHexNibble(bytes[k])];
    }
    assert bytes[..|bytes|] == bytes;
  }

  lemma {:induction false} HexSnoc(bytes: Bytes, b: Byte)
    ensures HexLower(bytes + [b]) == HexLower(bytes) + [LowerHexNibble(b / 16)] + [LowerHexNibble(b)]
  {
    if bytes == [] {
      assert [b][1..] == [];
    } else {
      HexSnoc(bytes[1..], b);
      assert (bytes + [b])[1..] == bytes[1..] + [b];
    }
  }

  lemma NibblesReadBack(b: Byte)
    ensures var high, low := LowerHexNibble(b / 16), LowerHexNibble(b);
            IsHexDigit(high) && IsHexDigit(low) && 16 * HexValue(high) + HexValue(low) == b
  {
    assert b == 16 * (b / 16) + b % 16;
    NibbleReadsBack(b / 16);
    NibbleReadsBack(b);
  }

  lemma NibbleReadsBack(n: nat)
    ensures IsHexDigit(LowerHexNibble(n)) && HexValue(LowerHexNibble(n)) == n % 16
  {
  }

  lemma {:induction false} HexRoundTrip(bytes: Bytes)
    ensures |HexLower(bytes)| == 2 * |bytes|
    ensures forall i :: 0 <= i < |HexLower(bytes)| ==> IsHexDigit(HexLower(bytes)[i])
    ensures HexDecode(HexLower(bytes)) == bytes
  {
    hide LowerHexNibble, IsHexDigit, HexValue;
    if bytes == [] {
    } else {
      NibblesReadBack(bytes[0]);
      HexRoundTrip(bytes[1..]);
      assert HexLower(bytes)[2..] == HexLower(bytes[1..]);
    }
  }

  ghost predicate Digests(sha: Digest) { forall x :: |sha(x)| == 32 }

  // Every id the store produces is one it accepts.
  lemma ProducedIdsAreIds(sha: Digest, files: seq<File>)
    requires Digests(sha)
    ensures IsGenerationId(GenerationId(sha, files))
  {
    HexRoundTrip(sha(Frame(ByName(files))));
  }

  // Equal ids mean equal digests.
  lemma IdIsDigest(sha: Digest, a: seq<File>, b: seq<File>)
    requires GenerationId(sha, a) == GenerationId(sha, b)
    ensures sha(Frame(ByName(a))) == sha(Frame(ByName(b)))
  {
    HexRoundTrip(sha(Frame(ByName(a))));
    HexRoundTrip(sha(Frame(ByName(b))));
  }
}
