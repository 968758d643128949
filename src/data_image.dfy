/**
 * The `.data` image shared by the two MIPS cores that take a program as
 * data (the pipeline simulator and the instruction analyzer): the template
 * directives the backend rewrites before a run, and the HexText dump MARS
 * writes after it, one 32-bit word per line.
 */
module DataImage {
  import opened Wrappers
  import opened Text

  // ---------------------------------------------------------------------
  // Reading a HexText dump
  // ---------------------------------------------------------------------

  /**
   * What one dump line contributes: the number it spells, if it is a non-blank
   * hexadecimal number. `int(t, 16)` strips `t` again, which changes nothing
   * once `t` is stripped, so the stripped token is parsed directly.
   */
  function LineValue(line: string): (r: seq<int>)
    ensures |r| <= 1
  {
    var t := Strip(line);
    if t == "" then []
    else match ParseHexToken(t)
      case Some(v) => [v]
      case None => []
  }

  /** The values the parts contribute, concatenated in order. */
  function Flatten(parts: seq<seq<int>>): (r: seq<int>)
  {
    if |parts| == 0 then [] else Flatten(parts[..|parts| - 1]) + parts[|parts| - 1]
  }

  /** The words read from dump lines, in order; blank lines and lines that are not numbers are skipped. */
  function DumpValues(lines: seq<string>): (r: seq<int>)
  {
    Flatten(LineValues(lines))
  }

  /** What each line contributes, line by line. */
  function LineValues(lines: seq<string>): (r: seq<seq<int>>)
    ensures |r| == |lines| && forall i :: 0 <= i < |lines| ==> r[i] == LineValue(lines[i])
  {
    seq(|lines|, i requires 0 <= i < |lines| => LineValue(lines[i]))
  }

  /** Parts of one value each flatten to those values. */
  lemma {:induction false} FlattenSingletons(parts: seq<seq<int>>, words: seq<int>)
    requires |parts| == |words|
    requires forall k :: 0 <= k < |parts| ==> parts[k] == [words[k]]
    ensures Flatten(parts) == words
    decreases |parts|
  {
    if |parts| > 0 {
      var n := |parts| - 1;
      FlattenSingletons(parts[..n], words[..n]);
      assert words == words[..n] + [words[n]];
    }
  }

  /** An empty dump holds no words. */
  lemma EmptyDumpValues()
    ensures DumpValues(StrippedLines("")) == []
  {
    assert StrippedLines("") == [""];
    assert DumpValues([""]) == Flatten([[]]);
  }

  /**
   * The loop that opens both result parsers: every stripped, non-blank line
   * of the stripped dump that `int(line, 16)` accepts becomes one value.
   */

  method ReadValues(dump: string) returns (values: seq<int>)
    ensures values == DumpValues(StrippedLines(dump))
  {
    var lines := StrippedLines(dump);
    ghost var parts := LineValues(lines);
    values := [];
    for i := 0 to |lines|
      invariant values == Flatten(parts[..i])
    {
      var v := ReadLine(lines[i]);
      FlattenSnoc(parts, i);
      values := values + v;
    }
    assert parts[..|lines|] == parts;
  }

  lemma FlattenSnoc(parts: seq<seq<int>>, i: nat)
    requires i < |parts|
    ensures Flatten(parts[..i + 1]) == Flatten(parts[..i]) + parts[i]
  {
    assert parts[..i + 1][..i] == parts[..i];
  }

  /** One turn of the loop: strip the line and, if anything is left, try `int(line, 16)`. */
  method ReadLine(raw: string) returns (v: seq<int>)
    ensures v == LineValue(raw)
  {
    v := [];
    var line := Strip(raw);
    if line != "" {
      var parsed := ParseHexToken(line);
      if parsed.Some? {
        v := [parsed.value];
      }
    }
  }

  /** The lines MARS writes for a HexText dump: each word as eight lower-case hexadecimal digits. */
  function HexText(words: seq<nat>): (r: seq<string>)
    ensures |r| == |words|
  {
    seq(|words|, i requires 0 <= i < |words| => FormatHex(words[i], 8, false))
  }

  lemma HexLineValue(w: nat)
    ensures LineValue(FormatHex(w, 8, false)) == [w]
  {
    var h := FormatHex(w, 8, false);
    FormatHexDigits(w, 8, false);
    assert |h| >= 8;
    ParseHexTokenOfDigits(h);
    FormatHexValue(w, 8, false);
    HexDigitNotSpace(h[0]);
    HexDigitNotSpace(h[|h| - 1]);
    StripIdentity(h);
  }

  /** Each line of a HexText dump reads back as the word it was written from. */
  lemma HexTextValues(words: seq<nat>)
    ensures DumpValues(HexText(words)) == words
  {
    var lines := HexText(words);
    var parts := LineValues(lines);
    forall k | 0 <= k < |lines|
      ensures parts[k] == [words[k] as int]
    {
      HexLineValue(words[k]);
    }
    FlattenSingletons(parts, words);
  }

  /** A line that survives joining and splitting: not empty, no newline, no whitespace at either end. */
  predicate PlainLine(line: string) {
    |line| >= 1 && '\n' !in line && !IsSpace(line[0]) && !IsSpace(line[|line| - 1])
  }

  /** Plain lines joined by any separator neither start nor end with whitespace. */
  lemma {:induction false} JoinPlainEnds(lines: seq<string>, sep: string)
    requires |lines| >= 1
    requires forall k :: 0 <= k < |lines| ==> PlainLine(lines[k])
    ensures var j := Join(lines, sep); |j| >= 1 && !IsSpace(j[0]) && !IsSpace(j[|j| - 1])
    decreases |lines|
  {
    assert PlainLine(lines[0]);
    if |lines| > 1 {
      var rest := Join(lines[1..], sep);
      JoinPlainEnds(lines[1..], sep);
      var j := lines[0] + sep + rest;
      assert Join(lines, sep) == j;
      assert j[0] == lines[0][0];
      assert j[|j| - 1] == rest[|rest| - 1];
    }
  }

  /** Plain lines joined by newlines split back into those lines once the text is stripped. */
  lemma JoinedLines(lines: seq<string>)
    requires |lines| >= 1
    requires forall k :: 0 <= k < |lines| ==> PlainLine(lines[k])
    ensures StrippedLines(Join(lines, "\n")) == lines
  {
    JoinedIsStripped(lines);
    JoinedSplits(lines);
  }

  lemma JoinedIsStripped(lines: seq<string>)
    requires |lines| >= 1
    requires forall k :: 0 <= k < |lines| ==> PlainLine(lines[k])
    ensures Strip(Join(lines, "\n")) == Join(lines, "\n")
  {
    var j := Join(lines, "\n");
    JoinPlainEnds(lines, "\n");
    assert |j| >= 1 && !IsSpace(j[0]) && !IsSpace(j[|j| - 1]);
    StripIdentity(j);
  }

  lemma JoinedSplits(lines: seq<string>)
    requires |lines| >= 1
    requires forall k :: 0 <= k < |lines| ==> PlainLine(lines[k])
    ensures Split(Join(lines, "\n"), '\n') == lines
  {
    SplitJoin(lines, '\n');
  }

  /** A non-empty HexText dump, lines joined by newlines, splits back into its lines. */
  lemma HexTextLines(words: seq<nat>)
    requires |words| > 0
    ensures StrippedLines(Join(HexText(words), "\n")) == HexText(words)
  {
    var lines := HexText(words);
    forall k | 0 <= k < |lines|
      ensures PlainLine(lines[k])
    {
      FormatHexDigits(words[k], 8, false);
      assert |lines[k]| >= 8;
      HexDigitNotSpace(lines[k][0]);
      HexDigitNotSpace(lines[k][|lines[k]| - 1]);
    }
    JoinedLines(lines);
  }

  /** A whole HexText dump, lines joined by newlines, reads back as the words it was written from. */
  lemma ReadHexText(words: seq<nat>)
    ensures DumpValues(StrippedLines(Join(HexText(words), "\n"))) == words
  {
    var lines := HexText(words);
    if |words| == 0 {
      assert Join(lines, "\n") == "";
      EmptyDumpValues();
    } else {
      HexTextLines(words);
      HexTextValues(words);
    }
  }

  // ---------------------------------------------------------------------
  // The instruction buffer
  // ---------------------------------------------------------------------

  /** The buffer holds at most this many words; the template reserves it as `.space 400`. */
  const BufferCapacity: nat := 100

  function Min(a: int, b: int): int { if a <= b then a else b }

  /** `f"0x{w:08X}"`: eight upper-case digits, or a sign and seven for a negative word. */
  function WordHex(w: int): string {
    if w >= 0 then "0x" + FormatHex(w, 8, true) else "0x-" + FormatHex(-w, 7, true)
  }

  /** `", ".join(f"0x{w:08X}" for w in instructions[:100])`. */
  function WordList(instructions: seq<int>): string {
    var shown := instructions[..Min(|instructions|, BufferCapacity)];
    Join(seq(|shown|, i requires 0 <= i < |shown| => WordHex(shown[i])), ", ")
  }

  /**
   * The text that replaces the template's buffer reservation: the first 100
   * words as a `.word` list, or the template's own `.space 400` when there are
   * none. `head` is the indentation and name the caller writes before it.
   */
  function BufferDirective(head: string, instructions: seq<int>): string {
    if |instructions| == 0 then head + ".space 400" else head + ".word " + WordList(instructions)
  }

  /** How many words the injected buffer occupies in the data image. */
  function BufferWords(numInstructions: int): (r: nat)
    ensures 1 <= r <= BufferCapacity
  {
    if numInstructions <= 0 then BufferCapacity else Min(numInstructions, BufferCapacity)
  }

  /** The items of a `.word` list, each read as a hexadecimal number. */
  function ListedWords(items: string): (r: seq<Option<int>>)
    ensures |r| == |Split(items, ',')|
  {
    var pieces := Split(items, ',');
    seq(|pieces|, i requires 0 <= i < |pieces| => ParseHex(pieces[i]))
  }

  /** `parts` with a space put in front of every part but the first. */
  function Spaced(parts: seq<string>): (r: seq<string>)
    requires |parts| >= 1
    ensures |r| == |parts| && r[0] == parts[0]
    ensures forall k :: 1 <= k < |parts| ==> r[k] == " " + parts[k]
  {
    [parts[0]] + seq(|parts| - 1, i requires 0 <= i < |parts| - 1 => " " + parts[i + 1])
  }

  lemma JoinLeadingSpace(x: string, rest: seq<string>)
    ensures Join([" " + x] + rest, ",") == " " + Join([x] + rest, ",")
  {
    if |rest| > 0 {
      assert ([" " + x] + rest)[1..] == rest;
      assert ([x] + rest)[1..] == rest;
    }
  }

  /** Joining with `", "` is joining with `","` after a space is put in front of every later part. */
  lemma {:induction false} JoinCommaSpace(parts: seq<string>)
    requires |parts| >= 1
    ensures Join(parts, ", ") == Join(Spaced(parts), ",")
    decreases |parts|
  {
    if |parts| > 1 {
      var tail := parts[1..];
      JoinCommaSpace(tail);
      var st := Spaced(tail);
      var j := Join(st, ",");
      JoinCons(parts[0], tail, ", ");
      SpacedCons(parts);
      JoinCons(parts[0], [" " + st[0]] + st[1..], ",");
      JoinLeadingSpace(st[0], st[1..]);
      SpacedSplit(tail);
      CommaSpace(parts[0], j);
    }
  }

  /** Joining a part in front of at least one more puts the separator between them. */
  lemma JoinCons(x: string, ys: seq<string>, sep: string)
    requires |ys| >= 1
    ensures Join([x] + ys, sep) == x + sep + Join(ys, sep)
  {
    assert ([x] + ys)[1..] == ys;
  }

  /** Spacing a list of two or more parts is its head, then the spaced tail with a space in front of its head. */
  lemma SpacedCons(parts: seq<string>)
    requires |parts| >= 2
    ensures Spaced(parts) == [parts[0]] + ([" " + Spaced(parts[1..])[0]] + Spaced(parts[1..])[1..])
  {
    var st, sp := Spaced(parts[1..]), Spaced(parts);
    var rest := [" " + st[0]] + st[1..];
    forall k | 0 <= k < |rest|
      ensures sp[k + 1] == rest[k]
    {
    }
    assert sp == [sp[0]] + sp[1..];
  }

  lemma SpacedSplit(parts: seq<string>)
    requires |parts| >= 1
    ensures [Spaced(parts)[0]] + Spaced(parts)[1..] == Spaced(parts)
  {
  }

  lemma CommaSpace(x: string, j: string)
    ensures x + "," + (" " + j) == x + ", " + j
  {
    assert ", " == "," + " ";
  }

  lemma StripLeadingSpace(p: string)
    ensures Strip(" " + p) == Strip(p)
  {
    assert (" " + p)[1..] == p;
  }

  lemma WordHexValue(w: nat, spaced: bool)
    ensures ',' !in WordHex(w)
    ensures ParseHex(if spaced then " " + WordHex(w) else WordHex(w)) == Some(w)
  {
    WordHexNoComma(w);
    ParseHexFormatted(w, 8, true, true);
    assert ParseHex(WordHex(w)) == Some(w);
    if spaced {
      LeadingSpaceParse(WordHex(w));
    }
  }

  lemma WordHexNoComma(w: nat)
    ensures ',' !in WordHex(w)
  {
    var h := FormatHex(w, 8, true);
    FormatHexDigits(w, 8, true);
    assert ',' !in h by {
      forall k | 0 <= k < |h|
        ensures h[k] != ','
      {
        assert IsHexDigit(h[k]);
      }
    }
    assert WordHex(w) == "0x" + h;
  }

  lemma LeadingSpaceParse(p: string)
    ensures ParseHex(" " + p) == ParseHex(p)
  {
    StripLeadingSpace(p);
  }

  /**
   * The buffer the injector writes lists exactly the first 100 words (all of
   * them when there are fewer), each readable back from its item, so it
   * occupies `BufferWords` words; with no words it is the 100-word reservation.
   */
  lemma BufferListing(instructions: seq<nat>)
    ensures |instructions| == 0 ==> BufferDirective("", instructions) == ".space 400" && 400 / 4 == BufferWords(0)
    ensures |instructions| > 0 ==>
      var listed := ListedWords(WordList(instructions));
      |listed| == BufferWords(|instructions|)
      && forall k :: 0 <= k < |listed| ==> listed[k] == Some(instructions[k] as int)
  {
    if |instructions| > 0 {
      var shown := instructions[..Min(|instructions|, BufferCapacity)];
      var texts := seq(|shown|, i requires 0 <= i < |shown| => WordHex(shown[i]));
      JoinCommaSpace(texts);
      var spaced := Spaced(texts);
      forall k | 0 <= k < |spaced|
        ensures ',' !in spaced[k] && ParseHex(spaced[k]) == Some(shown[k] as int)
      {
        WordHexValue(shown[k], k > 0);
      }
      SplitJoin(spaced, ',');
    }
  }

  // ---------------------------------------------------------------------
  // Rewriting a directive in the template
  // ---------------------------------------------------------------------

  /** A match of the pattern `<label>:\s*\.<directive>\s+\d+`: where it ends and the number it ends with. */
  datatype DirectiveMatch = DirectiveMatch(end: nat, number: nat)

  /** The value of the decimal digits `s[c..d]`. */
  function Number(s: string, c: nat, d: nat): nat
    requires c <= d <= |s|
    requires forall k :: c <= k < d ==> IsDigit(s[k])
  {
    assert forall k :: 0 <= k < d - c ==> s[c..d][k] == s[c + k];
    DigitsValue(s[c..d])
  }

  /**
   * The match of `<label>:\s*\.<directive>\s+\d+` starting at position `i` of
   * `s`, if there is one. Each `\s*`, `\s+` and `\d+` takes the longest run,
   * which is the only run the following part of the pattern can accept.
   */
  function MatchAt(s: string, i: nat, name: string, directive: string): (r: Option<DirectiveMatch>)
    requires i <= |s|
    ensures r.Some? ==> i < r.value.end <= |s|
  {
    if !LiteralAt(s, i, name + ":") then None
    else DirectiveFrom(s, SpacesFrom(s, i + |name| + 1), directive)
  }

  /** The rest of a match once the label and the spaces after it are read: `\.<directive>\s+\d+` at `a`. */
  function DirectiveFrom(s: string, a: nat, directive: string): (r: Option<DirectiveMatch>)
    requires a <= |s|
    ensures r.Some? ==> a < r.value.end <= |s|
  {
    if !LiteralAt(s, a, "." + directive) then None
    else NumberFrom(s, a + 1 + |directive|)
  }

  /** The end of a match: `\s+\d+` at `b`. */
  function NumberFrom(s: string, b: nat): (r: Option<DirectiveMatch>)
    requires b <= |s|
    ensures r.Some? ==> b < r.value.end <= |s|
  {
    var c := SpacesFrom(s, b);
    var d := DigitsFrom(s, c);
    if c == b || d == c then None
    else Some(DirectiveMatch(d, Number(s, c, d)))
  }

  /** The rewrite of `s[i..]`: a match is replaced and the scan resumes after it, any other character is copied. */
  function SubFrom(s: string, i: nat, name: string, directive: string, replacement: string): string
    requires i <= |s|
    decreases |s| - i
  {
    if i == |s| then ""
    else match MatchAt(s, i, name, directive)
      case Some(m) => replacement + SubFrom(s, m.end, name, directive, replacement)
      case None => [s[i]] + SubFrom(s, i + 1, name, directive, replacement)
  }

  /** `re.sub(r"<label>:\s*\.<directive>\s+\d+", replacement, s)`. */
  function SubDirective(s: string, name: string, directive: string, replacement: string): string {
    SubFrom(s, 0, name, directive, replacement)
  }

  /** No match of the pattern starts at a position in `[i, j)`. */
  predicate NoMatchIn(s: string, i: nat, j: nat, name: string, directive: string)
    requires i <= j <= |s|
  {
    forall k :: i <= k < j ==> MatchAt(s, k, name, directive).None?
  }

  /** Where nothing matches, the text is copied unchanged. */
  lemma SubFromCopy(s: string, i: nat, j: nat, name: string, directive: string, replacement: string)
    requires i <= j <= |s|
    requires NoMatchIn(s, i, j, name, directive)
    ensures SubFrom(s, i, name, directive, replacement) == s[i..j] + SubFrom(s, j, name, directive, replacement)
  {
    var f := (k: nat) => if k <= |s| then SubFrom(s, k, name, directive, replacement) else "";
    SubFromSteps(s, i, j, name, directive, replacement);
    assert forall k :: i <= k < j ==> f(k) == [s[k]] + f(k + 1);
    CopyChain(s, i, j, f);
  }

  lemma SubFromSteps(s: string, i: nat, j: nat, name: string, directive: string, replacement: string)
    requires i <= j <= |s|
    requires NoMatchIn(s, i, j, name, directive)
    ensures forall k :: i <= k < j ==>
      SubFrom(s, k, name, directive, replacement) == [s[k]] + SubFrom(s, k + 1, name, directive, replacement)
  {
    forall k | i <= k < j
      ensures SubFrom(s, k, name, directive, replacement) == [s[k]] + SubFrom(s, k + 1, name, directive, replacement)
    {
      SubFromNoMatch(s, k, name, directive, replacement);
    }
  }

  /** Where no match starts, one character is copied and the scan moves on. */
  lemma SubFromNoMatch(s: string, i: nat, name: string, directive: string, replacement: string)
    requires i < |s| && MatchAt(s, i, name, directive).None?
    ensures SubFrom(s, i, name, directive, replacement) == [s[i]] + SubFrom(s, i + 1, name, directive, replacement)
  {
  }

  /** A scan that copies one character per step from `i` to `j` copies `s[i..j]`. */
  lemma {:induction false} CopyChain(s: string, i: nat, j: nat, f: nat -> string)
    requires i <= j <= |s|
    requires forall k :: i <= k < j ==> f(k) == [s[k]] + f(k + 1)
    ensures f(i) == s[i..j] + f(j)
    decreases j - i
  {
    if i < j {
      CopyChain(s, i + 1, j, f);
      assert s[i..j] == [s[i]] + s[i + 1..j];
    }
  }

  /** A text in which the pattern never matches comes out unchanged. */
  lemma NoMatchUnchanged(s: string, name: string, directive: string, replacement: string)
    requires NoMatchIn(s, 0, |s|, name, directive)
    ensures SubDirective(s, name, directive, replacement) == s
  {
    SubFromCopy(s, 0, |s|, name, directive, replacement);
    assert s[0..|s|] == s;
  }

  /**
   * A text with exactly one match, at `p`: everything before it is copied,
   * the match is replaced, and everything after it is copied.
   */
  lemma SubDirectiveOnce(s: string, p: nat, name: string, directive: string, replacement: string)
    requires p <= |s| && MatchAt(s, p, name, directive).Some?
    requires NoMatchIn(s, 0, p, name, directive)
    requires NoMatchIn(s, MatchAt(s, p, name, directive).value.end, |s|, name, directive)
    ensures var e := MatchAt(s, p, name, directive).value.end;
      SubDirective(s, name, directive, replacement) == s[..p] + replacement + s[e..]
  {
    var e := MatchAt(s, p, name, directive).value.end;
    SubFromCopy(s, 0, p, name, directive, replacement);
    SubFromCopy(s, e, |s|, name, directive, replacement);
    var tail := SubFrom(s, e, name, directive, replacement);
    assert tail == s[e..] by {
      assert SubFrom(s, |s|, name, directive, replacement) == "";
      assert s[e..|s|] == s[e..];
    }
    assert SubFrom(s, p, name, directive, replacement) == replacement + tail;
    assert s[0..p] == s[..p];
  }

  /** Matching a concatenation is matching its parts one after the other. */
  lemma LiteralAtSplit(s: string, i: nat, a: string, b: string)
    ensures LiteralAt(s, i, a + b) <==> LiteralAt(s, i, a) && LiteralAt(s, i + |a|, b)
  {
    if LiteralAt(s, i, a + b) {
      forall k | 0 <= k < |a|
        ensures s[i + k] == a[k]
      {
        assert (a + b)[k] == a[k];
      }
      forall k | 0 <= k < |b|
        ensures s[i + |a| + k] == b[k]
      {
        assert (a + b)[|a| + k] == b[k];
      }
    }
    if LiteralAt(s, i, a) && LiteralAt(s, i + |a|, b) {
      forall k | 0 <= k < |a + b|
        ensures s[i + k] == (a + b)[k]
      {
        if k >= |a| {
          assert b[k - |a|] == s[i + |a| + (k - |a|)];
        }
      }
    }
  }

  lemma LiteralAtChars(s: string, i: nat, lit: string)
    requires LiteralAt(s, i, lit)
    ensures forall k :: i <= k < i + |lit| ==> s[k] == lit[k - i]
  {
    forall k | i <= k < i + |lit|
      ensures s[k] == lit[k - i]
    {
      assert s[i + (k - i)] == lit[k - i];
    }
  }

  /** `" <n>"` at `b`, followed by anything but a digit, is a whole `\s+\d+` carrying `n`. */
  lemma NumberAt(s: string, b: nat, n: nat)
    requires LiteralAt(s, b, " " + NatToDecimal(n))
    requires b + 1 + |NatToDecimal(n)| == |s| || !IsDigit(s[b + 1 + |NatToDecimal(n)|])
    ensures SpacesFrom(s, b) == b + 1
    ensures DigitsFrom(s, b + 1) == b + 1 + |NatToDecimal(n)|
    ensures Number(s, b + 1, b + 1 + |NatToDecimal(n)|) == n
  {
    var digits := NatToDecimal(n);
    LiteralAtSplit(s, b, " ", digits);
    NumberSpace(s, b, digits);
    NumberDigits(s, b + 1, digits);
    NumberValue(s, b + 1, n);
  }

  lemma NumberValue(s: string, c: nat, n: nat)
    requires c + |NatToDecimal(n)| <= |s| && s[c..c + |NatToDecimal(n)|] == NatToDecimal(n)
    requires forall k :: c <= k < c + |NatToDecimal(n)| ==> IsDigit(s[k])
    ensures Number(s, c, c + |NatToDecimal(n)|) == n
  {
    DecimalRoundTrip(n);
  }

  lemma NumberSpace(s: string, b: nat, digits: string)
    requires LiteralAt(s, b, " ") && LiteralAt(s, b + 1, digits) && |digits| >= 1 && IsDigit(digits[0])
    ensures SpacesFrom(s, b) == b + 1
  {
    LiteralAtChars(s, b, " ");
    LiteralAtChars(s, b + 1, digits);
    SpacesFromExact(s, b, b + 1);
  }

  lemma NumberDigits(s: string, c: nat, digits: string)
    requires LiteralAt(s, c, digits) && forall k :: 0 <= k < |digits| ==> IsDigit(digits[k])
    requires c + |digits| == |s| || !IsDigit(s[c + |digits|])
    ensures DigitsFrom(s, c) == c + |digits|
    ensures forall k :: c <= k < c + |digits| ==> IsDigit(s[k])
    ensures s[c..c + |digits|] == digits
  {
    LiteralAtChars(s, c, digits);
    DigitsFromExact(s, c, c + |digits|);
  }

  /**
   * The line `<label>:<spaces>.<directive> <n>`, written at `i` and followed
   * by anything but a digit, is one whole match of the pattern carrying `n`:
   * the lines the injectors write are matched, and read, by the same pattern.
   */
  lemma DirectiveLineAt(s: string, i: nat, name: string, spaces: string, directive: string, n: nat)
    requires forall k :: 0 <= k < |spaces| ==> IsSpace(spaces[k])
    requires var line := name + ":" + spaces + "." + directive + " " + NatToDecimal(n);
      LiteralAt(s, i, line) && (i + |line| == |s| || !IsDigit(s[i + |line|]))
    ensures var line := name + ":" + spaces + "." + directive + " " + NatToDecimal(n);
      MatchAt(s, i, name, directive) == Some(DirectiveMatch(i + |line|, n))
  {
    var digits := NatToDecimal(n);
    DirectivePieces(s, i, name, spaces, directive, digits);
    var a := i + |name| + 1 + |spaces|;
    DirectiveSpaces(s, i + |name| + 1, spaces, "." + directive);
    DotNumber(s, a, directive, n);
    LabelStage(s, i, name, directive, a);
  }

  /** `.<directive> <n>` at `a`, followed by anything but a digit, completes a match carrying `n`. */
  lemma DotNumber(s: string, a: nat, directive: string, n: nat)
    requires LiteralAt(s, a, "." + directive)
    requires LiteralAt(s, a + 1 + |directive|, " " + NatToDecimal(n))
    requires var e := a + 1 + |directive| + 1 + |NatToDecimal(n)|; e == |s| || !IsDigit(s[e])
    ensures DirectiveFrom(s, a, directive) == Some(DirectiveMatch(a + 1 + |directive| + 1 + |NatToDecimal(n)|, n))
  {
    DotStage(s, a, directive);
    NumberStage(s, a + 1 + |directive|, n);
  }

  /** After the label and the spaces that follow it, the match continues at the first non-space. */
  lemma LabelStage(s: string, i: nat, name: string, directive: string, a: nat)
    requires i <= |s| && LiteralAt(s, i, name + ":") && SpacesFrom(s, i + |name| + 1) == a
    ensures MatchAt(s, i, name, directive) == DirectiveFrom(s, a, directive)
  {
  }

  /** After `.<directive>`, the match continues with the number. */
  lemma DotStage(s: string, a: nat, directive: string)
    requires a <= |s| && LiteralAt(s, a, "." + directive)
    ensures DirectiveFrom(s, a, directive) == NumberFrom(s, a + 1 + |directive|)
  {
  }

  /** A space and the decimal spelling of `n`, followed by no further digit, end a match carrying `n`. */
  lemma NumberStage(s: string, b: nat, n: nat)
    requires LiteralAt(s, b, " " + NatToDecimal(n))
    requires b + 1 + |NatToDecimal(n)| == |s| || !IsDigit(s[b + 1 + |NatToDecimal(n)|])
    ensures NumberFrom(s, b) == Some(DirectiveMatch(b + 1 + |NatToDecimal(n)|, n))
  {
    NumberAt(s, b, n);
  }

  /** The pieces of a directive line, found one after the other. */
  lemma DirectivePieces(s: string, i: nat, name: string, spaces: string, directive: string, digits: string)
    requires LiteralAt(s, i, name + ":" + spaces + "." + directive + " " + digits)
    ensures LiteralAt(s, i, name + ":") && LiteralAt(s, i + |name| + 1, spaces)
    ensures LiteralAt(s, i + |name| + 1 + |spaces|, "." + directive)
    ensures LiteralAt(s, i + |name| + 1 + |spaces| + 1 + |directive|, " " + digits)
  {
    var l1 := name + ":";
    var l2 := l1 + spaces;
    var l3 := l2 + ".";
    var l4 := l3 + directive;
    var l5 := l4 + " ";
    LiteralAtSplit(s, i, l5, digits);
    LiteralAtSplit(s, i, l4, " ");
    LiteralAtSplit(s, i, l3, directive);
    LiteralAtSplit(s, i, l2, ".");
    LiteralAtSplit(s, i, l1, spaces);
    LiteralAtSplit(s, i + |l2|, ".", directive);
    LiteralAtSplit(s, i + |l4|, " ", digits);
  }

  /** Spaces followed by a `.` are a whole `\s*` run. */
  lemma DirectiveSpaces(s: string, i: nat, spaces: string, dot: string)
    requires forall k :: 0 <= k < |spaces| ==> IsSpace(spaces[k])
    requires LiteralAt(s, i, spaces) && LiteralAt(s, i + |spaces|, dot) && |dot| >= 1 && dot[0] == '.'
    ensures SpacesFrom(s, i) == i + |spaces|
  {
    LiteralAtChars(s, i, spaces);
    LiteralAtChars(s, i + |spaces|, dot);
    SpacesFromExact(s, i, i + |spaces|);
  }

}
