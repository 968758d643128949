/**
 * The text substitution that prepares the heap program for a run: the
 * integer after `label: .word` on each matching line of the template's
 * `.data` section is replaced by the user's input, and every other
 * character of the template is kept. The template is passed in as text.
 */
module AsmInjector {
  import opened Wrappers
  import opened Text

  // ---------------------------------------------------------------------
  // One line: `^(\s*label:\s*\.word\s+)-?\d+(.*)$`
  // ---------------------------------------------------------------------

  /**
   * Where the number of a matching line starts: after the leading
   * whitespace, `label:`, whitespace, `.word` and at least one whitespace
   * character. Each whitespace run takes its longest extent, the only one
   * the next part of the pattern can accept.
   */
  function NumberStart(line: string, symbol: string): (r: Option<nat>)
    ensures r.Some? ==> r.value <= |line|
  {
    var p0 := SpacesFrom(line, 0);
    if !LiteralAt(line, p0, symbol + ":") then None
    else
      var p2 := SpacesFrom(line, p0 + |symbol| + 1);
      if !LiteralAt(line, p2, ".word") then None
      else
        var b := SpacesFrom(line, p2 + 5);
        if b == p2 + 5 then None else Some(b)
  }

  /** Where `-?\d+` starting at `b` ends, if it matches there. */
  function NumberEnd(line: string, b: nat): (r: Option<nat>)
    requires b <= |line|
    ensures r.Some? ==> NumberRun(line, b, r.value)
  {
    var c := if b < |line| && line[b] == '-' then b + 1 else b;
    var d := DigitsFrom(line, c);
    if d == c then None
    else
      assert SignedDigits(line[b..d]) by {
        if c == b + 1 {
          assert line[b..d][1..] == line[c..d];
        } else {
          assert line[b..d] == line[c..d];
        }
      }
      Some(d)
  }

  /**
   * Where the pattern matches a line: the number spans `[b, d)`, the first
   * group is everything before it and the second group everything after it.
   */
  function MatchWord(line: string, symbol: string): (r: Option<(nat, nat)>)
    ensures r.Some? ==> NumberRun(line, r.value.0, r.value.1)
  {
    match NumberStart(line, symbol)
    case None => None
    case Some(b) =>
      match NumberEnd(line, b)
      case None => None
      case Some(d) => Some((b, d))
  }

  /** The value the `.word` of `label` holds on this line, if the line is one. */
  function WordAt(line: string, symbol: string): Option<int> {
    match MatchWord(line, symbol)
    case Some((b, d)) => ParseIntToken(line[b..d])
    case None => None
  }

  /** `re.sub` on one line: `\g<1>{value}\g<2>`. */
  function SubLine(line: string, symbol: string, value: int): string {
    match MatchWord(line, symbol)
    case Some((b, d)) => line[..b] + IntToDecimal(value) + line[d..]
    case None => line
  }

  /** `s[i..j]` is a maximal run of whitespace: the run `\s*` takes at `i`. */
  predicate SpaceRun(s: string, i: nat, j: nat) {
    i <= j <= |s| && (forall k :: i <= k < j ==> IsSpace(s[k])) && (j == |s| || !IsSpace(s[j]))
  }

  /** `s[i..j]` is a maximal run of digits, optionally after a minus sign. */
  predicate NumberRun(s: string, i: nat, j: nat) {
    i < j <= |s| && SignedDigits(s[i..j]) && (j == |s| || !IsDigit(s[j]))
  }

  /**
   * The shape of a matching line: leading whitespace up to `p0`, `label:`,
   * whitespace up to `p2`, `.word`, at least one whitespace up to `b`, and
   * a signed number up to `d`.
   */
  predicate WordLayout(line: string, symbol: string, p0: nat, p2: nat, b: nat, d: nat) {
    SpaceRun(line, 0, p0) && LiteralAt(line, p0, symbol + ":")
    && p0 + |symbol| + 1 <= p2 && SpaceRun(line, p0 + |symbol| + 1, p2) && LiteralAt(line, p2, ".word")
    && p2 + 5 < b && SpaceRun(line, p2 + 5, b) && NumberRun(line, b, d)
  }

  lemma SpaceRunFrom(s: string, i: nat, j: nat)
    requires SpaceRun(s, i, j)
    ensures SpacesFrom(s, i) == j
  {
    SpacesFromExact(s, i, j);
  }

  lemma NumberRunDigits(s: string, i: nat, j: nat)
    requires NumberRun(s, i, j)
    ensures DigitsFrom(s, if s[i] == '-' then i + 1 else i) == j
  {
    var c := if s[i] == '-' then i + 1 else i;
    assert s[i] == s[i..j][0];
    forall k | c <= k < j
      ensures IsDigit(s[k])
    {
      assert s[k] == s[i..j][k - i];
      if c == i + 1 {
        assert s[i..j][k - i] == s[i..j][1..][k - i - 1];
      }
    }
    DigitsFromExact(s, c, j);
  }

  lemma LayoutStart(line: string, symbol: string, p0: nat, p2: nat, b: nat, d: nat)
    requires WordLayout(line, symbol, p0, p2, b, d)
    ensures NumberStart(line, symbol) == Some(b)
  {
    SpaceRunFrom(line, 0, p0);
    SpaceRunFrom(line, p0 + |symbol| + 1, p2);
    SpaceRunFrom(line, p2 + 5, b);
  }

  lemma NumberRunEnd(line: string, b: nat, d: nat)
    requires NumberRun(line, b, d)
    ensures NumberEnd(line, b) == Some(d)
  {
    NumberRunDigits(line, b, d);
  }

  /** A line with that shape matches, with the number at `[b, d)`. */
  lemma LayoutMatches(line: string, symbol: string, p0: nat, p2: nat, b: nat, d: nat)
    requires WordLayout(line, symbol, p0, p2, b, d)
    ensures MatchWord(line, symbol) == Some((b, d))
  {
    LayoutStart(line, symbol, p0, p2, b, d);
    NumberRunEnd(line, b, d);
  }

  /** A line that matches has that shape. */
  lemma MatchLayout(line: string, symbol: string, b: nat, d: nat) returns (p0: nat, p2: nat)
    requires MatchWord(line, symbol) == Some((b, d))
    ensures WordLayout(line, symbol, p0, p2, b, d)
  {
    p0 := SpacesFrom(line, 0);
    p2 := SpacesFrom(line, p0 + |symbol| + 1);
  }

  /** Characters before `b` and from `d` on keep their places (shifted) when `[b, d)` is replaced by `n`. */
  lemma SpliceAt(line: string, b: nat, d: nat, n: string)
    requires b <= d <= |line|
    ensures var s := line[..b] + n + line[d..];
      |s| == b + |n| + |line| - d
      && (forall k :: 0 <= k < b ==> s[k] == line[k])
      && s[b..b + |n|] == n
      && (forall k :: b + |n| <= k < |s| ==> s[k] == line[k - b - |n| + d])
  {
  }

  lemma SpaceRunKept(line: string, s: string, i: nat, j: nat)
    requires SpaceRun(line, i, j) && j < |line| && j < |s|
    requires forall k :: 0 <= k <= j ==> s[k] == line[k]
    ensures SpaceRun(s, i, j)
  {
  }

  /** Replacing the number by other signed digits keeps the shape, the number now spanning the new digits. */
  lemma LayoutSubst(line: string, symbol: string, p0: nat, p2: nat, b: nat, d: nat, n: string)
    requires WordLayout(line, symbol, p0, p2, b, d) && SignedDigits(n)
    ensures WordLayout(line[..b] + n + line[d..], symbol, p0, p2, b, b + |n|)
  {
    var s := line[..b] + n + line[d..];
    SpliceAt(line, b, d, n);
    assert line[p0..p0 + |symbol| + 1] == s[p0..p0 + |symbol| + 1];
    assert line[p2..p2 + 5] == s[p2..p2 + 5];
    assert p0 < |line| && p2 < |line|;
    SpaceRunKept(line, s, 0, p0);
    SpaceRunKept(line, s, p0 + |symbol| + 1, p2);
    assert forall k :: p2 + 5 <= k < b ==> IsSpace(s[k]);
    assert s[b] == n[0];
    assert !IsSpace(s[b]) by {
      assert n[0] == '-' || IsDigit(n[0]) by {
        if n[0] != '-' { assert IsDigit(n[0]); }
      }
    }
    assert b + |n| < |s| ==> s[b + |n|] == line[d];
  }

  /** `int` reads back what `str` wrote. */
  lemma DecimalToken(value: int)
    ensures ParseIntToken(IntToDecimal(value)) == Some(value)
  {
    ParseIntDecimal(value);
    StripDecimal(value);
  }

  /** After a substitution the line still matches, and its number is the injected value. */
  lemma SubLineReads(line: string, symbol: string, value: int)
    requires MatchWord(line, symbol).Some?
    ensures MatchWord(SubLine(line, symbol, value), symbol).Some?
    ensures MatchWord(SubLine(line, symbol, value), symbol).value.0 == MatchWord(line, symbol).value.0
    ensures MatchWord(SubLine(line, symbol, value), symbol).value.1
      == MatchWord(line, symbol).value.0 + |IntToDecimal(value)|
    ensures WordAt(SubLine(line, symbol, value), symbol) == Some(value)
  {
    var b, d := MatchWord(line, symbol).value.0, MatchWord(line, symbol).value.1;
    SubLineSplice(line, symbol, value, b, d);
    SubLineMatchesAgain(line, symbol, value, b, d);
    SubLineValue(line, symbol, value, b, d);
  }

  lemma SubLineValue(line: string, symbol: string, value: int, b: nat, d: nat)
    requires MatchWord(line, symbol) == Some((b, d))
    ensures WordAt(line[..b] + IntToDecimal(value) + line[d..], symbol) == Some(value)
  {
    var n := IntToDecimal(value);
    SubLineMatchesAgain(line, symbol, value, b, d);
    SpliceAt(line, b, d, n);
    DecimalToken(value);
    WordAtSpliced(line[..b] + n + line[d..], symbol, b, n, value);
  }

  lemma SubLineMatchesAgain(line: string, symbol: string, value: int, b: nat, d: nat)
    requires MatchWord(line, symbol) == Some((b, d))
    ensures MatchWord(line[..b] + IntToDecimal(value) + line[d..], symbol) == Some((b, b + |IntToDecimal(value)|))
  {
    DecimalShape(value);
    SubLineMatches(line, symbol, b, d, IntToDecimal(value));
  }

  lemma SubLineSplice(line: string, symbol: string, value: int, b: nat, d: nat)
    requires MatchWord(line, symbol) == Some((b, d))
    ensures SubLine(line, symbol, value) == line[..b] + IntToDecimal(value) + line[d..]
  {
  }

  lemma WordAtSpliced(s: string, symbol: string, b: nat, n: string, value: int)
    requires MatchWord(s, symbol) == Some((b, b + |n|)) && b + |n| <= |s| && s[b..b + |n|] == n
    requires ParseIntToken(n) == Some(value)
    ensures WordAt(s, symbol) == Some(value)
  {
  }

  lemma SubLineMatches(line: string, symbol: string, b: nat, d: nat, n: string)
    requires MatchWord(line, symbol) == Some((b, d)) && SignedDigits(n)
    ensures MatchWord(line[..b] + n + line[d..], symbol) == Some((b, b + |n|))
  {
    var p0, p2 := MatchLayout(line, symbol, b, d);
    var s := line[..b] + n + line[d..];
    LayoutSubst(line, symbol, p0, p2, b, d, n);
    LayoutMatches(s, symbol, p0, p2, b, b + |n|);
  }

  /** The text around the number is kept: the first group before it and the second group after it. */
  lemma SubLineKeepsGroups(line: string, symbol: string, value: int)
    requires MatchWord(line, symbol).Some?
    ensures var (b, d) := MatchWord(line, symbol).value; var s := SubLine(line, symbol, value);
      |s| == b + |IntToDecimal(value)| + |line| - d
      && s[..b] == line[..b] && s[b..b + |IntToDecimal(value)|] == IntToDecimal(value)
      && s[b + |IntToDecimal(value)|..] == line[d..]
  {
  }

  /** Injecting twice into one line leaves only the second value. */
  lemma SubLineTwice(line: string, symbol: string, v1: int, v2: int)
    ensures SubLine(SubLine(line, symbol, v1), symbol, v2) == SubLine(line, symbol, v2)
  {
    if MatchWord(line, symbol).Some? {
      var (b, d) := MatchWord(line, symbol).value;
      var n1, n2 := IntToDecimal(v1), IntToDecimal(v2);
      SubLineReads(line, symbol, v1);
      var s := line[..b] + n1 + line[d..];
      assert s[..b] == line[..b];
      assert s[b + |n1|..] == line[d..];
    }
  }

  /** The character at `p + k` when `lit` is found at `p`. */
  lemma LiteralChar(s: string, p: nat, lit: string, k: nat)
    requires LiteralAt(s, p, lit) && k < |lit|
    ensures s[p + k] == lit[k]
  {
  }

  /** Two labels without a colon that both start at the same place are the same label. */
  lemma LabelsExclusive(s: string, p: nat, l1: string, l2: string)
    requires LiteralAt(s, p, l1 + ":") && LiteralAt(s, p, l2 + ":")
    requires ':' !in l1 && ':' !in l2
    ensures l1 == l2
  {
    if |l1| < |l2| {
      LiteralChar(s, p, l1 + ":", |l1|);
      LiteralChar(s, p, l2 + ":", |l1|);
      assert false;
    } else if |l2| < |l1| {
      LiteralChar(s, p, l2 + ":", |l2|);
      LiteralChar(s, p, l1 + ":", |l2|);
      assert false;
    } else {
      forall k | 0 <= k < |l1|
        ensures l1[k] == l2[k]
      {
        LiteralChar(s, p, l1 + ":", k);
        LiteralChar(s, p, l2 + ":", k);
      }
    }
  }

  /** A line matches at most one of two distinct labels without a colon. */
  lemma OneLabelPerLine(line: string, l1: string, l2: string)
    requires l1 != l2 && ':' !in l1 && ':' !in l2
    ensures MatchWord(line, l1).None? || MatchWord(line, l2).None?
  {
    if MatchWord(line, l1).Some? && MatchWord(line, l2).Some? {
      LabelsExclusive(line, SpacesFrom(line, 0), l1, l2);
    }
  }

  /** Injecting into one label does not change whether, or where, a line matches another. */
  lemma SubLineOther(line: string, l1: string, l2: string, value: int)
    requires l1 != l2 && ':' !in l1 && ':' !in l2
    ensures MatchWord(SubLine(line, l1, value), l2) == MatchWord(line, l2)
  {
    if MatchWord(line, l1).Some? {
      OneLabelPerLine(line, l1, l2);
      var s := SubLine(line, l1, value);
      SubLineReads(line, l1, value);
      OneLabelPerLine(s, l1, l2);
    }
  }

  // ---------------------------------------------------------------------
  // The whole template, line by line
  // ---------------------------------------------------------------------

  function SubLines(lines: seq<string>, symbol: string, value: int): (r: seq<string>)
    ensures |r| == |lines|
  {
    if |lines| == 0 then []
    else SubLines(lines[..|lines| - 1], symbol, value) + [SubLine(lines[|lines| - 1], symbol, value)]
  }

  lemma {:induction false} SubLinesAt(lines: seq<string>, symbol: string, value: int, k: nat)
    requires k < |lines|
    ensures SubLines(lines, symbol, value)[k] == SubLine(lines[k], symbol, value)
    decreases |lines|
  {
    if k < |lines| - 1 {
      assert lines[..|lines| - 1][k] == lines[k];
      SubLinesAt(lines[..|lines| - 1], symbol, value, k);
    }
  }

  /**
   * `inject_value`: the substitution applied to every line (`re.MULTILINE`).
   * The lines of the result are the substituted lines of the template, one for one.
   */
  function InjectValue(asm: string, symbol: string, value: int): (r: string)
    ensures Split(r, '\n') == SubLines(Split(asm, '\n'), symbol, value)
  {
    var lines := Split(asm, '\n');
    var subbed := SubLines(lines, symbol, value);
    forall k | 0 <= k < |subbed|
      ensures '\n' !in subbed[k]
    {
      SubLinesAt(lines, symbol, value, k);
      SubLineNoNewline(lines[k], symbol, value);
    }
    SplitJoin(subbed, '\n');
    Join(subbed, "\n")
  }

  /** The values held by the `.word`s of `label`, in line order. */
  function LineValues(lines: seq<string>, symbol: string): seq<int> {
    if |lines| == 0 then []
    else
      LineValues(lines[..|lines| - 1], symbol)
        + match WordAt(lines[|lines| - 1], symbol) case Some(v) => [v] case None => []
  }

  function LabelValues(asm: string, symbol: string): seq<int> {
    LineValues(Split(asm, '\n'), symbol)
  }

  /** `n` copies of `v`. */
  function Repeat(v: int, n: nat): (r: seq<int>)
    ensures |r| == n && forall k :: 0 <= k < n ==> r[k] == v
  {
    if n == 0 then [] else Repeat(v, n - 1) + [v]
  }

  /** A substitution adds no line break. */
  lemma SubLineNoNewline(line: string, symbol: string, value: int)
    requires '\n' !in line
    ensures '\n' !in SubLine(line, symbol, value)
  {
    if MatchWord(line, symbol).Some? {
      var (b, d) := MatchWord(line, symbol).value;
      DecimalShape(value);
      var n := IntToDecimal(value);
      assert '\n' !in n;
      var s := line[..b] + n + line[d..];
      forall k | 0 <= k < |s|
        ensures s[k] != '\n'
      {
        if k < b {
          assert s[k] == line[k];
        } else if k >= b + |n| {
          assert s[k] == line[k - b - |n| + d];
        } else {
          assert s[k] == n[k - b];
        }
      }
    }
  }

  /** A line holds a value for `label` exactly when it matches. */
  lemma WordAtMatch(line: string, symbol: string)
    ensures WordAt(line, symbol).Some? <==> MatchWord(line, symbol).Some?
  {
    if MatchWord(line, symbol).Some? {
      var (b, d) := MatchWord(line, symbol).value;
      var t := line[b..d];
      if t[0] == '-' {
        assert t == "-" + t[1..];
        ParseIntTokenOfDigits(t[1..]);
      } else {
        ParseIntTokenOfDigits(t);
      }
    }
  }

  lemma {:induction false} SubLinesSet(lines: seq<string>, symbol: string, value: int)
    ensures LineValues(SubLines(lines, symbol, value), symbol) == Repeat(value, |LineValues(lines, symbol)|)
    decreases |lines|
  {
    if |lines| > 0 {
      var n := |lines| - 1;
      SubLinesSet(lines[..n], symbol, value);
      var subbed := SubLines(lines, symbol, value);
      assert subbed[..n] == SubLines(lines[..n], symbol, value);
      WordAtMatch(lines[n], symbol);
      if MatchWord(lines[n], symbol).Some? {
        SubLineReads(lines[n], symbol, value);
      }
    }
  }

  lemma {:induction false} SubLinesKeep(lines: seq<string>, l1: string, l2: string, value: int)
    requires l1 != l2 && ':' !in l1 && ':' !in l2
    ensures LineValues(SubLines(lines, l1, value), l2) == LineValues(lines, l2)
    decreases |lines|
  {
    if |lines| > 0 {
      var n := |lines| - 1;
      SubLinesKeep(lines[..n], l1, l2, value);
      var subbed := SubLines(lines, l1, value);
      assert subbed[..n] == SubLines(lines[..n], l1, value);
      SubLineOther(lines[n], l1, l2, value);
      if MatchWord(lines[n], l1).Some? {
        OneLabelPerLine(lines[n], l1, l2);
      }
    }
  }

  /** After `inject_value`, every `.word` of the label holds the value, and there are as many as before. */
  lemma InjectSets(asm: string, symbol: string, value: int)
    ensures LabelValues(InjectValue(asm, symbol, value), symbol) == Repeat(value, |LabelValues(asm, symbol)|)
  {
    SubLinesSet(Split(asm, '\n'), symbol, value);
  }

  /** `inject_value` leaves the `.word`s of every other label as they were. */
  lemma InjectKeeps(asm: string, l1: string, l2: string, value: int)
    requires l1 != l2 && ':' !in l1 && ':' !in l2
    ensures LabelValues(InjectValue(asm, l1, value), l2) == LabelValues(asm, l2)
  {
    SubLinesKeep(Split(asm, '\n'), l1, l2, value);
  }

  lemma {:induction false} SubLinesUnmatched(lines: seq<string>, symbol: string, value: int)
    requires LineValues(lines, symbol) == []
    ensures SubLines(lines, symbol, value) == lines
    decreases |lines|
  {
    if |lines| > 0 {
      var n := |lines| - 1;
      WordAtMatch(lines[n], symbol);
      SubLinesUnmatched(lines[..n], symbol, value);
      assert lines == lines[..n] + [lines[n]];
    }
  }

  /** A template with no `.word` for the label comes back unchanged. */
  lemma InjectAbsent(asm: string, symbol: string, value: int)
    requires LabelValues(asm, symbol) == []
    ensures InjectValue(asm, symbol, value) == asm
  {
    SubLinesUnmatched(Split(asm, '\n'), symbol, value);
    JoinSplit(asm, '\n');
  }

  lemma {:induction false} SubLinesTwice(lines: seq<string>, symbol: string, v1: int, v2: int)
    ensures SubLines(SubLines(lines, symbol, v1), symbol, v2) == SubLines(lines, symbol, v2)
    decreases |lines|
  {
    if |lines| > 0 {
      var n := |lines| - 1;
      SubLinesTwice(lines[..n], symbol, v1, v2);
      var once := SubLines(lines, symbol, v1);
      assert once[..n] == SubLines(lines[..n], symbol, v1);
      SubLineTwice(lines[n], symbol, v1, v2);
    }
  }

  /** Injecting a second value into the same label overrides the first completely. */
  lemma InjectOverrides(asm: string, symbol: string, v1: int, v2: int)
    ensures InjectValue(InjectValue(asm, symbol, v1), symbol, v2) == InjectValue(asm, symbol, v2)
  {
    SubLinesTwice(Split(asm, '\n'), symbol, v1, v2);
  }

  lemma {:induction false} SubLinesCommute(lines: seq<string>, l1: string, l2: string, v1: int, v2: int)
    requires l1 != l2 && ':' !in l1 && ':' !in l2
    ensures SubLines(SubLines(lines, l1, v1), l2, v2) == SubLines(SubLines(lines, l2, v2), l1, v1)
    decreases |lines|
  {
    if |lines| > 0 {
      var n := |lines| - 1;
      SubLinesCommute(lines[..n], l1, l2, v1, v2);
      var a := SubLines(lines, l1, v1);
      var b := SubLines(lines, l2, v2);
      assert a[..n] == SubLines(lines[..n], l1, v1);
      assert b[..n] == SubLines(lines[..n], l2, v2);
      OneLabelPerLine(lines[n], l1, l2);
      SubLineOther(lines[n], l1, l2, v1);
      SubLineOther(lines[n], l2, l1, v2);
    }
  }

  /** Injections into two different labels can be made in either order. */
  lemma InjectCommutes(asm: string, l1: string, l2: string, v1: int, v2: int)
    requires l1 != l2 && ':' !in l1 && ':' !in l2
    ensures InjectValue(InjectValue(asm, l1, v1), l2, v2) == InjectValue(InjectValue(asm, l2, v2), l1, v1)
  {
    SubLinesCommute(Split(asm, '\n'), l1, l2, v1, v2);
  }

  // ---------------------------------------------------------------------
  // The heap operations
  // ---------------------------------------------------------------------

  const OperationType: string := "operation_type"
  const RequestedSize: string := "requested_size"
  const FreeAddress: string := "free_address"

  /** The operation codes the heap program dispatches on. */
  const OpAllocate: int := 0
  const OpFree: int := 1
  const OpInit: int := 2

  lemma LabelsDistinct()
    ensures ':' !in OperationType && ':' !in RequestedSize && ':' !in FreeAddress
    ensures OperationType != RequestedSize && OperationType != FreeAddress && RequestedSize != FreeAddress
  {
    assert OperationType[0] != RequestedSize[0];
    assert OperationType[0] != FreeAddress[0];
    assert RequestedSize[0] != FreeAddress[0];
  }

  /** What a prepared program's three inputs are, given the template's counts of each. */
  predicate Prepared(asm: string, template: string, op: int, size: seq<int>, address: seq<int>) {
    LabelValues(asm, OperationType) == Repeat(op, |LabelValues(template, OperationType)|)
    && LabelValues(asm, RequestedSize) == size
    && LabelValues(asm, FreeAddress) == address
  }

  /**
   * `inject_heap_allocate`: the operation becomes 0 and the requested size
   * `size`; the free address is untouched.
   */
  function InjectHeapAllocate(template: string, size: int): (r: string)
    ensures Prepared(r, template, OpAllocate,
      Repeat(size, |LabelValues(template, RequestedSize)|), LabelValues(template, FreeAddress))
  {
    LabelsDistinct();
    var once := InjectValue(template, OperationType, OpAllocate);
    InjectSets(template, OperationType, OpAllocate);
    InjectKeeps(template, OperationType, RequestedSize, OpAllocate);
    InjectKeeps(template, OperationType, FreeAddress, OpAllocate);
    InjectKeeps(once, RequestedSize, OperationType, size);
    InjectSets(once, RequestedSize, size);
    InjectKeeps(once, RequestedSize, FreeAddress, size);
    InjectValue(once, RequestedSize, size)
  }

  /**
   * `inject_heap_free`: the operation becomes 1 and the free address
   * `address`; the requested size is untouched.
   */
  function InjectHeapFree(template: string, address: int): (r: string)
    ensures Prepared(r, template, OpFree,
      LabelValues(template, RequestedSize), Repeat(address, |LabelValues(template, FreeAddress)|))
  {
    LabelsDistinct();
    var once := InjectValue(template, OperationType, OpFree);
    InjectSets(template, OperationType, OpFree);
    InjectKeeps(template, OperationType, RequestedSize, OpFree);
    InjectKeeps(template, OperationType, FreeAddress, OpFree);
    InjectKeeps(once, FreeAddress, OperationType, address);
    InjectKeeps(once, FreeAddress, RequestedSize, address);
    InjectSets(once, FreeAddress, address);
    InjectValue(once, FreeAddress, address)
  }

  /** `inject_heap_init`: only the operation is set, to 2. */
  function InjectHeapInit(template: string): (r: string)
    ensures Prepared(r, template, OpInit, LabelValues(template, RequestedSize), LabelValues(template, FreeAddress))
  {
    LabelsDistinct();
    InjectSets(template, OperationType, OpInit);
    InjectKeeps(template, OperationType, RequestedSize, OpInit);
    InjectKeeps(template, OperationType, FreeAddress, OpInit);
    InjectValue(template, OperationType, OpInit)
  }

  /**
   * `inject_heap_operation`: "allocate" needs a size, "free" needs an
   * address, "init" needs neither; anything else is an error.
   */
  function InjectHeapOperation(template: string, operation: string, size: Option<int>, address: Option<int>): (r: Result<string>)
    ensures r.Err? <==>
      (operation == "allocate" && size.None?) || (operation == "free" && address.None?)
      || (operation != "allocate" && operation != "free" && operation != "init")
    ensures r.Ok? && operation == "allocate" ==> r.value == InjectHeapAllocate(template, size.value)
    ensures r.Ok? && operation == "free" ==> r.value == InjectHeapFree(template, address.value)
    ensures r.Ok? && operation == "init" ==> r.value == InjectHeapInit(template)
  {
    if operation == "allocate" then
      if size.None? then Err("Size is required for allocate operation")
      else Ok(InjectHeapAllocate(template, size.value))
    else if operation == "free" then
      if address.None? then Err("Address is required for free operation")
      else Ok(InjectHeapFree(template, address.value))
    else if operation == "init" then Ok(InjectHeapInit(template))
    else Err("Unknown operation: " + operation)
  }
}
