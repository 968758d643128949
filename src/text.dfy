/**
 * The Python string primitives the backend relies on, written out over
 * `seq<char>`: `str.strip`, `str.split` on one character, `str.join`,
 * ASCII `str.lower`, substring tests, and the printing and parsing of
 * integers in decimal, hexadecimal and binary (`str(n)`, `int(s)`,
 * `int(s, 16)`, `f"{n:08X}"`, `format(n, "05b")`).
 */
module Text {
  import opened Wrappers

  // ---------------------------------------------------------------------
  // Characters
  // ---------------------------------------------------------------------

  /** Python's `str.isspace()`; also the characters a `\s` in a str pattern matches. */
  predicate IsSpace(c: char) {
    c == ' ' || ('\t' <= c <= '\r') || ('\U{1c}' <= c <= '\U{1f}')
    || c == '\U{85}' || c == '\U{a0}' || c == '\U{1680}'
    || ('\U{2000}' <= c <= '\U{200a}') || c == '\U{2028}' || c == '\U{2029}'
    || c == '\U{202f}' || c == '\U{205f}' || c == '\U{3000}'
  }

  predicate IsDigit(c: char) { '0' <= c <= '9' }

  predicate IsHexDigit(c: char) { IsDigit(c) || 'a' <= c <= 'f' || 'A' <= c <= 'F' }

  /** `\w` restricted to ASCII: letters, digits and underscore. */
  predicate IsWordChar(c: char) { IsDigit(c) || 'a' <= c <= 'z' || 'A' <= c <= 'Z' || c == '_' }

  function LowerChar(c: char): char {
    if 'A' <= c <= 'Z' then (c as int + 32) as char else c
  }

  /** `str.lower()` on ASCII letters; every other character is kept. */
  function Lower(s: string): (r: string)
    ensures |r| == |s|
    ensures forall i :: 0 <= i < |s| ==> r[i] == LowerChar(s[i])
  {
    if |s| == 0 then "" else [LowerChar(s[0])] + Lower(s[1..])
  }

  function UpperChar(c: char): char {
    if 'a' <= c <= 'z' then (c as int - 32) as char else c
  }

  /** `str.upper()` on ASCII letters; every other character is kept. */
  function Upper(s: string): (r: string)
    ensures |r| == |s|
    ensures forall i :: 0 <= i < |s| ==> r[i] == UpperChar(s[i])
  {
    if |s| == 0 then "" else [UpperChar(s[0])] + Upper(s[1..])
  }

  // ---------------------------------------------------------------------
  // Substrings
  // ---------------------------------------------------------------------

  predicate StartsWith(s: string, prefix: string) {
    |prefix| <= |s| && s[..|prefix|] == prefix
  }

  predicate EndsWith(s: string, suffix: string) {
    |suffix| <= |s| && s[|s| - |suffix|..] == suffix
  }

  /** Python's `sub in s`. */
  predicate Contains(s: string, sub: string)
    decreases |s|
  {
    StartsWith(s, sub) || (|s| > 0 && Contains(s[1..], sub))
  }

  lemma {:induction false} ContainsAt(s: string, sub: string, i: nat)
    requires i + |sub| <= |s| && s[i..i + |sub|] == sub
    ensures Contains(s, sub)
    decreases i
  {
    if i > 0 {
      assert s[1..][i - 1..i - 1 + |sub|] == sub;
      ContainsAt(s[1..], sub, i - 1);
    }
  }

  lemma {:induction false} ContainsWitness(s: string, sub: string) returns (i: nat)
    requires Contains(s, sub)
    ensures i + |sub| <= |s| && s[i..i + |sub|] == sub
    decreases |s|
  {
    if StartsWith(s, sub) {
      i := 0;
    } else {
      var j := ContainsWitness(s[1..], sub);
      i := j + 1;
      assert s[i..i + |sub|] == s[1..][j..j + |sub|];
    }
  }

  lemma ContainsChar(s: string, c: char)
    ensures Contains(s, [c]) <==> c in s
  {
    if c in s {
      var i :| 0 <= i < |s| && s[i] == c;
      assert s[i..i + 1] == [c];
      ContainsAt(s, [c], i);
    }
    if Contains(s, [c]) {
      var i := ContainsWitness(s, [c]);
      assert s[i] == s[i..i + 1][0];
    }
  }

  // ---------------------------------------------------------------------
  // strip
  // ---------------------------------------------------------------------

  function LStrip(s: string): (r: string)
    ensures |r| <= |s| && r == s[|s| - |r|..]
    ensures |r| == 0 || !IsSpace(r[0])
    ensures forall i :: 0 <= i < |s| - |r| ==> IsSpace(s[i])
  {
    if |s| > 0 && IsSpace(s[0]) then
      var t := s[1..];
      var r := LStrip(t);
      assert t[|t| - |r|..] == s[|s| - |r|..];
      r
    else s
  }

  function RStrip(s: string): (r: string)
    ensures |r| <= |s| && r == s[..|r|]
    ensures |r| == 0 || !IsSpace(r[|r| - 1])
    ensures forall i :: |r| <= i < |s| ==> IsSpace(s[i])
  {
    if |s| > 0 && IsSpace(s[|s| - 1]) then RStrip(s[..|s| - 1]) else s
  }

  /** Python's `str.strip()`: drop leading and trailing whitespace. */
  function Strip(s: string): (r: string)
    ensures |r| == 0 || (!IsSpace(r[0]) && !IsSpace(r[|r| - 1]))
  {
    RStrip(LStrip(s))
  }

  /** Lower-casing keeps a string without upper-case ASCII letters as it is. */
  lemma LowerIdentity(s: string)
    requires forall i :: 0 <= i < |s| ==> !('A' <= s[i] <= 'Z')
    ensures Lower(s) == s
  {
    assert forall i :: 0 <= i < |s| ==> Lower(s)[i] == s[i];
  }

  /** Stripping keeps a character out of a string that does not hold it. */
  lemma StripKeepsOut(s: string, c: char)
    requires c !in s
    ensures c !in Strip(s)
  {
    var l := LStrip(s);
    var r := RStrip(l);
    assert forall i :: 0 <= i < |r| ==> r[i] == s[|s| - |l| + i];
  }

  /** A lower-cased strip is its own strip. */
  lemma LowerStripped(s: string)
    ensures Strip(Lower(Strip(s))) == Lower(Strip(s))
  {
    LowerKeepsSpace(Strip(s));
    StripIdentity(Lower(Strip(s)));
  }

  /** A string without `c` is all of its text before the first `c`. */
  lemma FirstIndexAbsent(s: string, c: char)
    requires c !in s
    ensures s[..FirstIndex(s, c)] == s
  {
  }

  /** A string that starts and ends with non-space characters is its own strip. */
  /** Lower-casing never turns a character into whitespace or out of it. */
  lemma LowerKeepsSpace(s: string)
    ensures forall i :: 0 <= i < |s| ==> (IsSpace(Lower(s)[i]) <==> IsSpace(s[i]))
  {
  }

  lemma StripIdentity(s: string)
    requires |s| == 0 || (!IsSpace(s[0]) && !IsSpace(s[|s| - 1]))
    ensures Strip(s) == s
  {
  }

  /** Stripping removes only whitespace: the strip of an all-space string is empty. */
  lemma StripAllSpace(s: string)
    requires forall i :: 0 <= i < |s| ==> IsSpace(s[i])
    ensures Strip(s) == ""
  {
    var l := LStrip(s);
    assert |l| == 0;
  }

  /** A blank string (`not s.strip()`) is one made of whitespace only. */
  predicate IsBlank(s: string) {
    Strip(s) == ""
  }

  // ---------------------------------------------------------------------
  // Runs of one character class (the building blocks of the patterns matched by hand)
  // ---------------------------------------------------------------------

  /** The end of the run of whitespace (the `\s` class) that starts at position `i` of `s`. */
  function SpacesFrom(s: string, i: nat): (j: nat)
    requires i <= |s|
    ensures i <= j <= |s| && (j == |s| || !IsSpace(s[j]))
    ensures forall k :: i <= k < j ==> IsSpace(s[k])
    decreases |s| - i
  {
    if i < |s| && IsSpace(s[i]) then SpacesFrom(s, i + 1) else i
  }

  /** The end of the run of ASCII digits that starts at position `i` of `s`. */
  function DigitsFrom(s: string, i: nat): (j: nat)
    requires i <= |s|
    ensures i <= j <= |s| && (j == |s| || !IsDigit(s[j]))
    ensures forall k :: i <= k < j ==> IsDigit(s[k])
    decreases |s| - i
  {
    if i < |s| && IsDigit(s[i]) then DigitsFrom(s, i + 1) else i
  }

  /** The end of the run of word characters (the `\w` class, ASCII only) that starts at position `i` of `s`. */
  function WordsFrom(s: string, i: nat): (j: nat)
    requires i <= |s|
    ensures i <= j <= |s| && (j == |s| || !IsWordChar(s[j]))
    ensures forall k :: i <= k < j ==> IsWordChar(s[k])
    decreases |s| - i
  {
    if i < |s| && IsWordChar(s[i]) then WordsFrom(s, i + 1) else i
  }

  /** A run is determined by where it ends: spaces up to `j`, then a non-space. */
  lemma {:induction false} SpacesFromExact(s: string, i: nat, j: nat)
    requires i <= j <= |s| && (j == |s| || !IsSpace(s[j]))
    requires forall k :: i <= k < j ==> IsSpace(s[k])
    ensures SpacesFrom(s, i) == j
    decreases j - i
  {
    if i < j {
      SpacesFromExact(s, i + 1, j);
    }
  }

  lemma {:induction false} DigitsFromExact(s: string, i: nat, j: nat)
    requires i <= j <= |s| && (j == |s| || !IsDigit(s[j]))
    requires forall k :: i <= k < j ==> IsDigit(s[k])
    ensures DigitsFrom(s, i) == j
    decreases j - i
  {
    if i < j {
      DigitsFromExact(s, i + 1, j);
    }
  }

  lemma {:induction false} WordsFromExact(s: string, i: nat, j: nat)
    requires i <= j <= |s| && (j == |s| || !IsWordChar(s[j]))
    requires forall k :: i <= k < j ==> IsWordChar(s[k])
    ensures WordsFrom(s, i) == j
    decreases j - i
  {
    if i < j {
      WordsFromExact(s, i + 1, j);
    }
  }

  /** The end of the run of hexadecimal digits that starts at position `i` of `s`. */
  function HexDigitsFrom(s: string, i: nat): (j: nat)
    requires i <= |s|
    ensures i <= j <= |s| && (j == |s| || !IsHexDigit(s[j]))
    ensures AllHexDigits(s[i .. j])
    decreases |s| - i
  {
    if i < |s| && IsHexDigit(s[i]) then
      var j := HexDigitsFrom(s, i + 1);
      assert s[i..j] == [s[i]] + s[i + 1..j];
      j
    else i
  }

  lemma {:induction false} HexDigitsFromExact(s: string, i: nat, j: nat)
    requires i <= j <= |s| && (j == |s| || !IsHexDigit(s[j]))
    requires forall k :: i <= k < j ==> IsHexDigit(s[k])
    ensures HexDigitsFrom(s, i) == j
    decreases j - i
  {
    if i < j {
      HexDigitsFromExact(s, i + 1, j);
    }
  }

  /** `s` holds `lit` from position `i` on. */
  predicate LiteralAt(s: string, i: nat, lit: string) {
    i + |lit| <= |s| && forall k :: 0 <= k < |lit| ==> s[i + k] == lit[k]
  }

  /** Length of the run of ASCII digits at the start of `s`. */
  function DigitRun(s: string): (n: nat)
    ensures n <= |s| && AllDigits(s[0 .. n]) && (n == |s| || !IsDigit(s[n]))
  {
    if |s| > 0 && IsDigit(s[0]) then
      var n := 1 + DigitRun(s[1..]);
      assert s[..n] == [s[0]] + s[1..][..n - 1];
      n
    else 0
  }

  /** Length of the run of word characters at the start of `s`. */
  function WordRun(s: string): (n: nat)
    ensures n <= |s| && (forall i :: 0 <= i < n ==> IsWordChar(s[i])) && (n == |s| || !IsWordChar(s[n]))
  {
    if |s| > 0 && IsWordChar(s[0]) then 1 + WordRun(s[1..]) else 0
  }

  // ---------------------------------------------------------------------
  // split and join
  // ---------------------------------------------------------------------

  /** Python's `s.split(sep)` for a one-character separator: always at least one piece. */
  function Split(s: string, sep: char): (r: seq<string>)
    ensures |r| >= 1
    ensures forall k :: 0 <= k < |r| ==> sep !in r[k]
  {
    if |s| == 0 then [""]
    else
      var rest := Split(s[1..], sep);
      if s[0] == sep then [""] + rest
      else [[s[0]] + rest[0]] + rest[1..]
  }

  /** The position of the first `c` in `s`, or `|s|` when there is none. */
  function FirstIndex(s: string, c: char): (i: nat)
    ensures i <= |s| && c !in s[0 .. i]
    ensures i < |s| ==> s[i] == c
  {
    if |s| == 0 || s[0] == c then 0 else 1 + FirstIndex(s[1..], c)
  }

  /** The first piece of a split is the text before the first separator. */
  lemma {:induction false} SplitHead(s: string, sep: char)
    ensures Split(s, sep)[0] == s[..FirstIndex(s, sep)]
  {
    if |s| > 0 && s[0] != sep {
      SplitHead(s[1..], sep);
    }
  }

  /** Python's `sep.join(parts)`. */
  function Join(parts: seq<string>, sep: string): string {
    if |parts| == 0 then ""
    else if |parts| == 1 then parts[0]
    else parts[0] + sep + Join(parts[1..], sep)
  }

  lemma {:induction false} SplitPrefix(a: string, t: string, sep: char)
    requires sep !in a
    ensures Split(a + t, sep) == [a + Split(t, sep)[0]] + Split(t, sep)[1..]
    decreases |a|
  {
    if |a| > 0 {
      assert (a + t)[1..] == a[1..] + t;
      SplitPrefix(a[1..], t, sep);
      assert [a[0]] + (a[1..] + Split(t, sep)[0]) == a + Split(t, sep)[0];
    } else {
      var st := Split(t, sep);
      assert a + t == t;
      assert a + st[0] == st[0];
      assert [st[0]] + st[1..] == st;
    }
  }

  /** Splitting what was joined with the same separator gives back the parts. */
  lemma {:induction false} SplitJoin(parts: seq<string>, sep: char)
    requires |parts| >= 1
    requires forall k :: 0 <= k < |parts| ==> sep !in parts[k]
    ensures Split(Join(parts, [sep]), sep) == parts
    decreases |parts|
  {
    if |parts| == 1 {
      SplitPrefix(parts[0], "", sep);
      assert Split("", sep) == [""];
      assert parts[0] + "" == parts[0];
      assert Join(parts, [sep]) == parts[0] + "";
    } else {
      var rest := Join(parts[1..], [sep]);
      SplitJoin(parts[1..], sep);
      assert Join(parts, [sep]) == parts[0] + ([sep] + rest);
      assert ([sep] + rest)[1..] == rest;
      assert Split([sep] + rest, sep) == [""] + parts[1..];
      SplitPrefix(parts[0], [sep] + rest, sep);
      assert parts[0] + "" == parts[0];
      assert [parts[0]] + parts[1..] == parts;
    }
  }

  /** Joining the pieces of a split with the separator gives back the string. */
  lemma {:induction false} JoinSplit(s: string, sep: char)
    ensures Join(Split(s, sep), [sep]) == s
    decreases |s|
  {
    if |s| > 0 {
      JoinSplit(s[1..], sep);
      var rest := Split(s[1..], sep);
      if s[0] != sep {
        if |rest| == 1 {
        } else {
          assert Join(rest, [sep]) == rest[0] + [sep] + Join(rest[1..], [sep]);
          assert [[s[0]] + rest[0]] + rest[1..] == [[s[0]] + rest[0]] + rest[1..];
          assert ([[s[0]] + rest[0]] + rest[1..])[1..] == rest[1..];
        }
        assert s == [s[0]] + s[1..];
      } else {
        assert ([""] + rest)[1..] == rest;
        assert s == [sep] + s[1..];
      }
    }
  }

  /** The lines a Python loop `for line in text.strip().split("\n")` walks over. */
  function StrippedLines(text: string): (r: seq<string>)
    ensures |r| >= 1
  {
    Split(Strip(text), '\n')
  }

  // ---------------------------------------------------------------------
  // Powers
  // ---------------------------------------------------------------------

  function Pow2(k: nat): (r: nat)
    ensures r >= 1
  {
    if k == 0 then 1 else 2 * Pow2(k - 1)
  }

  function Pow16(k: nat): (r: nat)
    ensures r >= 1
  {
    if k == 0 then 1 else 16 * Pow16(k - 1)
  }

  // ---------------------------------------------------------------------
  // Decimal
  // ---------------------------------------------------------------------

  function DigitValue(c: char): nat
    requires IsDigit(c)
  {
    c as int - '0' as int
  }

  function DigitChar(d: nat): (c: char)
    requires d < 10
    ensures IsDigit(c) && DigitValue(c) == d
  {
    ('0' as int + d) as char
  }

  predicate AllDigits(s: string) {
    forall i :: 0 <= i < |s| ==> IsDigit(s[i])
  }

  /** The value of a run of decimal digits, most significant first. */
  function DigitsValue(s: string): nat
    requires AllDigits(s)
  {
    if |s| == 0 then 0 else DigitsValue(s[..|s| - 1]) * 10 + DigitValue(s[|s| - 1])
  }

  /** Python's `str(n)` for a non-negative integer. */
  function NatToDecimal(n: nat): (r: string)
    ensures |r| >= 1 && AllDigits(r)
  {
    if n < 10 then [DigitChar(n)] else NatToDecimal(n / 10) + [DigitChar(n % 10)]
  }

  lemma {:induction false} DecimalRoundTrip(n: nat)
    ensures DigitsValue(NatToDecimal(n)) == n
  {
    if n >= 10 {
      DecimalRoundTrip(n / 10);
      var r := NatToDecimal(n);
      assert r[..|r| - 1] == NatToDecimal(n / 10);
    }
  }

  /** Python's `str(i)` for any integer. */
  function IntToDecimal(i: int): (r: string)
    ensures |r| >= 1
  {
    if i < 0 then "-" + NatToDecimal(-i) else NatToDecimal(i)
  }

  /** An optional `-` followed by one or more decimal digits: the text the pattern `-?\d+` matches whole. */
  predicate SignedDigits(s: string) {
    |s| >= 1 && if s[0] == '-' then |s| >= 2 && AllDigits(s[1..]) else AllDigits(s)
  }

  /** `str(i)` is signed digits: it ends with a digit and holds no whitespace. */
  lemma DecimalShape(i: int)
    ensures var d := IntToDecimal(i); SignedDigits(d) && IsDigit(d[|d| - 1])
    ensures forall k :: 0 <= k < |IntToDecimal(i)| ==> IntToDecimal(i)[k] == '-' || IsDigit(IntToDecimal(i)[k])
  {
    var m := NatToDecimal(if i < 0 then -i else i);
    assert IsDigit(m[|m| - 1]);
    if i < 0 {
      var d := "-" + m;
      assert IntToDecimal(i) == d;
      assert d[1..] == m;
      assert forall k :: 1 <= k < |d| ==> d[k] == m[k - 1];
    }
  }

  /** Python's `int(s)`: optional surrounding whitespace, an optional sign, then decimal digits. */
  function ParseInt(s: string): (r: Option<int>)
    ensures r.Some? ==> |Strip(s)| >= 1
  {
    ParseIntToken(Strip(s))
  }

  /** `int(t)` for a string with no surrounding whitespace. */
  function ParseIntToken(t: string): (r: Option<int>)
    ensures r.Some? ==> |t| >= 1
  {
    if |t| >= 1 && (t[0] == '-' || t[0] == '+') then
      var body := t[1..];
      if |body| >= 1 && AllDigits(body) then
        var v: int := DigitsValue(body);
        Some(if t[0] == '-' then -v else v)
      else None
    else if |t| >= 1 && AllDigits(t) then Some(DigitsValue(t))
    else None
  }

  /** `str(i)` has no surrounding whitespace. */
  lemma StripDecimal(i: int)
    ensures Strip(IntToDecimal(i)) == IntToDecimal(i)
  {
    var t := IntToDecimal(i);
    var d := NatToDecimal(if i < 0 then -i else i);
    assert t[|t| - 1] == d[|d| - 1];
    assert IsDigit(d[|d| - 1]);
    assert t[0] == '-' || t[0] == d[0];
    StripIdentity(t);
  }

  /** `int(str(i)) == i`. */
  lemma ParseIntDecimal(i: int)
    ensures ParseInt(IntToDecimal(i)) == Some(i)
  {
    if i < 0 {
      var t := NatToDecimal(-i);
      assert DigitsValue(t) == -i by { DecimalRoundTrip(-i); }
      assert IntToDecimal(i) == "-" + t;
      ParseIntOfDigits(t);
    } else {
      var t := NatToDecimal(i);
      assert DigitsValue(t) == i by { DecimalRoundTrip(i); }
      ParseIntOfDigits(t);
    }
  }

  lemma ParseIntTokenOfDigits(t: string)
    requires |t| >= 1 && AllDigits(t)
    ensures ParseIntToken(t) == Some(DigitsValue(t))
    ensures ParseIntToken("-" + t) == Some(-(DigitsValue(t) as int))
  {
    var m := "-" + t;
    assert m[0] == '-';
    assert m[1..] == t;
  }

  lemma ParseIntOfDigits(t: string)
    requires |t| >= 1 && AllDigits(t)
    ensures ParseInt(t) == Some(DigitsValue(t))
    ensures ParseInt("-" + t) == Some(-(DigitsValue(t) as int))
  {
    ParseIntTokenOfDigits(t);
    assert IsDigit(t[0]) && IsDigit(t[|t| - 1]);
    StripIdentity(t);
    var m := "-" + t;
    assert m[|m| - 1] == t[|t| - 1];
    StripIdentity(m);
  }

  // ---------------------------------------------------------------------
  // Hexadecimal
  // ---------------------------------------------------------------------

  function HexDigitValue(c: char): (d: nat)
    requires IsHexDigit(c)
    ensures d < 16
  {
    if IsDigit(c) then DigitValue(c)
    else if 'a' <= c <= 'f' then c as int - 'a' as int + 10
    else c as int - 'A' as int + 10
  }

  function HexChar(d: nat, upper: bool): (c: char)
    requires d < 16
    ensures IsHexDigit(c) && HexDigitValue(c) == d
  {
    if d < 10 then DigitChar(d)
    else if upper then ('A' as int + d - 10) as char
    else ('a' as int + d - 10) as char
  }

  predicate AllHexDigits(s: string) {
    forall i :: 0 <= i < |s| ==> IsHexDigit(s[i])
  }

  function HexDigitsValue(s: string): nat
    requires AllHexDigits(s)
  {
    if |s| == 0 then 0 else HexDigitsValue(s[..|s| - 1]) * 16 + HexDigitValue(s[|s| - 1])
  }

  /** The shortest hexadecimal spelling of `n` (Python's `f"{n:x}"` / `f"{n:X}"`). */
  function NatToHex(n: nat, upper: bool): (r: string)
    ensures |r| >= 1 && AllHexDigits(r)
  {
    if n < 16 then [HexChar(n, upper)] else NatToHex(n / 16, upper) + [HexChar(n % 16, upper)]
  }

  function Zeros(k: nat): (r: string)
    ensures |r| == k && AllDigits(r) && AllHexDigits(r)
    ensures forall i :: 0 <= i < k ==> r[i] == '0'
  {
    if k == 0 then "" else "0" + Zeros(k - 1)
  }

  /** Left-pad with zeros to at least `width` characters, as the `0<width>` format spec does. */
  function ZeroPad(s: string, width: nat): (r: string)
    ensures |r| == if |s| >= width then |s| else width
  {
    if |s| >= width then s else Zeros(width - |s|) + s
  }

  /** Python's `f"{n:0<width>X}"` (upper) or `f"{n:0<width>x}"` for `n >= 0`. */
  function FormatHex(n: nat, width: nat, upper: bool): string {
    ZeroPad(NatToHex(n, upper), width)
  }

  /** The formatted text is made of hex digits only. */
  lemma FormatHexDigits(n: nat, width: nat, upper: bool)
    ensures AllHexDigits(FormatHex(n, width, upper))
  {
    var s := NatToHex(n, upper);
    if |s| < width {
      var z := Zeros(width - |s|);
      assert forall i :: 0 <= i < |z + s| ==> (z + s)[i] == if i < |z| then z[i] else s[i - |z|];
    }
  }

  lemma {:induction false} HexValueOfShort(n: nat, upper: bool)
    ensures HexDigitsValue(NatToHex(n, upper)) == n
  {
    if n >= 16 {
      HexValueOfShort(n / 16, upper);
      var r := NatToHex(n, upper);
      assert r[..|r| - 1] == NatToHex(n / 16, upper);
    }
  }

  lemma {:induction false} HexValueLeadingZero(s: string)
    requires AllHexDigits(s)
    ensures AllHexDigits("0" + s) && HexDigitsValue("0" + s) == HexDigitsValue(s)
    decreases |s|
  {
    if |s| > 0 {
      var t := "0" + s;
      assert t[..|t| - 1] == "0" + s[..|s| - 1];
      HexValueLeadingZero(s[..|s| - 1]);
    }
  }

  lemma {:induction false} HexValueZeros(k: nat, s: string)
    requires AllHexDigits(s)
    ensures AllHexDigits(Zeros(k) + s) && HexDigitsValue(Zeros(k) + s) == HexDigitsValue(s)
    decreases k
  {
    if k > 0 {
      HexValueZeros(k - 1, s);
      assert Zeros(k) + s == "0" + (Zeros(k - 1) + s);
      HexValueLeadingZero(Zeros(k - 1) + s);
    } else {
      assert Zeros(k) + s == s;
    }
  }

  /** The digits `FormatHex` prints spell `n`. */
  lemma FormatHexValue(n: nat, width: nat, upper: bool)
    ensures HexDigitsValue(FormatHex(n, width, upper)) == n
  {
    HexValueOfShort(n, upper);
    var h := NatToHex(n, upper);
    if |h| < width {
      HexValueZeros(width - |h|, h);
    }
  }

  lemma {:induction false} NatToHexLength(n: nat, width: nat, upper: bool)
    requires width >= 1 && n < Pow16(width)
    ensures |NatToHex(n, upper)| <= width
    decreases width
  {
    if n >= 16 {
      NatToHexLength(n / 16, width - 1, upper);
    }
  }

  /** A value below `16^width` is printed with exactly `width` digits. */
  lemma FormatHexLength(n: nat, width: nat, upper: bool)
    requires width >= 1 && n < Pow16(width)
    ensures |FormatHex(n, width, upper)| == width
  {
    NatToHexLength(n, width, upper);
  }

  /**
   * Python's `int(s, 16)`: optional surrounding whitespace, an optional sign, an optional
   * `0x`/`0X` prefix, then hexadecimal digits.
   */
  function ParseHex(s: string): Option<int> {
    ParseHexToken(Strip(s))
  }

  /** `int(t, 16)` for a string with no surrounding whitespace. */
  function ParseHexToken(t: string): Option<int> {
    var neg := |t| >= 1 && t[0] == '-';
    var unsigned := if |t| >= 1 && (t[0] == '-' || t[0] == '+') then t[1..] else t;
    var digits := if StartsWith(unsigned, "0x") || StartsWith(unsigned, "0X") then unsigned[2..] else unsigned;
    if |digits| >= 1 && AllHexDigits(digits) then
      var v: int := HexDigitsValue(digits);
      Some(if neg then -v else v)
    else None
  }

  /** `int("0x" + f"{n:08x}", 16) == n`, and the same without the prefix. */
  lemma ParseHexFormatted(n: nat, width: nat, upper: bool, prefixed: bool)
    ensures ParseHex((if prefixed then "0x" else "") + FormatHex(n, width, upper)) == Some(n)
  {
    var h := FormatHex(n, width, upper);
    assert HexDigitsValue(h) == n by { FormatHexValue(n, width, upper); }
    assert (if prefixed then "0x" else "") + h == if prefixed then "0x" + h else h;
    ParseHexOfDigits(h);
  }

  lemma ParseHexTokenOfDigits(h: string)
    requires |h| >= 1 && AllHexDigits(h)
    ensures ParseHexToken(h) == Some(HexDigitsValue(h))
    ensures ParseHexToken("0x" + h) == Some(HexDigitsValue(h))
  {
    ParseHexTokenPlain(h);
    ParseHexTokenPrefixed(h);
  }

  lemma ParseHexTokenPlain(h: string)
    requires |h| >= 1 && AllHexDigits(h)
    ensures ParseHexToken(h) == Some(HexDigitsValue(h))
  {
    assert h[0] != '-' && h[0] != '+';
    assert !StartsWith(h, "0x") && !StartsWith(h, "0X") by {
      if |h| >= 2 { assert IsHexDigit(h[1]); assert h[..2][1] == h[1]; }
    }
  }

  lemma ParseHexTokenPrefixed(h: string)
    requires |h| >= 1 && AllHexDigits(h)
    ensures ParseHexToken("0x" + h) == Some(HexDigitsValue(h))
  {
    var p := "0x" + h;
    assert p[0] == '0';
    assert p[..2] == "0x";
    assert p[2..] == h;
  }

  lemma HexDigitNotSpace(c: char)
    requires IsHexDigit(c)
    ensures !IsSpace(c)
  {
  }

  lemma ParseHexOfDigits(h: string)
    requires |h| >= 1 && AllHexDigits(h)
    ensures ParseHex(h) == Some(HexDigitsValue(h))
    ensures ParseHex("0x" + h) == Some(HexDigitsValue(h))
  {
    var p := "0x" + h;
    assert Strip(h) == h by {
      HexDigitNotSpace(h[0]);
      HexDigitNotSpace(h[|h| - 1]);
      StripIdentity(h);
    }
    assert Strip(p) == p by {
      HexDigitNotSpace(h[|h| - 1]);
      assert p[|p| - 1] == h[|h| - 1];
      StripIdentity(p);
    }
    ParseHexTokenOfDigits(h);
  }

  // ---------------------------------------------------------------------
  // Binary
  // ---------------------------------------------------------------------

  predicate IsBit(c: char) { c == '0' || c == '1' }

  predicate AllBits(s: string) {
    forall i :: 0 <= i < |s| ==> IsBit(s[i])
  }

  function BitsValue(s: string): nat
    requires AllBits(s)
  {
    if |s| == 0 then 0 else BitsValue(s[..|s| - 1]) * 2 + (if s[|s| - 1] == '1' then 1 else 0)
  }

  /** The shortest binary spelling of `n` (Python's `format(n, "b")`). */
  function NatToBinary(n: nat): (r: string)
    ensures |r| >= 1 && AllBits(r)
  {
    if n < 2 then (if n == 0 then "0" else "1") else NatToBinary(n / 2) + (if n % 2 == 0 then "0" else "1")
  }

  lemma {:induction false} BinaryValueOfShort(n: nat)
    ensures BitsValue(NatToBinary(n)) == n
  {
    if n >= 2 {
      BinaryValueOfShort(n / 2);
      var r := NatToBinary(n);
      assert r[..|r| - 1] == NatToBinary(n / 2);
    }
  }

  lemma {:induction false} NatToBinaryLength(n: nat, width: nat)
    requires width >= 1 && n < Pow2(width)
    ensures |NatToBinary(n)| <= width
    decreases width
  {
    if n >= 2 {
      NatToBinaryLength(n / 2, width - 1);
    }
  }

  lemma {:induction false} BitsValueZeros(k: nat, s: string)
    requires AllBits(s)
    ensures AllBits(Zeros(k) + s) && BitsValue(Zeros(k) + s) == BitsValue(s)
    decreases k, |s|
  {
    if k > 0 {
      BitsValueZeros(k - 1, s);
      var t := Zeros(k - 1) + s;
      assert Zeros(k) + s == "0" + t;
      BitsValueLeadingZero(t);
    } else {
      assert Zeros(k) + s == s;
    }
  }

  lemma {:induction false} BitsValueLeadingZero(s: string)
    requires AllBits(s)
    ensures AllBits("0" + s) && BitsValue("0" + s) == BitsValue(s)
    decreases |s|
  {
    if |s| > 0 {
      var t := "0" + s;
      assert t[..|t| - 1] == "0" + s[..|s| - 1];
      BitsValueLeadingZero(s[..|s| - 1]);
    }
  }
}
