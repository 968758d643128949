/**
 * The assembler-style instruction decoder: one line of MIPS assembly is
 * turned into its R-, I- or J-type machine word, the word's fields and
 * their binary and hexadecimal spellings.
 */
module InstructionDecoder {
  import opened Wrappers
  import opened Text
  import opened Bits
  import opened Schemas

  datatype InstructionFormat = RType | IType | JType

  /** A named field of the word: its value and its binary spelling. */
  type Field = (string, (nat, string))

  datatype DecodedInstruction = DecodedInstruction(
    original: string,
    format: InstructionFormat,
    opcode: nat,
    opcodeBin: string,
    fields: seq<Field>,
    machineCode: nat,
    machineCodeHex: string,
    machineCodeBin: string,
    description: string)

  // ---------------------------------------------------------------------
  // Tables
  // ---------------------------------------------------------------------

  /**
   * `REGISTERS.get(name, 0)`: `REGISTERS` numbers the canonical names in
   * `MipsRegisters` in order and adds `$0` as another name of `$zero`; any
   * other name is 0.
   */
  function RegisterTable(name: string): (n: nat)
    ensures n < 32
  {
    if name == "$0" then 0 else RegisterIndex(name).GetOr(0)
  }

  /** `R_TYPE_FUNCT`: each R-type mnemonic with its function code. */
  const RTypeFuncts: seq<(string, nat)> := [
    ("add", 0x20), ("addu", 0x21), ("sub", 0x22), ("subu", 0x23), ("and", 0x24),
    ("or", 0x25), ("xor", 0x26), ("nor", 0x27), ("slt", 0x2A), ("sltu", 0x2B),
    ("sll", 0x00), ("srl", 0x02), ("sra", 0x03), ("sllv", 0x04), ("srlv", 0x06),
    ("srav", 0x07), ("jr", 0x08), ("jalr", 0x09), ("mult", 0x18), ("multu", 0x19),
    ("div", 0x1A), ("divu", 0x1B), ("mfhi", 0x10), ("mflo", 0x12), ("mthi", 0x11),
    ("mtlo", 0x13)
  ]

  /** `I_TYPE_OPCODE`: each I-type mnemonic with its opcode. */
  const ITypeOpcodes: seq<(string, nat)> := [
    ("addi", 0x08), ("addiu", 0x09), ("andi", 0x0C), ("ori", 0x0D), ("xori", 0x0E),
    ("slti", 0x0A), ("sltiu", 0x0B), ("lui", 0x0F), ("lw", 0x23), ("lh", 0x21),
    ("lhu", 0x25), ("lb", 0x20), ("lbu", 0x24), ("sw", 0x2B), ("sh", 0x29),
    ("sb", 0x28), ("beq", 0x04), ("bne", 0x05), ("blez", 0x06), ("bgtz", 0x07)
  ]

  /** `J_TYPE_OPCODE`: each J-type mnemonic with its opcode. */
  const JTypeOpcodes: seq<(string, nat)> := [
    ("j", 0x02), ("jal", 0x03)
  ]

  /** `table.get(key)` for a table with one entry per key: the value of `key`, if it has one. */
  function Find(table: seq<(string, nat)>, key: string): (r: Option<nat>)
    ensures r.Some? ==> exists k :: 0 <= k < |table| && table[k] == (key, r.value)
  {
    if |table| == 0 then None
    else if table[0].0 == key then Some(table[0].1)
    else Find(table[1..], key)
  }

  /** Every value of `table` lies in `lo..hi - 1`. */
  predicate ValuesIn(table: seq<(string, nat)>, lo: nat, hi: nat) {
    forall k :: 0 <= k < |table| ==> lo <= table[k].1 < hi
  }

  /** The function code of an R-type mnemonic. */
  function RTypeFunct(mnemonic: string): (r: Option<nat>)
    ensures r.Some? ==> r.value < 64
  {
    assert ValuesIn(RTypeFuncts, 0, 64);
    Find(RTypeFuncts, mnemonic)
  }

  /** The opcode of an I-type mnemonic. */
  function ITypeOpcode(mnemonic: string): (r: Option<nat>)
    ensures r.Some? ==> 0 < r.value < 64
  {
    assert ValuesIn(ITypeOpcodes, 1, 64);
    Find(ITypeOpcodes, mnemonic)
  }

  /** The opcode of a J-type mnemonic. */
  function JTypeOpcode(mnemonic: string): (r: Option<nat>)
    ensures r.Some? ==> 0 < r.value < 64
  {
    assert ValuesIn(JTypeOpcodes, 1, 64);
    Find(JTypeOpcodes, mnemonic)
  }

  // ---------------------------------------------------------------------
  // Operand helpers
  // ---------------------------------------------------------------------

  /** `_get_register_number`: strip and lower-case the name, then look it up. */
  function RegisterNumber(name: string): (n: nat)
    ensures n < 32
  {
    RegisterTable(Lower(Strip(name)))
  }

  /** A name that is already stripped and lower-case is looked up as written. */
  lemma RegisterNumberPlain(name: string)
    requires |name| >= 1 && !IsSpace(name[0]) && !IsSpace(name[|name| - 1])
    requires forall i :: 0 <= i < |name| ==> !('A' <= name[i] <= 'Z')
    ensures RegisterNumber(name) == RegisterTable(name)
  {
    StripIdentity(name);
    LowerIdentity(name);
  }

  /** The table numbers the canonical register names in order. */
  lemma RegisterTableNames(i: nat)
    requires i < 32
    ensures RegisterTable(MipsRegisters[i]) == i
  {
    MipsRegistersDistinct();
    var name := MipsRegisters[i];
    assert name != "$0" by { assert name[1] != '0'; }
    var j := RegisterIndex(name).value;
    assert MipsRegisters[j] == MipsRegisters[i];
  }

  /** Canonical register names are plain: `$` and then lower-case letters and digits. */
  lemma RegisterNamesPlain(i: nat)
    requires i < 32
    ensures var n := MipsRegisters[i];
      |n| >= 2 && n[0] == '$' && forall k :: 1 <= k < |n| ==> IsWordChar(n[k]) && !('A' <= n[k] <= 'Z')
  {
  }

  /** Every canonical register name decodes to its own number. */
  lemma RegisterNumbers(i: nat)
    requires i < 32
    ensures RegisterNumber(MipsRegisters[i]) == i
  {
    var n := MipsRegisters[i];
    RegisterNamesPlain(i);
    RegisterNumberPlain(n);
    RegisterTableNames(i);
  }

  /** `$0` is another name of `$zero`. */
  lemma ZeroAliases()
    ensures RegisterNumber("$0") == 0 && RegisterNumber("$zero") == 0
  {
    RegisterNumberPlain("$0");
    RegisterNumberPlain("$zero");
  }

  /** `_parse_immediate`: hexadecimal after a `0x` prefix, decimal otherwise, 0 when unparsable. */
  function ParseImmediate(value: string): int {
    var v := Strip(value);
    if StartsWith(v, "0x") then ParseHex(v).GetOr(0) else ParseInt(v).GetOr(0)
  }

  /** `_to_binary(value, bits)`: the low `bits` bits of `value`, zero-padded to `bits` digits. */
  function ToBinary(value: int, bits: nat): (r: string)
    ensures AllBits(r)
  {
    ZeroPad(NatToBinary(Low(value, bits)), bits)
  }

  /** A separator of `re.split(r"[,\s]+", ...)`. */
  predicate IsOperandSeparator(c: char) {
    c == ',' || IsSpace(c)
  }

  /** Drop a leading run of separators. */
  function DropSeparators(s: string): (r: string)
    ensures |r| <= |s| && r == s[|s| - |r|..]
    ensures forall i :: 0 <= i < |s| - |r| ==> IsOperandSeparator(s[i])
    ensures |r| == 0 || !IsOperandSeparator(r[0])
  {
    if |s| > 0 && IsOperandSeparator(s[0]) then DropSeparators(s[1..]) else s
  }

  /** A piece of the split: no separator in it. */
  predicate NoSeparator(p: string) {
    forall i :: 0 <= i < |p| ==> !IsOperandSeparator(p[i])
  }

  /** What the split removes between two pieces: one or more separators. */
  predicate SeparatorRun(q: string) {
    |q| > 0 && forall i :: 0 <= i < |q| ==> IsOperandSeparator(q[i])
  }

  /**
   * `re.split(r"[,\s]+", s)`: the pieces between maximal runs of commas and
   * whitespace; a run at either end yields an empty first or last piece.
   */
  function SplitOperands(s: string): (r: seq<string>)
    ensures |r| >= 1
    ensures forall k :: 0 <= k < |r| ==> NoSeparator(r[k])
    ensures |s| > 0 && !IsOperandSeparator(s[0]) ==> |r[0]| > 0
    ensures forall k :: 0 < k < |r| - 1 ==> |r[k]| > 0
    decreases |s|
  {
    if |s| == 0 then [""]
    else if IsOperandSeparator(s[0]) then [""] + SplitOperands(DropSeparators(s))
    else
      var rest := SplitOperands(s[1..]);
      [[s[0]] + rest[0]] + rest[1..]
  }

  /** The pieces with the separator runs between them put back: `pieces[0] + seps[0] + pieces[1] + ...`. */
  function Weave(pieces: seq<string>, seps: seq<string>): string
    requires |pieces| == |seps| + 1
    decreases |seps|
  {
    if |seps| == 0 then pieces[0] else pieces[0] + seps[0] + Weave(pieces[1..], seps[1..])
  }

  /** A character in front of the first piece is in front of the whole weave. */
  lemma WeaveFirst(c: char, pieces: seq<string>, seps: seq<string>)
    requires |pieces| == |seps| + 1
    ensures Weave([[c] + pieces[0]] + pieces[1..], seps) == [c] + Weave(pieces, seps)
  {
    var p := [[c] + pieces[0]] + pieces[1..];
    assert p[1..] == pieces[1..];
  }

  /**
   * The split loses nothing: putting separator runs back between its pieces
   * gives the input again.
   */
  lemma {:induction false} SplitOperandsWeave(s: string) returns (seps: seq<string>)
    ensures |seps| + 1 == |SplitOperands(s)|
    ensures forall k :: 0 <= k < |seps| ==> SeparatorRun(seps[k])
    ensures Weave(SplitOperands(s), seps) == s
    decreases |s|
  {
    if |s| == 0 {
      seps := [];
    } else if IsOperandSeparator(s[0]) {
      var t := DropSeparators(s);
      var more := SplitOperandsWeave(t);
      var q := s[..|s| - |t|];
      seps := [q] + more;
      WeaveSeparatorStep(s, t, q, more);
      assert SeparatorRun(q);
    } else {
      seps := SplitOperandsWeave(s[1..]);
      WeaveCharStep(s, seps);
    }
  }

  /** The separator case of `SplitOperandsWeave`: the dropped run goes first. */
  lemma WeaveSeparatorStep(s: string, t: string, q: string, more: seq<string>)
    requires |s| > 0 && IsOperandSeparator(s[0])
    requires t == DropSeparators(s) && q == s[..|s| - |t|]
    requires |more| + 1 == |SplitOperands(t)| && Weave(SplitOperands(t), more) == t
    ensures |more| + 2 == |SplitOperands(s)| && Weave(SplitOperands(s), [q] + more) == s
  {
    var pieces := SplitOperands(t);
    assert SplitOperands(s) == [""] + pieces;
    calc {
      Weave(SplitOperands(s), [q] + more);
      Weave([""] + pieces, [q] + more);
      { WeaveEmptyHead(q, pieces, more); }
      q + t;
      { TakeDrop(s, |s| - |t|); }
      s;
    }
  }

  /** The character case of `SplitOperandsWeave`: the character joins the first piece. */
  lemma WeaveCharStep(s: string, seps: seq<string>)
    requires |s| > 0 && !IsOperandSeparator(s[0])
    requires |seps| + 1 == |SplitOperands(s[1..])| && Weave(SplitOperands(s[1..]), seps) == s[1..]
    ensures |seps| + 1 == |SplitOperands(s)| && Weave(SplitOperands(s), seps) == s
  {
    WeaveFirst(s[0], SplitOperands(s[1..]), seps);
    assert s == [s[0]] + s[1..];
  }

  /** An empty first piece puts the first separator run at the front. */
  lemma WeaveEmptyHead(q: string, pieces: seq<string>, seps: seq<string>)
    requires |pieces| == |seps| + 1
    ensures Weave([""] + pieces, [q] + seps) == q + Weave(pieces, seps)
  {
    assert ([""] + pieces)[1..] == pieces && ([q] + seps)[1..] == seps;
    assert "" + q == q;
  }

  /** Dropping a separator run in front of text that does not start with a separator leaves that text. */
  lemma {:induction false} DropRun(q: string, w: string)
    requires forall i :: 0 <= i < |q| ==> IsOperandSeparator(q[i])
    requires |w| == 0 || !IsOperandSeparator(w[0])
    ensures DropSeparators(q + w) == w
    decreases |q|
  {
    if |q| > 0 {
      assert (q + w)[1..] == q[1..] + w;
      DropRun(q[1..], w);
    } else {
      assert q + w == w;
    }
  }

  /** Text without separators in front of `t` joins the first piece of `t`. */
  lemma {:induction false} SplitPlainPrefix(p: string, t: string)
    requires NoSeparator(p)
    ensures SplitOperands(p + t) == [p + SplitOperands(t)[0]] + SplitOperands(t)[1..]
    decreases |p|
  {
    if |p| == 0 {
      var parts := SplitOperands(t);
      assert p + t == t && p + parts[0] == parts[0];
      assert [parts[0]] + parts[1..] == parts;
    } else {
      assert (p + t)[1..] == p[1..] + t;
      SplitPlainPrefix(p[1..], t);
      assert p + SplitOperands(t)[0] == [p[0]] + (p[1..] + SplitOperands(t)[0]);
    }
  }

  /**
   * The converse: the split of a weave of separator-free pieces, non-empty
   * except possibly the first and the last, is those pieces.
   */
  lemma {:induction false} SplitOperandsOfWeave(pieces: seq<string>, seps: seq<string>)
    requires |pieces| == |seps| + 1
    requires forall k :: 0 <= k < |pieces| ==> NoSeparator(pieces[k])
    requires forall k :: 0 < k < |pieces| - 1 ==> |pieces[k]| > 0
    requires forall k :: 0 <= k < |seps| ==> SeparatorRun(seps[k])
    ensures SplitOperands(Weave(pieces, seps)) == pieces
    decreases |seps|
  {
    if |seps| == 0 {
      SplitPlainPrefix(pieces[0], "");
      assert pieces[0] + "" == pieces[0];
      assert pieces == [pieces[0]];
    } else {
      var w := Weave(pieces[1..], seps[1..]);
      SplitOperandsOfWeave(pieces[1..], seps[1..]);
      WeaveHead(pieces[1..], seps[1..]);
      SplitAfterRun(seps[0], w);
      SplitPlainPrefix(pieces[0], seps[0] + w);
      WeaveCons(pieces, seps);
      PrependEmpty(pieces, SplitOperands(seps[0] + w));
    }
  }

  /** One step of a weave, grouped to the right. */
  lemma WeaveCons(pieces: seq<string>, seps: seq<string>)
    requires |pieces| == |seps| + 1 && |seps| > 0
    ensures Weave(pieces, seps) == pieces[0] + (seps[0] + Weave(pieces[1..], seps[1..]))
  {
  }

  /** A weave starting with a non-empty separator-free piece, or a lone one, does not start with a separator. */
  lemma WeaveHead(pieces: seq<string>, seps: seq<string>)
    requires |pieces| == |seps| + 1 && NoSeparator(pieces[0]) && (|seps| == 0 || |pieces[0]| > 0)
    ensures var w := Weave(pieces, seps); |w| == 0 || !IsOperandSeparator(w[0])
  {
    if |seps| > 0 {
      WeaveCons(pieces, seps);
    }
  }

  /** A separator run in front of text not starting with a separator adds an empty first piece. */
  lemma SplitAfterRun(q: string, w: string)
    requires SeparatorRun(q) && (|w| == 0 || !IsOperandSeparator(w[0]))
    ensures SplitOperands(q + w) == [""] + SplitOperands(w)
  {
    DropRun(q, w);
    assert (q + w)[0] == q[0];
  }

  /** Joining the empty first piece of `[""] + pieces[1..]` to `pieces[0]` gives `pieces` back. */
  lemma PrependEmpty(pieces: seq<string>, t: seq<string>)
    requires |pieces| >= 1 && t == [""] + pieces[1..]
    ensures [pieces[0] + t[0]] + t[1..] == pieces
  {
    assert pieces[0] + "" == pieces[0];
  }

  /**
   * `re.match(r"(-?\d+)\((\$\w+)\)", s)`: an optionally negative decimal offset,
   * then `(`, a `$`-register name and `)` at the start of `s`; yields the
   * offset's value and the register name. Trailing text is allowed.
   */
  function MatchOffsetBase(s: string): (r: Option<(int, string)>)
    ensures r.Some? ==> |r.value.1| >= 2 && r.value.1[0] == '$'
  {
    var negative := |s| > 0 && s[0] == '-';
    MatchOffsetDigits(negative, if negative then s[1..] else s)
  }

  /** The `\d+` of the pattern and what follows it, after the optional sign. */
  function MatchOffsetDigits(negative: bool, t: string): (r: Option<(int, string)>)
    ensures r.Some? ==> |r.value.1| >= 2 && r.value.1[0] == '$'
  {
    var nd := DigitRun(t);
    if nd == 0 then None
    else
      match MatchBase(t[nd..])
      case None => None
      case Some(base) =>
        var magnitude: int := DigitsValue(t[..nd]);
        Some((if negative then -magnitude else magnitude, base))
  }

  /** The `\((\$\w+)\)` of the pattern at the start of `u`: the register name. */
  function MatchBase(u: string): (r: Option<string>)
    ensures r.Some? ==> |r.value| >= 2 && r.value[0] == '$'
  {
    if |u| < 2 || u[0] != '(' || u[1] != '$' then None
    else
      var v := u[2..];
      var nw := WordRun(v);
      if nw == 0 || nw >= |v| || v[nw] != ')' then None
      else Some("$" + v[..nw])
  }

  /** The pieces of a whole match of `(-?\d+)\((\$\w+)\)`: a sign, the digits, the word after `$`. */
  predicate OffsetBaseParts(sign: string, digits: string, word: string) {
    (sign == "" || sign == "-") && |digits| >= 1 && AllDigits(digits)
    && |word| >= 1 && forall k :: 0 <= k < |word| ==> IsWordChar(word[k])
  }

  /** `int()` of the signed digits. */
  function OffsetValue(sign: string, digits: string): int
    requires AllDigits(digits)
  {
    if sign == "-" then -(DigitsValue(digits) as int) else DigitsValue(digits)
  }

  /** A digit run followed by a non-digit is the whole leading run. */
  lemma DigitRunExact(t: string, n: nat)
    requires n <= |t| && AllDigits(t[..n]) && (n == |t| || !IsDigit(t[n]))
    ensures DigitRun(t) == n
  {
    var m := DigitRun(t);
    assert forall k :: 0 <= k < n ==> t[k] == t[..n][k];
    assert forall k :: 0 <= k < m ==> t[k] == t[..m][k];
  }

  /** A word run followed by a non-word character is the whole leading run. */
  lemma WordRunExact(t: string, n: nat)
    requires n <= |t| && (forall k :: 0 <= k < n ==> IsWordChar(t[k])) && (n == |t| || !IsWordChar(t[n]))
    ensures WordRun(t) == n
  {
  }

  /**
   * Every text laid out as the pattern reads, followed by anything, matches:
   * the offset is the signed value of the digits and the base is `$` and the word.
   */
  lemma MatchOffsetBaseLayout(sign: string, digits: string, word: string, rest: string)
    requires OffsetBaseParts(sign, digits, word)
    ensures MatchOffsetBase(sign + digits + "($" + word + ")" + rest) == Some((OffsetValue(sign, digits), "$" + word))
  {
    LayoutJoin(sign, digits, word, rest);
    MatchNested(sign, digits, word, rest);
  }

  /** The same, for the layout nested to the right, the way the match reads it. */
  lemma MatchNested(sign: string, digits: string, word: string, rest: string)
    requires OffsetBaseParts(sign, digits, word)
    ensures MatchOffsetBase(sign + (digits + ("($" + (word + (")" + rest))))) == Some((OffsetValue(sign, digits), "$" + word))
  {
    var u := "($" + (word + (")" + rest));
    var t := digits + u;
    assert t[..|digits|] == digits && t[|digits|..] == u;
    DigitRunExact(t, |digits|);
    MatchBaseNested(word, rest);
    MatchSignAt(sign + t, sign, t, digits, "$" + word);
  }

  /** A match put together from its parts, over any text. */
  lemma MatchSignAt(s: string, sign: string, t: string, digits: string, base: string)
    requires (sign == "" || sign == "-") && s == sign + t
    requires |digits| >= 1 && AllDigits(digits) && |digits| <= |t| && t[..|digits|] == digits
    requires DigitRun(t) == |digits| && MatchBase(t[|digits|..]) == Some(base)
    ensures MatchOffsetBase(s).Some?
    ensures MatchOffsetBase(s).value.0 == OffsetValue(sign, digits) && MatchOffsetBase(s).value.1 == base
  {
    if sign == "" {
      assert s == t && s[0] == digits[0];
    } else {
      assert s[1..] == t;
    }
  }

  lemma MatchBaseNested(word: string, rest: string)
    requires |word| >= 1 && forall k :: 0 <= k < |word| ==> IsWordChar(word[k])
    ensures MatchBase("($" + (word + (")" + rest))) == Some("$" + word)
  {
    var v := word + (")" + rest);
    assert ("($" + v)[2..] == v;
    assert v[..|word|] == word && v[|word|] == ')';
    WordRunExact(v, |word|);
    MatchBaseAt("($" + v, v, |word|);
  }

  lemma MatchBaseAt(u: string, v: string, n: nat)
    requires |u| >= 2 && u[0] == '(' && u[1] == '$' && v == u[2..]
    requires 1 <= n < |v| && WordRun(v) == n && v[n] == ')'
    ensures MatchBase(u) == Some("$" + v[..n])
  {
  }

  /** The right-nested layout is the left-nested one. */
  lemma LayoutJoin(sign: string, digits: string, word: string, rest: string)
    ensures sign + (digits + ("($" + (word + (")" + rest)))) == sign + digits + "($" + word + ")" + rest
  {
  }

  /** Every match is such a layout: the pieces can be read off the text. */
  lemma MatchOffsetBaseParts(s: string) returns (sign: string, digits: string, word: string, rest: string)
    requires MatchOffsetBase(s).Some?
    ensures OffsetBaseParts(sign, digits, word)
    ensures s == sign + digits + "($" + word + ")" + rest
    ensures MatchOffsetBase(s).value.0 == OffsetValue(sign, digits)
    ensures MatchOffsetBase(s).value.1 == "$" + word
  {
    var negative := |s| > 0 && s[0] == '-';
    var a := if negative then 1 else 0;
    var t := s[a..];
    var nd := DigitRun(t);
    var u := t[nd..];
    word, rest := MatchBaseParts(u);
    sign := s[..a];
    digits := t[..nd];
    assert sign == "-" <==> negative;
    TakeDrop(s, a);
    TakeDrop(t, nd);
    LayoutJoin(sign, digits, word, rest);
  }

  lemma TakeDrop(x: string, n: nat)
    requires n <= |x|
    ensures x == x[..n] + x[n..]
  {
  }

  /** The register part of a match read off the text. */
  lemma MatchBaseParts(u: string) returns (word: string, rest: string)
    requires MatchBase(u).Some?
    ensures |word| >= 1 && forall k :: 0 <= k < |word| ==> IsWordChar(word[k])
    ensures u == "($" + (word + (")" + rest))
    ensures MatchBase(u).value == "$" + word
  {
    var v := u[2..];
    var nw := WordRun(v);
    word := v[..nw];
    rest := v[nw + 1..];
    assert v == word + (")" + rest);
    assert u == u[..2] + v && u[..2] == "($";
  }

  // ---------------------------------------------------------------------
  // Word layout
  // ---------------------------------------------------------------------

  /** `(0 << 26) | (rs << 21) | (rt << 16) | (rd << 11) | (shamt << 6) | funct`. */
  function RTypeWord(rs: nat, rt: nat, rd: nat, shamt: nat, funct: nat): nat {
    Or(Or(Or(Or(Or(Shl(0, 26), Shl(rs, 21)), Shl(rt, 16)), Shl(rd, 11)), Shl(shamt, 6)), funct)
  }

  /** `(opcode << 26) | (rs << 21) | (rt << 16) | immediate`. */
  function ITypeWord(opcode: nat, rs: nat, rt: nat, immediate: nat): nat {
    Or(Or(Or(Shl(opcode, 26), Shl(rs, 21)), Shl(rt, 16)), immediate)
  }

  /** `(opcode << 26) | address`. */
  function JTypeWord(opcode: nat, address: nat): nat {
    Or(Shl(opcode, 26), address)
  }

  /** With every field in range the ORs of an R-type word are sums. */
  lemma RTypeWordSum(rs: nat, rt: nat, rd: nat, shamt: nat, funct: nat)
    requires rs < 32 && rt < 32 && rd < 32 && shamt < 32 && funct < 64
    ensures RTypeWord(rs, rt, rd, shamt, funct) == rs * 2097152 + rt * 65536 + rd * 2048 + shamt * 64 + funct
  {
    Pow2Values();
    ShlBy(0, 26, 67108864);
    ShlBy(rs, 21, 2097152);
    ShlBy(rt, 16, 65536);
    ShlBy(rd, 11, 2048);
    ShlBy(shamt, 6, 64);
    var x1 := Or(Shl(0, 26), Shl(rs, 21));
    assert x1 == rs * 2097152;
    var x2 := Or(x1, Shl(rt, 16));
    OrBelow(x1, Shl(rt, 16), 21, 2097152, rs);
    var x3 := Or(x2, Shl(rd, 11));
    OrBelow(x2, Shl(rd, 11), 16, 65536, rs * 32 + rt);
    var x4 := Or(x3, Shl(shamt, 6));
    OrBelow(x3, Shl(shamt, 6), 11, 2048, rs * 1024 + rt * 32 + rd);
    OrBelow(x4, funct, 6, 64, rs * 32768 + rt * 1024 + rd * 32 + shamt);
  }

  /** The R-type word fits 32 bits and each of its fields reads back by shift and mask. */
  lemma RTypeWordFields(rs: nat, rt: nat, rd: nat, shamt: nat, funct: nat)
    requires rs < 32 && rt < 32 && rd < 32 && shamt < 32 && funct < 64
    ensures var w := RTypeWord(rs, rt, rd, shamt, funct);
      w < Pow2(32) && Low(Shr(w, 26), 6) == 0 && Low(Shr(w, 21), 5) == rs && Low(Shr(w, 16), 5) == rt
      && Low(Shr(w, 11), 5) == rd && Low(Shr(w, 6), 5) == shamt && Low(w, 6) == funct
  {
    RTypeOpcodeField(rs, rt, rd, shamt, funct);
    RTypeRsField(rs, rt, rd, shamt, funct);
    RTypeRtField(rs, rt, rd, shamt, funct);
    RTypeRdField(rs, rt, rd, shamt, funct);
    RTypeShamtField(rs, rt, rd, shamt, funct);
    RTypeFunctField(rs, rt, rd, shamt, funct);
  }

  lemma RTypeOpcodeField(rs: nat, rt: nat, rd: nat, shamt: nat, funct: nat)
    requires rs < 32 && rt < 32 && rd < 32 && shamt < 32 && funct < 64
    ensures var w := RTypeWord(rs, rt, rd, shamt, funct); w < Pow2(32) && Low(Shr(w, 26), 6) == 0
  {
    RTypeWordSum(rs, rt, rd, shamt, funct);
    Pow2Values();
    var w := RTypeWord(rs, rt, rd, shamt, funct);
    DivModSplit(0, w, Pow2(26));
  }

  lemma RTypeRsField(rs: nat, rt: nat, rd: nat, shamt: nat, funct: nat)
    requires rs < 32 && rt < 32 && rd < 32 && shamt < 32 && funct < 64
    ensures Low(Shr(RTypeWord(rs, rt, rd, shamt, funct), 21), 5) == rs
  {
    RTypeWordSum(rs, rt, rd, shamt, funct);
    Pow2Values();
    FieldOf(0, rs, rt * 65536 + rd * 2048 + shamt * 64 + funct, 21, 5);
  }

  lemma RTypeRtField(rs: nat, rt: nat, rd: nat, shamt: nat, funct: nat)
    requires rs < 32 && rt < 32 && rd < 32 && shamt < 32 && funct < 64
    ensures Low(Shr(RTypeWord(rs, rt, rd, shamt, funct), 16), 5) == rt
  {
    RTypeWordSum(rs, rt, rd, shamt, funct);
    Pow2Values();
    FieldOf(rs, rt, rd * 2048 + shamt * 64 + funct, 16, 5);
  }

  lemma RTypeRdField(rs: nat, rt: nat, rd: nat, shamt: nat, funct: nat)
    requires rs < 32 && rt < 32 && rd < 32 && shamt < 32 && funct < 64
    ensures Low(Shr(RTypeWord(rs, rt, rd, shamt, funct), 11), 5) == rd
  {
    RTypeWordSum(rs, rt, rd, shamt, funct);
    Pow2Values();
    FieldOf(rs * 32 + rt, rd, shamt * 64 + funct, 11, 5);
  }

  lemma RTypeShamtField(rs: nat, rt: nat, rd: nat, shamt: nat, funct: nat)
    requires rs < 32 && rt < 32 && rd < 32 && shamt < 32 && funct < 64
    ensures Low(Shr(RTypeWord(rs, rt, rd, shamt, funct), 6), 5) == shamt
  {
    RTypeWordSum(rs, rt, rd, shamt, funct);
    Pow2Values();
    FieldOf(rs * 1024 + rt * 32 + rd, shamt, funct, 6, 5);
  }

  lemma RTypeFunctField(rs: nat, rt: nat, rd: nat, shamt: nat, funct: nat)
    requires rs < 32 && rt < 32 && rd < 32 && shamt < 32 && funct < 64
    ensures Low(RTypeWord(rs, rt, rd, shamt, funct), 6) == funct
  {
    RTypeWordSum(rs, rt, rd, shamt, funct);
    Pow2Values();
    DivModSplit(rs * 32768 + rt * 1024 + rd * 32 + shamt, funct, 64);
  }

  /** With every field in range the ORs of an I-type word are sums. */
  lemma ITypeWordSum(opcode: nat, rs: nat, rt: nat, immediate: nat)
    requires opcode < 64 && rs < 32 && rt < 32 && immediate < 65536
    ensures ITypeWord(opcode, rs, rt, immediate) == opcode * 67108864 + rs * 2097152 + rt * 65536 + immediate
  {
    Pow2Values();
    ShlBy(opcode, 26, 67108864);
    ShlBy(rs, 21, 2097152);
    ShlBy(rt, 16, 65536);
    var x1 := Or(Shl(opcode, 26), Shl(rs, 21));
    OrBelow(Shl(opcode, 26), Shl(rs, 21), 26, 67108864, opcode);
    var x2 := Or(x1, Shl(rt, 16));
    OrBelow(x1, Shl(rt, 16), 21, 2097152, opcode * 32 + rs);
    OrBelow(x2, immediate, 16, 65536, opcode * 1024 + rs * 32 + rt);
  }

  /** The I-type word fits 32 bits and each of its fields reads back by shift and mask. */
  lemma ITypeWordFields(opcode: nat, rs: nat, rt: nat, immediate: nat)
    requires opcode < 64 && rs < 32 && rt < 32 && immediate < 65536
    ensures var w := ITypeWord(opcode, rs, rt, immediate);
      w < Pow2(32) && Low(Shr(w, 26), 6) == opcode && Low(Shr(w, 21), 5) == rs
      && Low(Shr(w, 16), 5) == rt && Low(w, 16) == immediate
  {
    ITypeOpcodeField(opcode, rs, rt, immediate);
    ITypeRsField(opcode, rs, rt, immediate);
    ITypeRtField(opcode, rs, rt, immediate);
    ITypeImmediateField(opcode, rs, rt, immediate);
  }

  lemma ITypeOpcodeField(opcode: nat, rs: nat, rt: nat, immediate: nat)
    requires opcode < 64 && rs < 32 && rt < 32 && immediate < 65536
    ensures var w := ITypeWord(opcode, rs, rt, immediate); w < Pow2(32) && Low(Shr(w, 26), 6) == opcode
  {
    ITypeWordSum(opcode, rs, rt, immediate);
    Pow2Values();
    FieldOf(0, opcode, rs * 2097152 + rt * 65536 + immediate, 26, 6);
  }

  lemma ITypeRsField(opcode: nat, rs: nat, rt: nat, immediate: nat)
    requires opcode < 64 && rs < 32 && rt < 32 && immediate < 65536
    ensures Low(Shr(ITypeWord(opcode, rs, rt, immediate), 21), 5) == rs
  {
    ITypeWordSum(opcode, rs, rt, immediate);
    Pow2Values();
    FieldOf(opcode, rs, rt * 65536 + immediate, 21, 5);
  }

  lemma ITypeRtField(opcode: nat, rs: nat, rt: nat, immediate: nat)
    requires opcode < 64 && rs < 32 && rt < 32 && immediate < 65536
    ensures Low(Shr(ITypeWord(opcode, rs, rt, immediate), 16), 5) == rt
  {
    ITypeWordSum(opcode, rs, rt, immediate);
    Pow2Values();
    FieldOf(opcode * 32 + rs, rt, immediate, 16, 5);
  }

  lemma ITypeImmediateField(opcode: nat, rs: nat, rt: nat, immediate: nat)
    requires opcode < 64 && rs < 32 && rt < 32 && immediate < 65536
    ensures Low(ITypeWord(opcode, rs, rt, immediate), 16) == immediate
  {
    ITypeWordSum(opcode, rs, rt, immediate);
    Pow2Values();
    DivModSplit(opcode * 1024 + rs * 32 + rt, immediate, 65536);
  }

  /** The J-type word fits 32 bits and both its fields read back by shift and mask. */
  lemma JTypeWordFields(opcode: nat, address: nat)
    requires opcode < 64 && address < 67108864
    ensures var w := JTypeWord(opcode, address);
      w == opcode * 67108864 + address && w < Pow2(32)
      && Low(Shr(w, 26), 6) == opcode && Low(w, 26) == address
  {
    Pow2Values();
    ShlBy(opcode, 26, 67108864);
    OrBelow(Shl(opcode, 26), address, 26, 67108864, opcode);
    JTypeOpcodeField(opcode, address);
    DivModSplit(opcode, address, 67108864);
  }

  lemma JTypeOpcodeField(opcode: nat, address: nat)
    requires opcode < 64 && address < 67108864
    ensures Low(Shr(opcode * 67108864 + address, 26), 6) == opcode
  {
    Pow2Values();
    FieldOf(0, opcode, address, 26, 6);
  }

  // ---------------------------------------------------------------------
  // Binary and immediate spellings
  // ---------------------------------------------------------------------

  /** `_to_binary(v, b)` has exactly `b` digits and spells `v mod 2^b`. */
  lemma ToBinaryWidth(value: int, bits: nat)
    requires bits >= 1
    ensures |ToBinary(value, bits)| == bits
    ensures BitsValue(ToBinary(value, bits)) == value % Pow2(bits)
  {
    var v := Low(value, bits);
    NatToBinaryLength(v, bits);
    BinaryValueOfShort(v);
    BitsValueZeros(bits - |NatToBinary(v)|, NatToBinary(v));
  }

  /** On text with no surrounding space and no `0x` prefix, `_parse_immediate` is `int()` or 0. */
  lemma ParseImmediateDecimalToken(t: string)
    requires Strip(t) == t && !StartsWith(t, "0x")
    ensures ParseImmediate(t) == ParseInt(t).GetOr(0)
  {
  }

  /** Decimal immediates read back: `_parse_immediate(str(i)) == i`. */
  lemma ParseImmediateDecimal(i: int)
    ensures ParseImmediate(IntToDecimal(i)) == i
  {
    var t := IntToDecimal(i);
    assert Strip(t) == t by { StripDecimal(i); }
    assert !StartsWith(t, "0x") by {
      if |t| >= 2 {
        assert t[1] == '-' || IsDigit(t[1]);
      }
    }
    ParseImmediateDecimalToken(t);
    ParseIntDecimal(i);
  }

  /** Hexadecimal immediates read back: `_parse_immediate("0x" + hex(n)) == n`. */
  lemma ParseImmediateHex(n: nat, width: nat, upper: bool)
    ensures ParseImmediate("0x" + FormatHex(n, width, upper)) == n
  {
    var t := "0x" + FormatHex(n, width, upper);
    assert StartsWith(Strip(t), "0x") by {
      var h := FormatHex(n, width, upper);
      assert IsHexDigit(h[|h| - 1]);
      HexDigitNotSpace(h[|h| - 1]);
      assert t[|t| - 1] == h[|h| - 1];
      StripIdentity(t);
      assert t[..2] == "0x";
    }
    assert ParseHex(t) == Some(n) by {
      ParseHexFormatted(n, width, upper, true);
      assert (if true then "0x" else "") + FormatHex(n, width, upper) == t;
    }
  }

  /** A label: word characters, the first of them a letter or an underscore. */
  predicate IsLabel(t: string) {
    |t| >= 1 && ('a' <= t[0] <= 'z' || 'A' <= t[0] <= 'Z' || t[0] == '_')
    && forall k :: 0 <= k < |t| ==> IsWordChar(t[k])
  }

  /** A label is neither a decimal nor a `0x` number: `_parse_immediate` reads it as 0. */
  lemma ParseImmediateLabel(t: string)
    requires IsLabel(t)
    ensures ParseImmediate(t) == 0
  {
    LabelToken(t);
    ParseImmediateDecimalToken(t);
    LabelNotInt(t);
  }

  /** A label has no surrounding whitespace and no `0x` prefix. */
  lemma LabelToken(t: string)
    requires IsLabel(t)
    ensures Strip(t) == t && !StartsWith(t, "0x")
  {
    assert IsWordChar(t[|t| - 1]);
    StripIdentity(t);
    if |t| >= 2 { assert t[..2][0] == t[0]; }
  }

  lemma LabelNotInt(t: string)
    requires IsLabel(t) && Strip(t) == t
    ensures ParseInt(t).None?
  {
    assert !AllDigits(t) by { assert !IsDigit(t[0]); }
  }

  // ---------------------------------------------------------------------
  // Operands
  // ---------------------------------------------------------------------

  /** The R-type fields `(rs, rt, rd, shamt)` before the function code. */
  datatype RFields = RFields(rs: nat, rt: nat, rd: nat, shamt: nat)

  predicate ValidRFields(f: RFields) {
    f.rs < 32 && f.rt < 32 && f.rd < 32 && f.shamt < 32
  }

  /** The operand layouts `_decode_r_type` distinguishes. */
  datatype ROperandShape = Shift | VariableShift | JumpRegister | JumpAndLink | MoveFrom | MoveTo | MulDiv | ThreeRegister

  function RShape(mnemonic: string): ROperandShape {
    if mnemonic in ["sll", "srl", "sra"] then Shift
    else if mnemonic in ["sllv", "srlv", "srav"] then VariableShift
    else if mnemonic == "jr" then JumpRegister
    else if mnemonic == "jalr" then JumpAndLink
    else if mnemonic in ["mfhi", "mflo"] then MoveFrom
    else if mnemonic in ["mthi", "mtlo"] then MoveTo
    else if mnemonic in ["mult", "multu", "div", "divu"] then MulDiv
    else ThreeRegister
  }

  /** How many operands each layout reads; with fewer, every field stays 0. */
  function ROperandsNeeded(shape: ROperandShape): nat {
    match shape
    case Shift => 3 case VariableShift => 3 case ThreeRegister => 3
    case MulDiv => 2
    case JumpRegister => 1 case JumpAndLink => 1 case MoveFrom => 1 case MoveTo => 1
  }

  /** `_get_register_number` of every operand, position by position. */
  function OperandRegisters(operands: seq<string>): (r: seq<nat>)
    ensures |r| == |operands|
    ensures forall i :: 0 <= i < |r| ==> r[i] == RegisterNumber(operands[i]) && r[i] < 32
  {
    if |operands| == 0 then [] else [RegisterNumber(operands[0])] + OperandRegisters(operands[1..])
  }

  /**
   * The fields `_decode_r_type` reads from the operands of each layout, where
   * `regs[k]` is the register number of `operands[k]`; too few operands leave
   * every field 0. A shift amount that `int()` rejects has no fields (see
   * `RTypeOperands`); 0 stands in for it here.
   */
  function RTypeFields(shape: ROperandShape, operands: seq<string>, regs: seq<nat>): (f: RFields)
    requires |regs| == |operands| && forall k :: 0 <= k < |regs| ==> regs[k] < 32
    ensures ValidRFields(f)
    ensures |operands| < ROperandsNeeded(shape) ==> f == RFields(0, 0, 0, 0)
    ensures shape == Shift && |operands| >= 3 ==>
      f == RFields(0, regs[1], regs[0], Low(ParseInt(operands[2]).GetOr(0), 5))
    ensures shape == VariableShift && |operands| >= 3 ==> f == RFields(regs[2], regs[1], regs[0], 0)
    ensures shape == JumpRegister && |operands| >= 1 ==> f == RFields(regs[0], 0, 0, 0)
    ensures shape == JumpAndLink && |operands| >= 2 ==> f == RFields(regs[1], 0, regs[0], 0)
    ensures shape == JumpAndLink && |operands| == 1 ==> f == RFields(regs[0], 0, 31, 0)
    ensures shape == MoveFrom && |operands| >= 1 ==> f == RFields(0, 0, regs[0], 0)
    ensures shape == MoveTo && |operands| >= 1 ==> f == RFields(regs[0], 0, 0, 0)
    ensures shape == MulDiv && |operands| >= 2 ==> f == RFields(regs[0], regs[1], 0, 0)
    ensures shape == ThreeRegister && |operands| >= 3 ==> f == RFields(regs[1], regs[2], regs[0], 0)
  {
    assert Pow2(5) == 32 by { Pow2Values(); }
    if |operands| < ROperandsNeeded(shape) then RFields(0, 0, 0, 0)
    else
      match shape
      case Shift => RFields(0, regs[1], regs[0], Low(ParseInt(operands[2]).GetOr(0), 5))
      case VariableShift => RFields(regs[2], regs[1], regs[0], 0)
      case JumpRegister => RFields(regs[0], 0, 0, 0)
      case JumpAndLink => if |operands| >= 2 then RFields(regs[1], 0, regs[0], 0) else RFields(regs[0], 0, 31, 0)
      case MoveFrom => RFields(0, 0, regs[0], 0)
      case MoveTo => RFields(regs[0], 0, 0, 0)
      case MulDiv => RFields(regs[0], regs[1], 0, 0)
      case ThreeRegister => RFields(regs[1], regs[2], regs[0], 0)
  }

  /**
   * The operand rules of `_decode_r_type`: a shift amount that `int()` rejects
   * raises, here an `Err` with Python's message; otherwise the fields above.
   */
  function RTypeOperands(shape: ROperandShape, operands: seq<string>): (r: Result<RFields>)
    ensures r.Err? <==> shape == Shift && |operands| >= 3 && ParseInt(operands[2]).None?
    ensures r.Ok? ==> r.value == RTypeFields(shape, operands, OperandRegisters(operands))
  {
    if shape == Shift && |operands| >= 3 && ParseInt(operands[2]).None? then
      Err("invalid literal for int() with base 10: '" + operands[2] + "'")
    else Ok(RTypeFields(shape, operands, OperandRegisters(operands)))
  }

  /** The I-type fields `(rs, rt, immediate)` after the opcode. */
  datatype IFields = IFields(rs: nat, rt: nat, immediate: nat)

  /** The operand layouts `_decode_i_type` distinguishes. */
  datatype IOperandShape = LoadStore | CompareBranch | ZeroBranch | UpperImmediate | RegisterImmediate

  function IShape(mnemonic: string): IOperandShape {
    if mnemonic in ["lw", "lh", "lhu", "lb", "lbu", "sw", "sh", "sb"] then LoadStore
    else if mnemonic in ["beq", "bne"] then CompareBranch
    else if mnemonic in ["blez", "bgtz"] then ZeroBranch
    else if mnemonic == "lui" then UpperImmediate
    else RegisterImmediate
  }

  /** How many operands each layout reads; with fewer, every field stays 0. */
  function IOperandsNeeded(shape: IOperandShape): nat {
    match shape
    case CompareBranch => 3 case RegisterImmediate => 3
    case LoadStore => 2 case ZeroBranch => 2 case UpperImmediate => 2
  }

  /**
   * The operand rules of `_decode_i_type`: loads and stores read `offset(base)`,
   * leaving rs and the immediate 0 when it does not match; every immediate is
   * masked to 16 bits.
   */
  function ITypeOperands(shape: IOperandShape, operands: seq<string>): (r: IFields)
    ensures r.rs < 32 && r.rt < 32 && r.immediate < 65536
    ensures |operands| < IOperandsNeeded(shape) ==> r == IFields(0, 0, 0)
    ensures shape == LoadStore && |operands| >= 2 && MatchOffsetBase(operands[1]).None? ==>
      r == IFields(0, RegisterNumber(operands[0]), 0)
    ensures shape == LoadStore && |operands| >= 2 && MatchOffsetBase(operands[1]).Some? ==>
      r == IFields(RegisterNumber(MatchOffsetBase(operands[1]).value.1), RegisterNumber(operands[0]),
                   Low(MatchOffsetBase(operands[1]).value.0, 16))
    ensures shape == CompareBranch && |operands| >= 3 ==>
      r == IFields(RegisterNumber(operands[0]), RegisterNumber(operands[1]), Low(ParseImmediate(operands[2]), 16))
    ensures shape == ZeroBranch && |operands| >= 2 ==>
      r == IFields(RegisterNumber(operands[0]), 0, Low(ParseImmediate(operands[1]), 16))
    ensures shape == UpperImmediate && |operands| >= 2 ==>
      r == IFields(0, RegisterNumber(operands[0]), Low(ParseImmediate(operands[1]), 16))
    ensures shape == RegisterImmediate && |operands| >= 3 ==>
      r == IFields(RegisterNumber(operands[1]), RegisterNumber(operands[0]), Low(ParseImmediate(operands[2]), 16))
  {
    Pow2Values();
    if |operands| < IOperandsNeeded(shape) then IFields(0, 0, 0)
    else
      match shape
      case LoadStore =>
        var m := MatchOffsetBase(operands[1]);
        if m.Some? then IFields(RegisterNumber(m.value.1), RegisterNumber(operands[0]), Low(m.value.0, 16))
        else IFields(0, RegisterNumber(operands[0]), 0)
      case CompareBranch =>
        IFields(RegisterNumber(operands[0]), RegisterNumber(operands[1]), Low(ParseImmediate(operands[2]), 16))
      case ZeroBranch => IFields(RegisterNumber(operands[0]), 0, Low(ParseImmediate(operands[1]), 16))
      case UpperImmediate => IFields(0, RegisterNumber(operands[0]), Low(ParseImmediate(operands[1]), 16))
      case RegisterImmediate =>
        IFields(RegisterNumber(operands[1]), RegisterNumber(operands[0]), Low(ParseImmediate(operands[2]), 16))
  }

  /** The target of `_decode_j_type`, masked to 26 bits; 0 without an operand. */
  function JTypeAddress(operands: seq<string>): (r: nat)
    ensures r < 67108864
    ensures |operands| == 0 ==> r == 0
    ensures |operands| >= 1 ==> r == ParseImmediate(operands[0]) % 67108864
  {
    Pow2Values();
    if |operands| >= 1 then Low(ParseImmediate(operands[0]), 26) else 0
  }

  // ---------------------------------------------------------------------
  // Decoding
  // ---------------------------------------------------------------------

  /** The `0x`-prefixed 8-digit upper-case hexadecimal spelling of a word. */
  function WordHex(w: nat): string {
    "0x" + FormatHex(w, 8, true)
  }

  /** `w` is a 32-bit R-type word: opcode 0, then rs, rt, rd, shamt and `funct`, high bits first. */
  predicate RWordHolds(w: nat, funct: nat, f: RFields) {
    w < Pow2(32) && Low(Shr(w, 26), 6) == 0 && Low(Shr(w, 21), 5) == f.rs && Low(Shr(w, 16), 5) == f.rt
    && Low(Shr(w, 11), 5) == f.rd && Low(Shr(w, 6), 5) == f.shamt && Low(w, 6) == funct
  }

  /** `w` is a 32-bit I-type word: `opcode`, then rs, rt and the 16-bit immediate. */
  predicate IWordHolds(w: nat, opcode: nat, f: IFields) {
    w < Pow2(32) && Low(Shr(w, 26), 6) == opcode && Low(Shr(w, 21), 5) == f.rs
    && Low(Shr(w, 16), 5) == f.rt && Low(w, 16) == f.immediate
  }

  /** `w` is a 32-bit J-type word: `opcode`, then the 26-bit target. */
  predicate JWordHolds(w: nat, opcode: nat, address: nat) {
    w < Pow2(32) && Low(Shr(w, 26), 6) == opcode && Low(w, 26) == address
  }

  /** The record `_decode_r_type` builds from its fields. */
  function RTypeRecord(funct: nat, f: RFields, original: string): (d: DecodedInstruction)
    requires funct < 64 && ValidRFields(f)
    ensures d.format == RType && d.opcode == 0 && d.original == original
    ensures RWordHolds(d.machineCode, funct, f)
    ensures d.machineCodeBin == ToBinary(d.machineCode, 32) && d.machineCodeHex == WordHex(d.machineCode)
    ensures |d.fields| == 5 && d.fields[0].0 == "rs" && d.fields[4] == ("funct", (funct, ToBinary(funct, 6)))
  {
    var w := RTypeWord(f.rs, f.rt, f.rd, f.shamt, funct);
    RTypeWordFields(f.rs, f.rt, f.rd, f.shamt, funct);
    ToBinaryWidth(w, 32);
    DecodedInstruction(
      original, RType, 0, ToBinary(0, 6),
      [("rs", (f.rs, ToBinary(f.rs, 5))), ("rt", (f.rt, ToBinary(f.rt, 5))), ("rd", (f.rd, ToBinary(f.rd, 5))),
       ("shamt", (f.shamt, ToBinary(f.shamt, 5))), ("funct", (funct, ToBinary(funct, 6)))],
      w, WordHex(w), ToBinary(w, 32),
      "R-type: opcode=0, rs=" + NatToDecimal(f.rs) + ", rt=" + NatToDecimal(f.rt) + ", rd=" + NatToDecimal(f.rd)
        + ", shamt=" + NatToDecimal(f.shamt) + ", funct=" + NatToDecimal(funct))
  }

  /** The record `_decode_i_type` builds from its fields. */
  function ITypeRecord(opcode: nat, f: IFields, original: string): (d: DecodedInstruction)
    requires opcode < 64 && f.rs < 32 && f.rt < 32 && f.immediate < 65536
    ensures d.format == IType && d.opcode == opcode && d.original == original
    ensures IWordHolds(d.machineCode, opcode, f)
    ensures d.machineCodeBin == ToBinary(d.machineCode, 32) && d.machineCodeHex == WordHex(d.machineCode)
    ensures |d.fields| == 3 && d.fields[2] == ("immediate", (f.immediate, ToBinary(f.immediate, 16)))
  {
    var w := ITypeWord(opcode, f.rs, f.rt, f.immediate);
    ITypeWordFields(opcode, f.rs, f.rt, f.immediate);
    ToBinaryWidth(w, 32);
    DecodedInstruction(
      original, IType, opcode, ToBinary(opcode, 6),
      [("rs", (f.rs, ToBinary(f.rs, 5))), ("rt", (f.rt, ToBinary(f.rt, 5))),
       ("immediate", (f.immediate, ToBinary(f.immediate, 16)))],
      w, WordHex(w), ToBinary(w, 32),
      "I-type: opcode=" + NatToDecimal(opcode) + ", rs=" + NatToDecimal(f.rs) + ", rt=" + NatToDecimal(f.rt)
        + ", imm=" + NatToDecimal(f.immediate))
  }

  /** The record `_decode_j_type` builds from its target. */
  function JTypeRecord(opcode: nat, address: nat, original: string): (d: DecodedInstruction)
    requires opcode < 64 && address < 67108864
    ensures d.format == JType && d.opcode == opcode && d.original == original
    ensures JWordHolds(d.machineCode, opcode, address)
    ensures d.machineCodeBin == ToBinary(d.machineCode, 32) && d.machineCodeHex == WordHex(d.machineCode)
    ensures d.fields == [("address", (address, ToBinary(address, 26)))]
  {
    var w := JTypeWord(opcode, address);
    JTypeWordFields(opcode, address);
    ToBinaryWidth(w, 32);
    DecodedInstruction(
      original, JType, opcode, ToBinary(opcode, 6), [("address", (address, ToBinary(address, 26)))],
      w, WordHex(w), ToBinary(w, 32),
      "J-type: opcode=" + NatToDecimal(opcode) + ", address=" + NatToDecimal(address))
  }

  /** The text `decode` works on: stripped, lower-cased, and cut at the first `#`. */
  function CleanInstruction(instruction: string): (r: string)
    ensures var text := Lower(Strip(instruction)); r == Strip(text[..FirstIndex(text, '#')])
    ensures '#' !in r
  {
    var text := Lower(Strip(instruction));
    if '#' in text then
      var head := Split(text, '#')[0];
      SplitHead(text, '#');
      StripKeepsOut(head, '#');
      Strip(head)
    else
      FirstIndexAbsent(text, '#');
      LowerStripped(instruction);
      text
  }

  /** `decode`'s guard: nothing to decode in a blank line or a whole-line comment. */
  predicate IsSkippedInstruction(instruction: string) {
    var text := Lower(Strip(instruction));
    |text| == 0 || StartsWith(text, "#")
  }

  /** The first piece of the operand split, looked up in the three tables. */
  function Mnemonic(instruction: string): string {
    SplitOperands(CleanInstruction(instruction))[0]
  }

  predicate IsKnownMnemonic(mnemonic: string) {
    RTypeFunct(mnemonic).Some? || ITypeOpcode(mnemonic).Some? || JTypeOpcode(mnemonic).Some?
  }

  /** The dispatch of `decode` on the mnemonic, with the operands that follow it. */
  function DecodeMnemonic(mnemonic: string, operands: seq<string>, text: string): (r: Result<Option<DecodedInstruction>>)
    ensures !IsKnownMnemonic(mnemonic) ==> r == Ok(None)
    ensures r.Err? <==> RTypeFunct(mnemonic).Some? && RTypeOperands(RShape(mnemonic), operands).Err?
    ensures IsKnownMnemonic(mnemonic) && r.Ok? ==>
      r.value.Some? && r.value.value.original == text && r.value.value.machineCode < Pow2(32)
  {
    match RTypeFunct(mnemonic)
    case Some(funct) =>
      (match RTypeOperands(RShape(mnemonic), operands)
       case Ok(f) => Ok(Some(RTypeRecord(funct, f, text)))
       case Err(e) => Err(e))
    case None =>
      match ITypeOpcode(mnemonic)
      case Some(opcode) => Ok(Some(ITypeRecord(opcode, ITypeOperands(IShape(mnemonic), operands), text)))
      case None =>
        match JTypeOpcode(mnemonic)
        case Some(opcode) => Ok(Some(JTypeRecord(opcode, JTypeAddress(operands), text)))
        case None => Ok(None)
  }

  /** `r` is a decoded R-type instruction whose word holds `funct` and the fields `f`. */
  predicate RDecoded(r: Result<Option<DecodedInstruction>>, funct: nat, f: RFields) {
    r.Ok? && r.value.Some? && r.value.value.format == RType && RWordHolds(r.value.value.machineCode, funct, f)
  }

  /** `r` is a decoded I-type instruction whose word holds `opcode` and the fields `f`. */
  predicate IDecoded(r: Result<Option<DecodedInstruction>>, opcode: nat, f: IFields) {
    r.Ok? && r.value.Some? && r.value.value.format == IType && IWordHolds(r.value.value.machineCode, opcode, f)
  }

  /** `r` is a decoded J-type instruction whose word holds `opcode` and `address`. */
  predicate JDecoded(r: Result<Option<DecodedInstruction>>, opcode: nat, address: nat) {
    r.Ok? && r.value.Some? && r.value.value.format == JType && JWordHolds(r.value.value.machineCode, opcode, address)
  }

  /**
   * `r` is what the tables say `mnemonic` with `operands` decodes to, tried in
   * `decode`'s order: an R-type word with the function code and the operand
   * fields when the shift amount parses, else an I-type word, else a J-type
   * word.
   */
  predicate DecodedPerTables(mnemonic: string, operands: seq<string>, r: Result<Option<DecodedInstruction>>) {
    (RTypeFunct(mnemonic).Some? && RTypeOperands(RShape(mnemonic), operands).Ok? ==>
       RDecoded(r, RTypeFunct(mnemonic).value, RTypeOperands(RShape(mnemonic), operands).value))
    && (RTypeFunct(mnemonic).None? && ITypeOpcode(mnemonic).Some? ==>
       IDecoded(r, ITypeOpcode(mnemonic).value, ITypeOperands(IShape(mnemonic), operands)))
    && (RTypeFunct(mnemonic).None? && ITypeOpcode(mnemonic).None? && JTypeOpcode(mnemonic).Some? ==>
       JDecoded(r, JTypeOpcode(mnemonic).value, JTypeAddress(operands)))
  }

  /** The word of a known mnemonic carries its table's code and the fields its operands give. */
  lemma DecodeMnemonicWord(mnemonic: string, operands: seq<string>, text: string)
    ensures DecodedPerTables(mnemonic, operands, DecodeMnemonic(mnemonic, operands, text))
  {
  }

  /** The operands `decode` hands on: the pieces of the split after the mnemonic. */
  function Operands(instruction: string): seq<string> {
    SplitOperands(CleanInstruction(instruction))[1..]
  }

  /**
   * `decode`: `Ok(None)` for a blank line, a whole-line comment or an unknown
   * mnemonic; `Err` only where `_decode_r_type` raises on a shift amount.
   */
  function Decode(instruction: string): (r: Result<Option<DecodedInstruction>>)
    ensures IsSkippedInstruction(instruction) ==> r == Ok(None)
    ensures !IsSkippedInstruction(instruction) && !IsKnownMnemonic(Mnemonic(instruction)) ==> r == Ok(None)
    ensures r.Err? ==> RShape(Mnemonic(instruction)) == Shift
    ensures r.Ok? && r.value.Some? ==>
      IsKnownMnemonic(Mnemonic(instruction)) && r.value.value.original == CleanInstruction(instruction)
      && r.value.value.machineCode < Pow2(32)
  {
    if IsSkippedInstruction(instruction) then Ok(None)
    else
      var text := CleanInstruction(instruction);
      var parts := SplitOperands(text);
      DecodeMnemonic(parts[0], parts[1..], text)
  }

  /**
   * What `decode` makes of a line that is not skipped: the dispatch on the
   * first piece of the cleaned text with the rest as operands, so the word
   * carries the table's code and the fields of those operands, and a known
   * mnemonic always yields an instruction unless its shift amount raises.
   */
  lemma DecodeWord(instruction: string)
    requires !IsSkippedInstruction(instruction)
    ensures Decode(instruction) == DecodeMnemonic(Mnemonic(instruction), Operands(instruction), CleanInstruction(instruction))
    ensures DecodedPerTables(Mnemonic(instruction), Operands(instruction), Decode(instruction))
  {
    DecodeMnemonicWord(Mnemonic(instruction), Operands(instruction), CleanInstruction(instruction));
  }

  // ---------------------------------------------------------------------
  // Whole programs
  // ---------------------------------------------------------------------

  /** `decode_program`'s line filter: blank lines, comments and directives are not decoded. */
  predicate IsSkippedLine(line: string) {
    var t := Strip(line);
    |t| == 0 || StartsWith(t, "#") || StartsWith(t, ".")
  }

  /** What `decode_program` makes of one line: nothing for a skipped line, `decode` of the stripped line otherwise. */
  function DecodeLine(line: string): (r: Result<Option<DecodedInstruction>>)
    ensures IsSkippedLine(line) ==> r == Ok(None)
    ensures r.Ok? && r.value.Some? ==>
      r.value.value.original == CleanInstruction(line) && r.value.value.machineCode < Pow2(32)
  {
    if IsSkippedLine(line) then Ok(None) else Decode(Strip(line))
  }

  /** What one line contributes: an instruction, nothing, or the error it raises. */
  type Outcome = Result<Option<DecodedInstruction>>

  /** Put a line's outcome in front of the outcome of the lines after it; the earlier error wins. */
  function Prepend(head: Outcome, rest: Result<seq<DecodedInstruction>>): (r: Result<seq<DecodedInstruction>>)
    ensures head.Err? ==> r == Err(head.message)
    ensures head == Ok(None) ==> r == rest
  {
    match head
    case Err(e) => Err(e)
    case Ok(None) => rest
    case Ok(Some(d)) => if rest.Ok? then Ok([d] + rest.value) else rest
  }

  /** The instructions of a run of outcomes, in order, or the first error among them. */
  function Collect(outcomes: seq<Outcome>): Result<seq<DecodedInstruction>> {
    if |outcomes| == 0 then Ok([]) else Prepend(outcomes[0], Collect(outcomes[1..]))
  }

  /** `f` applied to each element of `s`, position by position. */
  function Map<A, B>(f: A -> B, s: seq<A>): (r: seq<B>)
    ensures |r| == |s|
    ensures forall i :: 0 <= i < |s| ==> r[i] == f(s[i])
  {
    seq(|s|, i requires 0 <= i < |s| => f(s[i]))
  }

  lemma MapAppend<A, B>(f: A -> B, a: seq<A>, b: seq<A>)
    ensures Map(f, a + b) == Map(f, a) + Map(f, b)
  {
    var m, ma, mb := Map(f, a + b), Map(f, a), Map(f, b);
    assert forall k :: 0 <= k < |m| ==> m[k] == (ma + mb)[k];
  }

  lemma MapAround<A, B>(f: A -> B, s: seq<A>, i: nat)
    requires i < |s|
    ensures Map(f, s[..i]) == Map(f, s)[..i] && Map(f, s[i + 1..]) == Map(f, s)[i + 1..]
  {
    var front, back, m := Map(f, s[..i]), Map(f, s[i + 1..]), Map(f, s);
    assert forall k :: 0 <= k < |front| ==> front[k] == m[..i][k];
    assert forall k :: 0 <= k < |back| ==> back[k] == m[i + 1..][k];
  }

  /** The outcome of each line of a program, position by position. */
  function LineOutcomes(lines: seq<string>): seq<Outcome> {
    Map(DecodeLine, lines)
  }

  /**
   * The decoded instructions of `lines`, in order: skipped lines and lines
   * `decode` does not recognise contribute nothing; the first raising line
   * raises for the whole program.
   */
  function DecodeLines(lines: seq<string>): Result<seq<DecodedInstruction>> {
    Collect(LineOutcomes(lines))
  }

  /** The instructions decoded so far in front of the outcome of the remaining lines. */
  function Concat(done: seq<DecodedInstruction>, rest: Result<seq<DecodedInstruction>>): Result<seq<DecodedInstruction>> {
    if rest.Ok? then Ok(done + rest.value) else rest
  }

  /** The outcome of two runs one after the other: the first run's error, or its instructions before the second's outcome. */
  function Then(first: Result<seq<DecodedInstruction>>, second: Result<seq<DecodedInstruction>>): Result<seq<DecodedInstruction>> {
    if first.Err? then first else Concat(first.value, second)
  }

  /** Collecting a run split in two is collecting each part and putting the first part's result in front. */
  lemma {:induction false} CollectAppend(a: seq<Outcome>, b: seq<Outcome>)
    ensures Collect(a + b) == Then(Collect(a), Collect(b))
  {
    if |a| == 0 {
      assert a + b == b;
      ConcatEmpty(Collect(b));
    } else {
      assert (a + b)[1..] == a[1..] + b;
      CollectAppend(a[1..], b);
      PrependThen(a[0], Collect(a[1..]), Collect(b));
    }
  }

  lemma ConcatEmpty(r: Result<seq<DecodedInstruction>>)
    ensures Concat([], r) == r
  {
    if r.Ok? {
      assert [] + r.value == r.value;
    }
  }

  lemma PrependThen(head: Outcome, first: Result<seq<DecodedInstruction>>, second: Result<seq<DecodedInstruction>>)
    ensures Prepend(head, Then(first, second)) == Then(Prepend(head, first), second)
  {
    if head.Ok? && head.value.Some? && first.Ok? && second.Ok? {
      var d := head.value.value;
      assert [d] + (first.value + second.value) == ([d] + first.value) + second.value;
    }
  }

  /** What a single outcome contributes to the instructions. */
  function Kept(outcome: Outcome): seq<DecodedInstruction>
    requires outcome.Ok?
  {
    if outcome.value.Some? then [outcome.value.value] else []
  }

  /** A run raises exactly when one of its outcomes does. */
  lemma {:induction false} CollectErr(outcomes: seq<Outcome>)
    ensures Collect(outcomes).Err? <==> exists i :: 0 <= i < |outcomes| && outcomes[i].Err?
  {
    if |outcomes| > 0 {
      CollectErr(outcomes[1..]);
      if Collect(outcomes[1..]).Err? {
        var i :| 0 <= i < |outcomes[1..]| && outcomes[1..][i].Err?;
        assert outcomes[i + 1].Err?;
      }
      if exists i :: 0 <= i < |outcomes| && outcomes[i].Err? {
        var i :| 0 <= i < |outcomes| && outcomes[i].Err?;
        if i > 0 {
          assert outcomes[1..][i - 1].Err?;
        }
      }
    }
  }

  /**
   * When a run does not raise, its instructions are those of the outcomes
   * before position `i`, then what outcome `i` keeps, then those after it:
   * every decoded outcome is kept, in order, and nothing else.
   */
  lemma CollectAt(outcomes: seq<Outcome>, i: nat)
    requires i < |outcomes| && Collect(outcomes).Ok?
    ensures outcomes[i].Ok? && Collect(outcomes[..i]).Ok? && Collect(outcomes[i + 1..]).Ok?
    ensures Collect(outcomes).value == Collect(outcomes[..i]).value + Kept(outcomes[i]) + Collect(outcomes[i + 1..]).value
  {
    var front, back, rest := outcomes[..i], outcomes[i..], outcomes[i + 1..];
    assert outcomes == front + back;
    CollectAppend(front, back);
    assert back[1..] == rest;
    ThenValue(Collect(front), Collect(back));
    PrependKept(outcomes[i], Collect(rest));
    var x, y, z := Collect(front).value, Kept(outcomes[i]), Collect(rest).value;
    assert x + (y + z) == x + y + z;
  }

  lemma ThenValue(first: Result<seq<DecodedInstruction>>, second: Result<seq<DecodedInstruction>>)
    requires Then(first, second).Ok?
    ensures first.Ok? && second.Ok? && Then(first, second).value == first.value + second.value
  {
  }

  /** A prepended outcome that does not raise is the head's contribution before the rest's instructions. */
  lemma PrependKept(head: Outcome, rest: Result<seq<DecodedInstruction>>)
    ensures Prepend(head, rest).Ok? ==>
      head.Ok? && rest.Ok? && Prepend(head, rest).value == Kept(head) + rest.value
  {
    if head == Ok(None) && rest.Ok? {
      assert [] + rest.value == rest.value;
    }
  }

  /** A run that does not raise keeps at most one instruction per outcome, each one an outcome's. */
  lemma {:induction false} CollectSound(outcomes: seq<Outcome>)
    ensures Collect(outcomes).Ok? ==> |Collect(outcomes).value| <= |outcomes|
    ensures Collect(outcomes).Ok? ==> forall d :: d in Collect(outcomes).value ==>
      exists i :: 0 <= i < |outcomes| && outcomes[i] == Ok(Some(d))
  {
    if |outcomes| > 0 && Collect(outcomes).Ok? {
      var rest := outcomes[1..];
      CollectSound(rest);
      PrependKept(outcomes[0], Collect(rest));
      forall d | d in Collect(outcomes).value
        ensures exists i :: 0 <= i < |outcomes| && outcomes[i] == Ok(Some(d))
      {
        if outcomes[0] != Ok(Some(d)) {
          var i :| 0 <= i < |rest| && rest[i] == Ok(Some(d));
          assert outcomes[i + 1] == rest[i];
        }
      }
    }
  }

  /** The first raising line of a program is where it raises; the lines after it are never looked at. */
  lemma CollectFirstErr(outcomes: seq<Outcome>, i: nat)
    requires i < |outcomes| && outcomes[i].Err?
    requires forall k :: 0 <= k < i ==> outcomes[k].Ok?
    ensures Collect(outcomes) == Err(outcomes[i].message)
  {
    var front, rest := outcomes[..i], outcomes[i..];
    assert outcomes == front + rest;
    CollectAppend(front, rest);
    CollectErr(front);
  }

  /** A program decodes line by line: decoding `a + b` is decoding `a`, then, unless it raised, `b`. */
  lemma DecodeLinesAppend(a: seq<string>, b: seq<string>)
    ensures DecodeLines(a + b) == Then(DecodeLines(a), DecodeLines(b))
  {
    MapAppend(DecodeLine, a, b);
    CollectAppend(LineOutcomes(a), LineOutcomes(b));
  }

  lemma LineKept(line: string, d: DecodedInstruction)
    requires DecodeLine(line) == Ok(Some(d))
    ensures !IsSkippedLine(line)
  {
  }

  /**
   * What `decode_program` returns is at most one instruction per line, and each
   * is what `decode` makes of a line that is not skipped.
   */
  lemma DecodeLinesSound(lines: seq<string>)
    ensures DecodeLines(lines).Ok? ==> |DecodeLines(lines).value| <= |lines|
    ensures DecodeLines(lines).Ok? ==> forall d :: d in DecodeLines(lines).value ==>
      exists i :: 0 <= i < |lines| && !IsSkippedLine(lines[i]) && DecodeLine(lines[i]) == Ok(Some(d))
  {
    var o := LineOutcomes(lines);
    CollectSound(o);
    if DecodeLines(lines).Ok? {
      forall d | d in DecodeLines(lines).value
        ensures exists i :: 0 <= i < |lines| && !IsSkippedLine(lines[i]) && DecodeLine(lines[i]) == Ok(Some(d))
      {
        var i :| 0 <= i < |o| && o[i] == Ok(Some(d));
        LineKept(lines[i], d);
      }
    }
  }

  /** A program raises exactly when one of its lines does. */
  lemma DecodeLinesRaises(lines: seq<string>)
    ensures DecodeLines(lines).Err? <==> exists i :: 0 <= i < |lines| && DecodeLine(lines[i]).Err?
  {
    var o := LineOutcomes(lines);
    CollectErr(o);
    if exists i :: 0 <= i < |lines| && DecodeLine(lines[i]).Err? {
      var i :| 0 <= i < |lines| && DecodeLine(lines[i]).Err?;
      assert o[i].Err?;
    }
  }

  /**
   * In a program that does not raise, line `i` contributes exactly what
   * `decode` makes of it, after the instructions of the lines before it and
   * before those of the lines after it.
   */
  lemma DecodeLinesAt(lines: seq<string>, i: nat)
    requires i < |lines| && DecodeLines(lines).Ok?
    ensures DecodeLine(lines[i]).Ok? && DecodeLines(lines[..i]).Ok? && DecodeLines(lines[i + 1..]).Ok?
    ensures DecodeLines(lines).value ==
      DecodeLines(lines[..i]).value + Kept(DecodeLine(lines[i])) + DecodeLines(lines[i + 1..]).value
  {
    var o := LineOutcomes(lines);
    CollectAt(o, i);
    MapAround(DecodeLine, lines, i);
  }

  /** One more outcome consumed: it moves from the remaining run onto the instructions collected so far. */
  lemma CollectStep(done: seq<DecodedInstruction>, outcomes: seq<Outcome>, i: nat)
    requires i < |outcomes|
    ensures var head := outcomes[i];
      Concat(done, Collect(outcomes[i..])) ==
        if head.Err? then Err(head.message)
        else if head.value.None? then Concat(done, Collect(outcomes[i + 1..]))
        else Concat(done + [head.value.value], Collect(outcomes[i + 1..]))
  {
    assert outcomes[i..][1..] == outcomes[i + 1..];
    var rest := Collect(outcomes[i + 1..]);
    if rest.Ok? && outcomes[i].Ok? && outcomes[i].value.Some? {
      var d := outcomes[i].value.value;
      assert done + ([d] + rest.value) == (done + [d]) + rest.value;
    }
  }

  /** `decode_program`: decode every line of `code` in order and keep the recognised ones. */
  method DecodeProgram(code: string) returns (r: Result<seq<DecodedInstruction>>)
    ensures r == DecodeLines(Split(code, '\n'))
  {
    var lines := Split(code, '\n');
    ghost var outcomes := LineOutcomes(lines);
    var decoded: seq<DecodedInstruction> := [];
    var i := 0;
    assert outcomes[0..] == outcomes;
    ConcatEmpty(Collect(outcomes));
    while i < |lines|
      invariant 0 <= i <= |lines|
      invariant DecodeLines(lines) == Concat(decoded, Collect(outcomes[i..]))
    {
      CollectStep(decoded, outcomes, i);
      var line := Strip(lines[i]);
      if |line| == 0 || StartsWith(line, "#") || StartsWith(line, ".") {
        i := i + 1;
        continue;
      }
      var result := Decode(line);
      assert result == outcomes[i];
      if result.Err? {
        return Err(result.message);
      }
      if result.value.Some? {
        decoded := decoded + [result.value.value];
      }
      i := i + 1;
    }
    assert decoded + [] == decoded;
    r := Ok(decoded);
  }
}
