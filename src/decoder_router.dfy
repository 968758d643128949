/**
 * The decoder endpoints: a decoded instruction is turned into its response
 * record, with one entry per field, a description of every field and the
 * machine word's binary spelling cut into the format's fields.
 */
module DecoderRouter {
  import opened Wrappers
  import opened Text
  import opened Schemas
  import opened InstructionDecoder

  datatype FieldResponse = FieldResponse(name: string, value: nat, binary: string, description: string)

  datatype InstructionResponse = InstructionResponse(
    original: string,
    format: string,
    opcode: nat,
    opcodeBinary: string,
    fields: seq<FieldResponse>,
    machineCodeHex: string,
    machineCodeBinary: string,
    machineCodeBinaryFormatted: string,
    description: string)

  datatype DecodeInstructionResponse = DecodeInstructionResponse(success: bool, instruction: Option<InstructionResponse>, error: Option<string>)

  datatype DecodeProgramResponse = DecodeProgramResponse(
    success: bool, instructions: seq<InstructionResponse>, totalInstructions: nat, error: Option<string>)

  /** `InstructionFormat.value`. */
  function FormatValue(f: InstructionFormat): string {
    match f
    case RType => "R"
    case IType => "I"
    case JType => "J"
  }

  // ---------------------------------------------------------------------
  // Binary with field separators
  // ---------------------------------------------------------------------

  /** `_format_binary_with_separators`: a 32-digit word cut into its format's fields, anything else as it is. */
  function SeparatedBinary(binary: string, format: InstructionFormat): string {
    if |binary| != 32 then binary
    else match format
      case RType =>
        binary[0..6] + " | " + binary[6..11] + " | " + binary[11..16] + " | "
        + binary[16..21] + " | " + binary[21..26] + " | " + binary[26..32]
      case IType => binary[0..6] + " | " + binary[6..11] + " | " + binary[11..16] + " | " + binary[16..32]
      case JType => binary[0..6] + " | " + binary[6..32]
  }

  /** The field widths of each format, most significant field first. */
  function FieldWidths(format: InstructionFormat): seq<nat> {
    match format
    case RType => [6, 5, 5, 5, 5, 6]
    case IType => [6, 5, 5, 16]
    case JType => [6, 26]
  }

  /** Where each format's fields begin, and where the last one ends. */
  function Cuts(format: InstructionFormat): (r: seq<nat>)
    ensures |r| == |FieldWidths(format)| + 1 && r[0] == 0 && r[|r| - 1] == 32
    ensures forall k :: 0 <= k < |r| - 1 ==> r[k] + FieldWidths(format)[k] == r[k + 1]
    ensures forall i, j :: 0 <= i <= j < |r| ==> r[i] <= r[j]
  {
    match format
    case RType => [0, 6, 11, 16, 21, 26, 32]
    case IType => [0, 6, 11, 16, 32]
    case JType => [0, 6, 32]
  }

  /** `s` cut at the given positions. */
  function Pieces(s: string, cuts: seq<nat>): (r: seq<string>)
    requires |cuts| >= 1 && cuts[|cuts| - 1] <= |s|
    requires forall i, j :: 0 <= i <= j < |cuts| ==> cuts[i] <= cuts[j]
    ensures |r| == |cuts| - 1
  {
    seq(|cuts| - 1, k requires 0 <= k < |cuts| - 1 => s[cuts[k]..cuts[k + 1]])
  }

  function Flatten(pieces: seq<string>): string {
    if |pieces| == 0 then "" else pieces[0] + Flatten(pieces[1..])
  }

  /** `Join` with one piece more on the right. */
  lemma {:induction false} JoinSnoc(ps: seq<string>, sep: string)
    requires |ps| >= 2
    ensures Join(ps, sep) == Join(ps[..|ps| - 1], sep) + sep + ps[|ps| - 1]
    decreases |ps|
  {
    if |ps| > 2 {
      JoinSnoc(ps[1..], sep);
      assert ps[1..][..|ps| - 2] == ps[..|ps| - 1][1..];
    } else {
      assert ps[..1][0] == ps[0];
    }
  }

  /**
   * The separated word is the word cut at the format's field boundaries and
   * joined by `" | "`: the fields have the format's widths, in order.
   */
  lemma SeparatedByFields(binary: string, format: InstructionFormat)
    requires |binary| == 32
    ensures var ps := Pieces(binary, Cuts(format));
      SeparatedBinary(binary, format) == Join(ps, " | ")
      && |ps| == |FieldWidths(format)| && forall k :: 0 <= k < |ps| ==> |ps[k]| == FieldWidths(format)[k]
  {
    match format
    case RType => SeparatedR(binary);
    case IType => SeparatedI(binary);
    case JType => SeparatedJ(binary);
  }

  lemma SeparatedR(binary: string)
    requires |binary| == 32
    ensures SeparatedBinary(binary, RType) == Join(Pieces(binary, Cuts(RType)), " | ")
  {
    var ps := Pieces(binary, Cuts(RType));
    var sep := " | ";
    assert ps == [binary[0..6], binary[6..11], binary[11..16], binary[16..21], binary[21..26], binary[26..32]];
    JoinSnoc(ps, sep);
    JoinSnoc(ps[..5], sep);
    JoinSnoc(ps[..4], sep);
    JoinSnoc(ps[..3], sep);
    JoinSnoc(ps[..2], sep);
    assert ps[..5][..4] == ps[..4] && ps[..4][..3] == ps[..3] && ps[..3][..2] == ps[..2] && ps[..2][..1] == ps[..1];
  }

  lemma SeparatedI(binary: string)
    requires |binary| == 32
    ensures SeparatedBinary(binary, IType) == Join(Pieces(binary, Cuts(IType)), " | ")
  {
    var ps := Pieces(binary, Cuts(IType));
    var sep := " | ";
    assert ps == [binary[0..6], binary[6..11], binary[11..16], binary[16..32]];
    JoinSnoc(ps, sep);
    JoinSnoc(ps[..3], sep);
    JoinSnoc(ps[..2], sep);
    assert ps[..3][..2] == ps[..2] && ps[..2][..1] == ps[..1];
  }

  lemma SeparatedJ(binary: string)
    requires |binary| == 32
    ensures SeparatedBinary(binary, JType) == Join(Pieces(binary, Cuts(JType)), " | ")
  {
    var ps := Pieces(binary, Cuts(JType));
    assert ps == [binary[0..6], binary[6..32]];
    JoinSnoc(ps, " | ");
  }

  /** Remove every `" | "`, scanning left to right. */
  function RemoveSeparators(s: string): string
    decreases |s|
  {
    if |s| == 0 then ""
    else if StartsWith(s, " | ") then RemoveSeparators(s[3..])
    else [s[0]] + RemoveSeparators(s[1..])
  }

  lemma {:induction false} RemoveAfterPiece(p: string, rest: string)
    requires ' ' !in p
    ensures RemoveSeparators(p + rest) == p + RemoveSeparators(rest)
    decreases |p|
  {
    if |p| > 0 {
      var s := p + rest;
      assert s[0] == p[0];
      assert s[1..] == p[1..] + rest;
      RemoveAfterPiece(p[1..], rest);
      assert p == [p[0]] + p[1..];
    } else {
      assert p + rest == rest;
    }
  }

  lemma {:induction false} RemoveFromJoin(pieces: seq<string>)
    requires forall k :: 0 <= k < |pieces| ==> ' ' !in pieces[k]
    ensures RemoveSeparators(Join(pieces, " | ")) == Flatten(pieces)
    decreases |pieces|
  {
    if |pieces| == 1 {
      RemoveAfterPiece(pieces[0], "");
      assert pieces[0] + "" == pieces[0];
      assert Flatten(pieces[1..]) == "";
    } else if |pieces| > 1 {
      var rest := Join(pieces[1..], " | ");
      assert Join(pieces, " | ") == pieces[0] + (" | " + rest);
      RemoveAfterPiece(pieces[0], " | " + rest);
      assert (" | " + rest)[3..] == rest;
      RemoveFromJoin(pieces[1..]);
    }
  }

  lemma {:induction false} PiecesFlatten(s: string, cuts: seq<nat>)
    requires |cuts| >= 1 && cuts[|cuts| - 1] <= |s|
    requires forall i, j :: 0 <= i <= j < |cuts| ==> cuts[i] <= cuts[j]
    ensures Flatten(Pieces(s, cuts)) == s[cuts[0]..cuts[|cuts| - 1]]
    decreases |cuts|
  {
    if |cuts| > 1 {
      var rest := cuts[1..];
      PiecesFlatten(s, rest);
      assert Pieces(s, cuts)[1..] == Pieces(s, rest);
      var e := cuts[|cuts| - 1];
      assert s[cuts[0]..e] == s[cuts[0]..cuts[1]] + s[cuts[1]..e];
    }
  }

  /** Deleting the separators gives back the word, for any word without blanks. */
  lemma SeparatorsRemoved(binary: string, format: InstructionFormat)
    requires ' ' !in binary
    ensures RemoveSeparators(SeparatedBinary(binary, format)) == binary
  {
    if |binary| != 32 {
      RemoveAfterPiece(binary, "");
      assert binary + "" == binary;
    } else {
      SeparatedByFields(binary, format);
      var cuts := Cuts(format);
      var ps := Pieces(binary, cuts);
      assert forall k :: 0 <= k < |ps| ==> ' ' !in ps[k];
      RemoveFromJoin(ps);
      PiecesFlatten(binary, cuts);
      assert binary[0..32] == binary;
    }
  }

  // ---------------------------------------------------------------------
  // Field descriptions
  // ---------------------------------------------------------------------

  predicate IsRegisterField(name: string) {
    name == "rs" || name == "rt" || name == "rd"
  }

  /** `_get_field_description`. */
  function FieldDescription(name: string, value: nat): string {
    var d := NatToDecimal(value);
    if IsRegisterField(name) then
      if value < |MipsRegisters| then Upper(name) + " = " + MipsRegisters[value] + " (register " + d + ")"
      else Upper(name) + " = register " + d
    else if name == "shamt" then "Shift amount = " + d
    else if name == "funct" then "Function code = " + d
    else if name == "immediate" then "Immediate value = " + d + " (0x" + FormatHex(value, 4, true) + ")"
    else if name == "address" then "Jump target = " + d + " (0x" + FormatHex(value, 7, true) + ")"
    else name + " = " + d
  }

  /**
   * A register field in range is described by the register whose number
   * it holds, the same name the assembler side reads back as that number.
   */
  lemma RegisterDescribed(name: string, value: nat)
    requires IsRegisterField(name) && value < 32
    ensures var reg := MipsRegisters[value];
      FieldDescription(name, value) == Upper(name) + " = " + reg + " (register " + NatToDecimal(value) + ")"
      && RegisterNumber(reg) == value
  {
    RegisterNumbers(value);
  }

  /** A decimal spelling reads back as the value. */
  lemma DecimalReads(value: nat)
    ensures ParseInt(NatToDecimal(value)) == Some(value)
  {
    ParseIntDecimal(value);
    assert IntToDecimal(value) == NatToDecimal(value);
  }

  /** An immediate's description gives the value twice, in decimal and in 4-digit hexadecimal, and both read back. */
  lemma ImmediateDescribed(value: nat)
    ensures FieldDescription("immediate", value)
      == "Immediate value = " + NatToDecimal(value) + " (0x" + FormatHex(value, 4, true) + ")"
    ensures ParseInt(NatToDecimal(value)) == Some(value) && ParseHex("0x" + FormatHex(value, 4, true)) == Some(value)
  {
    assert !IsRegisterField("immediate") && "immediate" != "shamt" && "immediate" != "funct";
    DecimalReads(value);
    ParseHexFormatted(value, 4, true, true);
  }

  /** A jump target's description gives the value twice, in decimal and in 7-digit hexadecimal, and both read back. */
  lemma TargetDescribed(value: nat)
    ensures FieldDescription("address", value)
      == "Jump target = " + NatToDecimal(value) + " (0x" + FormatHex(value, 7, true) + ")"
    ensures ParseInt(NatToDecimal(value)) == Some(value) && ParseHex("0x" + FormatHex(value, 7, true)) == Some(value)
  {
    assert !IsRegisterField("address") && "address" != "shamt" && "address" != "funct" && "address" != "immediate";
    DecimalReads(value);
    ParseHexFormatted(value, 7, true, true);
  }

  // ---------------------------------------------------------------------
  // Responses
  // ---------------------------------------------------------------------

  function FieldResponseOf(f: Field): FieldResponse {
    FieldResponse(f.0, f.1.0, f.1.1, FieldDescription(f.0, f.1.0))
  }

  function FieldResponses(fields: seq<Field>): (r: seq<FieldResponse>)
    ensures |r| == |fields|
  {
    if |fields| == 0 then [] else FieldResponses(fields[..|fields| - 1]) + [FieldResponseOf(fields[|fields| - 1])]
  }

  /** The response record of one decoded instruction. */
  function Converted(d: DecodedInstruction): InstructionResponse {
    InstructionResponse(
      d.original, FormatValue(d.format), d.opcode, d.opcodeBin, FieldResponses(d.fields),
      d.machineCodeHex, d.machineCodeBin, SeparatedBinary(d.machineCodeBin, d.format), d.description)
  }

  lemma {:induction false} FieldResponsesAt(fields: seq<Field>, k: nat)
    requires k < |fields|
    ensures FieldResponses(fields)[k] == FieldResponseOf(fields[k])
    decreases |fields|
  {
    if k < |fields| - 1 {
      assert fields[..|fields| - 1][k] == fields[k];
      FieldResponsesAt(fields[..|fields| - 1], k);
    }
  }

  /**
   * One field response per decoded field, in the same order, each with the
   * field's name, value and binary spelling; and the separated word is the
   * machine word once its separators are deleted.
   */
  lemma ConvertedFaithful(d: DecodedInstruction)
    requires ' ' !in d.machineCodeBin
    ensures var r := Converted(d);
      |r.fields| == |d.fields|
      && (forall k :: 0 <= k < |d.fields| ==>
            r.fields[k].name == d.fields[k].0 && r.fields[k].value == d.fields[k].1.0
            && r.fields[k].binary == d.fields[k].1.1
            && r.fields[k].description == FieldDescription(d.fields[k].0, d.fields[k].1.0))
      && RemoveSeparators(r.machineCodeBinaryFormatted) == r.machineCodeBinary == d.machineCodeBin
  {
    forall k | 0 <= k < |d.fields|
      ensures FieldResponses(d.fields)[k] == FieldResponseOf(d.fields[k])
    {
      FieldResponsesAt(d.fields, k);
    }
    SeparatorsRemoved(d.machineCodeBin, d.format);
  }

  /** `_convert_decoded_to_response`: the field loop, then the record. */
  method ConvertDecodedToResponse(d: DecodedInstruction) returns (r: InstructionResponse)
    ensures r == Converted(d)
  {
    var fields: seq<FieldResponse> := [];
    var i := 0;
    while i < |d.fields|
      invariant 0 <= i <= |d.fields|
      invariant fields == FieldResponses(d.fields[..i])
    {
      var f := d.fields[i];
      fields := fields + [FieldResponse(f.0, f.1.0, f.1.1, FieldDescription(f.0, f.1.0))];
      assert d.fields[..i + 1][..i] == d.fields[..i];
      i := i + 1;
    }
    assert d.fields[..i] == d.fields;
    var formatted := SeparatedBinary(d.machineCodeBin, d.format);
    r := InstructionResponse(
      d.original, FormatValue(d.format), d.opcode, d.opcodeBin, fields,
      d.machineCodeHex, d.machineCodeBin, formatted, d.description);
  }

  /** `POST /api/decode/instruction`: the decoded record, or why there is none. */
  method DecodeInstructionEndpoint(instruction: string) returns (r: DecodeInstructionResponse)
    requires |instruction| >= 1
    ensures r.success <==> Decode(instruction).Ok? && Decode(instruction).value.Some?
    ensures r.success ==> r.instruction == Some(Converted(Decode(instruction).value.value)) && r.error.None?
    ensures Decode(instruction) == Ok(None) ==>
      r.instruction.None? && r.error == Some("Could not decode instruction: " + instruction)
    ensures Decode(instruction).Err? ==>
      r.instruction.None? && r.error == Some("Decoder error: " + Decode(instruction).message)
  {
    var decoded := Decode(instruction);
    if decoded.Err? {
      return DecodeInstructionResponse(false, None, Some("Decoder error: " + decoded.message));
    }
    if decoded.value.None? {
      return DecodeInstructionResponse(false, None, Some("Could not decode instruction: " + instruction));
    }
    var response := ConvertDecodedToResponse(decoded.value.value);
    r := DecodeInstructionResponse(true, Some(response), None);
  }

  /** The list comprehension over the decoded instructions. */
  method ConvertAll(ds: seq<DecodedInstruction>) returns (responses: seq<InstructionResponse>)
    ensures |responses| == |ds| && forall k :: 0 <= k < |ds| ==> responses[k] == Converted(ds[k])
  {
    responses := [];
    var i := 0;
    while i < |ds|
      invariant 0 <= i <= |ds| && |responses| == i
      invariant forall k :: 0 <= k < i ==> responses[k] == Converted(ds[k])
    {
      var response := ConvertDecodedToResponse(ds[i]);
      responses := responses + [response];
      i := i + 1;
    }
  }

  /**
   * `POST /api/decode/program`: success with one response per decoded
   * instruction, in program order, or failure with no instructions and a
   * total of 0 when decoding raised or found nothing.
   */
  method DecodeProgramEndpoint(code: string) returns (r: DecodeProgramResponse)
    requires |code| >= 1
    ensures r.totalInstructions == |r.instructions|
    ensures var ds := DecodeLines(Split(code, '\n'));
      r.success <==> ds.Ok? && |ds.value| > 0
    ensures var ds := DecodeLines(Split(code, '\n'));
      r.success ==>
        |r.instructions| == |ds.value| && r.error.None?
        && forall k :: 0 <= k < |ds.value| ==> r.instructions[k] == Converted(ds.value[k])
    ensures !r.success ==> r.instructions == [] && r.error.Some?
    ensures var ds := DecodeLines(Split(code, '\n'));
      ds.Err? ==> r.error == Some("Decoder error: " + ds.message)
    ensures DecodeLines(Split(code, '\n')) == Ok([]) ==>
      r.error == Some("No valid instructions found in program")
  {
    var decoded := DecodeProgram(code);
    if decoded.Err? {
      return DecodeProgramResponse(false, [], 0, Some("Decoder error: " + decoded.message));
    }
    var ds := decoded.value;
    if |ds| == 0 {
      return DecodeProgramResponse(false, [], 0, Some("No valid instructions found in program"));
    }
    var responses := ConvertAll(ds);
    r := DecodeProgramResponse(true, responses, |responses|, None);
  }
}
