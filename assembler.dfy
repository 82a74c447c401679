/**
 * The front end of assembler.py: the opcode and register tables, the line
 * validator, the split of cleaned lines into raw instructions and tags, and
 * the lowering of those into intermediate instructions.
 */
module Assembler {
  import opened Common
  import opened Binary
  import opened Text

  // ---------------------------------------------------------------------------
  // Constants

  const MemOpcode: string := "000"
  const AddOpcode: string := "001"
  const AndOpcode: string := "010"
  const XorOpcode: string := "011"
  const RolOpcode: string := "100"
  const BeqOpcode: string := "101"
  const SetOpcode: string := "110"
  const MovOpcode: string := "111"

  /** The eight primitive opcodes in the order the source declares them. */
  const Opcodes: seq<string> :=
    [MemOpcode, AddOpcode, AndOpcode, XorOpcode, RolOpcode, BeqOpcode, SetOpcode, MovOpcode]

  /** R7 holds the immediates and addresses the assembler loads. */
  const ReservedRegisterName: string := "R7"

  const SupportedRegisters: seq<string> :=
    ["R0", "R1", "R2", "R3", "R4", "R5", "R6", ReservedRegisterName]

  const MultiInstructions: seq<string> := ["ADD", "SUB", "AND", "XOR", "ROL", "ROR", "LSL", "LSR", "MOV"]
  const RegisterOnlyInstructions: seq<string> := []
  const ImmediateOnlyInstructions: seq<string> := []
  const MemoryInstructions: seq<string> := ["LDR", "STR"]
  const BranchInstructions: seq<string> := ["BEQ"]

  /** tag_map: meant to map tag names to line numbers; nothing in the front end ever writes it. */
  const TagMap: map<string, nat> := map[]

  /** Opcode i is the 3-digit binary of i, so the eight opcodes are distinct. */
  lemma OpcodesAreIndices()
    ensures |Opcodes| == 8
    ensures forall i :: 0 <= i < 8 ==> |Opcodes[i]| == 3 && IsBinary(Opcodes[i]) && Value(Opcodes[i]) == i
    ensures forall i, j :: 0 <= i < j < 8 ==> Opcodes[i] != Opcodes[j]
  {
    forall i | 0 <= i < 8
      ensures |Opcodes[i]| == 3 && IsBinary(Opcodes[i]) && Value(Opcodes[i]) == i
    {
      ValueOfThree(Opcodes[i]);
    }
  }

  lemma ValueOfThree(s: string)
    requires |s| == 3
    ensures Value(s) == 4 * DigitValue(s[0]) + 2 * DigitValue(s[1]) + DigitValue(s[2])
  {
    var a := [s[0]];
    var b := a + [s[1]];
    assert s == b + [s[2]];
    ValueSnoc(b, s[2]);
    ValueSnoc(a, s[1]);
    ValueSnoc([], s[0]);
    assert [] + [s[0]] == a;
  }

  /** Register i is named "R" followed by the digit i; the reserved R7 comes last. */
  lemma RegistersAreNumbered()
    ensures |SupportedRegisters| == 8 && SupportedRegisters[7] == ReservedRegisterName
    ensures forall i :: 0 <= i < 8 ==> SupportedRegisters[i] == "R" + Decimal(i)
    ensures forall i, j :: 0 <= i < j < 8 ==> SupportedRegisters[i] != SupportedRegisters[j]
  {
  }

  // ---------------------------------------------------------------------------
  // Source artifacts and intermediate instructions

  /** One instruction line, split into its tokens; the tag is present only when the line has a fourth token. */
  datatype RawInstruction = RawInstruction(mnemonic: string, operand1: string, operand2: string, tagname: Option<string>)

  /** What a cleaned line becomes: an instruction or a tag declaration. */
  datatype SourceArtifact =
    | Instruction(raw: RawInstruction)
    | Tag(name: string)

  /**
   * The intermediate forms. The branch form carries the tag name it is built
   * with (the source passes it as `tagname=` to a class whose field is named
   * dest_addr); the tag form carries only the name (the source builds it
   * without the inherited mnemonic). The TypeErrors those two constructor
   * calls raise are modelled in LowerArtifactAsWritten.
   */
  datatype IntermediateInstruction =
    | RegisterIntermediate(mnemonic: string, destReg: string, srcReg: string)
    | ImmediateIntermediate(mnemonic: string, destReg: string, imm: nat)
    | MemoryIntermediate(mnemonic: string, isLoad: bool, destReg: string, addr: nat)
    | BranchIntermediate(mnemonic: string, operandReg1: string, operandReg2: string, tagname: string)
    | TagIntermediate(tagname: string)

  // ---------------------------------------------------------------------------
  // is_valid_instruction

  /** An immediate operand: '#' followed by one or more digits (startswith('#') and [1:].isnumeric()). */
  predicate IsImmediateToken(t: string)
  {
    StartsWith(t, "#") && IsNumeric(DropFirst(t))
  }

  /** The body of is_valid_instruction after its guard: the operand shapes each mnemonic class admits. */
  predicate ShapeAccepted(mnemonic: string, operand1: string, operand2: string)
  {
    if mnemonic in MultiInstructions then
      if operand1 in SupportedRegisters && operand2 in SupportedRegisters then true
      else if operand1 in SupportedRegisters && IsImmediateToken(operand2) then true
      else false
    else if mnemonic in RegisterOnlyInstructions then
      operand1 in SupportedRegisters && operand2 in SupportedRegisters
    else if mnemonic in ImmediateOnlyInstructions then
      operand1 in SupportedRegisters && IsImmediateToken(operand2)
    else false
  }

  /** tokens[k]; the guard below makes every use of it unreachable, so the fallback is never seen. */
  function TokenAt(tokens: seq<string>, k: int): string
  {
    if 0 <= k < |tokens| then tokens[k] else ""
  }

  /** is_valid_instruction as written: its guard `len != 3 or len != 4` holds for every length. */
  predicate IsValidInstruction(tokens: seq<string>)
  {
    if |tokens| != 3 || |tokens| != 4 || StartsWith(TokenAt(tokens, 0), "@") then false
    else ShapeAccepted(TokenAt(tokens, 0), TokenAt(tokens, 1), TokenAt(tokens, 2))
  }

  /** is_valid_instruction with the guard rejecting only lengths other than 3 and 4. */
  predicate IsValidInstructionCorrected(tokens: seq<string>)
  {
    if (|tokens| != 3 && |tokens| != 4) || StartsWith(tokens[0], "@") then false
    else ShapeAccepted(tokens[0], tokens[1], tokens[2])
  }

  /** Which validator the line parser calls: the source's own, or the one with the corrected guard. */
  datatype Guard = AsWritten | Corrected

  predicate Accepts(g: Guard, tokens: seq<string>)
    ensures Accepts(g, tokens) ==> 3 <= |tokens| <= 4
  {
    match g
    case AsWritten => IsValidInstruction(tokens)
    case Corrected => IsValidInstructionCorrected(tokens)
  }

  /** The validator as written rejects every token list. */
  lemma IsValidInstructionNeverHolds(tokens: seq<string>)
    ensures !IsValidInstruction(tokens)
  {
  }

  /** The well-formed line `ADD R1 R2` splits into three tokens. */
  lemma SplitOfWellFormedLine()
    ensures Split("ADD R1 R2") == ["ADD", "R1", "R2"]
  {
    assert "ADD R1 R2" == "ADD" + " " + "R1" + " " + "R2";
    SplitThree("ADD", "R1", "R2");
  }

  /** The well-formed line `ADD R1 R2` is rejected as written and accepted with the corrected guard. */
  lemma GuardRejectsWellFormedLine()
    ensures !IsValidInstruction(Split("ADD R1 R2"))
    ensures IsValidInstructionCorrected(Split("ADD R1 R2"))
  {
    SplitOfWellFormedLine();
    var tokens := ["ADD", "R1", "R2"];
    assert tokens[0] == MultiInstructions[0] && tokens[1] == SupportedRegisters[1] && tokens[2] == SupportedRegisters[2];
    assert !StartsWith(tokens[0], "@") by {
      assert tokens[0][0] != '@';
    }
    assert ShapeAccepted(tokens[0], tokens[1], tokens[2]);
  }

  /**
   * The operand shapes admitted after the guard: a mnemonic of the multi list
   * with a register first and a register or '#' and digits second. The
   * register-only and immediate-only lists are empty, so nothing else passes:
   * LDR, STR and BEQ included.
   */
  lemma ShapeAcceptedExactly(mnemonic: string, operand1: string, operand2: string)
    ensures ShapeAccepted(mnemonic, operand1, operand2) <==>
      mnemonic in MultiInstructions && operand1 in SupportedRegisters
      && (operand2 in SupportedRegisters
          || (|operand2| >= 2 && operand2[0] == '#' && forall k :: 1 <= k < |operand2| ==> IsDigit(operand2[k])))
  {
    if |operand2| >= 2 && operand2[0] == '#' {
      assert operand2[..1] == "#";
      assert forall k :: 1 <= k < |operand2| ==> DropFirst(operand2)[k - 1] == operand2[k];
    }
  }

  /** Every mnemonic the validator admits is already upper case, so upper() leaves it unchanged. */
  lemma AcceptedMnemonicsAreUpper(mnemonic: string)
    requires mnemonic in MultiInstructions
    ensures Upper(mnemonic) == mnemonic
  {
    UpperOfNoLower(mnemonic);
  }

  // ---------------------------------------------------------------------------
  // get_source_artifacts

  /** What get_source_artifacts makes of one line: a tag, a raw instruction, or "Invalid instruction". */
  function ParseLine(line: string, g: Guard): Result<SourceArtifact>
  {
    if StartsWith(line, "@") then Ok(Tag(DropFirst(line)))
    else
      var tokens := Split(line);
      if Accepts(g, tokens) then
        Ok(Instruction(RawInstruction(Upper(tokens[0]), tokens[1], tokens[2],
                                      if |tokens| == 4 then Some(tokens[3]) else None)))
      else Err(InvalidInstruction(line))
  }

  /** What get_source_artifacts returns: the artifacts of all lines in order, or the first line's error. */
  function SourceArtifacts(lines: seq<string>, g: Guard): Result<seq<SourceArtifact>>
  {
    if lines == [] then Ok([])
    else
      match SourceArtifacts(lines[..|lines| - 1], g)
      case Err(e) => Err(e)
      case Ok(artifacts) =>
        match ParseLine(lines[|lines| - 1], g)
        case Err(e) => Err(e)
        case Ok(a) => Ok(artifacts + [a])
  }

  /** get_source_artifacts, with the validator it calls chosen by g. */
  method GetSourceArtifacts(cleanedLines: seq<string>, g: Guard) returns (r: Result<seq<SourceArtifact>>)
    ensures r == SourceArtifacts(cleanedLines, g)
  {
    var artifacts := [];
    for i := 0 to |cleanedLines|
      invariant SourceArtifacts(cleanedLines[..i], g) == Ok(artifacts)
    {
      var line := cleanedLines[i];
      assert cleanedLines[..i + 1][..i] == cleanedLines[..i];
      if StartsWith(line, "@") {
        artifacts := artifacts + [Tag(DropFirst(line))];
      } else {
        var tokens := Split(line);
        if Accepts(g, tokens) {
          var tagname := if |tokens| == 4 then Some(tokens[3]) else None;
          artifacts := artifacts + [Instruction(RawInstruction(Upper(tokens[0]), tokens[1], tokens[2], tagname))];
        } else {
          r := Err(InvalidInstruction(line));
          SourceArtifactsErrorPersists(cleanedLines, i + 1, g);
          return;
        }
      }
    }
    assert cleanedLines[..|cleanedLines|] == cleanedLines;
    r := Ok(artifacts);
  }

  /** Once a prefix of the lines fails, the whole list fails with the same error. */
  lemma {:induction false} SourceArtifactsErrorPersists(lines: seq<string>, i: nat, g: Guard)
    requires i <= |lines| && SourceArtifacts(lines[..i], g).Err?
    ensures SourceArtifacts(lines, g) == SourceArtifacts(lines[..i], g)
  {
    if i < |lines| {
      var p := lines[..|lines| - 1];
      assert p[..i] == lines[..i];
      SourceArtifactsErrorPersists(p, i, g);
    } else {
      assert lines[..i] == lines;
    }
  }

  /**
   * get_source_artifacts succeeds exactly when every line does, and then gives
   * one artifact per line, in the lines' order.
   */
  lemma SourceArtifactsPerLine(lines: seq<string>, g: Guard)
    ensures SourceArtifacts(lines, g).Ok? <==> forall i :: 0 <= i < |lines| ==> ParseLine(lines[i], g).Ok?
    ensures SourceArtifacts(lines, g).Ok? ==>
      |SourceArtifacts(lines, g).value| == |lines|
      && forall i :: 0 <= i < |lines| ==> ParseLine(lines[i], g) == Ok(SourceArtifacts(lines, g).value[i])
  {
    SourceArtifactsSucceed(lines, g);
    if SourceArtifacts(lines, g).Ok? {
      SourceArtifactsOutputs(lines, g);
    }
  }

  lemma {:induction false} SourceArtifactsSucceed(lines: seq<string>, g: Guard)
    ensures SourceArtifacts(lines, g).Ok? <==> forall i :: 0 <= i < |lines| ==> ParseLine(lines[i], g).Ok?
  {
    if lines != [] {
      var p := lines[..|lines| - 1];
      SourceArtifactsSucceed(p, g);
      if SourceArtifacts(p, g).Err? {
        var j :| 0 <= j < |p| && ParseLine(p[j], g).Err?;
        assert p[j] == lines[j];
      } else {
        forall i | 0 <= i < |p|
          ensures ParseLine(lines[i], g).Ok?
        {
          assert p[i] == lines[i];
        }
      }
    }
  }

  lemma {:induction false} SourceArtifactsOutputs(lines: seq<string>, g: Guard)
    requires SourceArtifacts(lines, g).Ok?
    ensures |SourceArtifacts(lines, g).value| == |lines|
    ensures forall i :: 0 <= i < |lines| ==> ParseLine(lines[i], g) == Ok(SourceArtifacts(lines, g).value[i])
  {
    if lines != [] {
      var p := lines[..|lines| - 1];
      var last := ParseLine(lines[|lines| - 1], g);
      assert SourceArtifacts(p, g).Ok? && last.Ok?;
      SourceArtifactsOutputs(p, g);
      var prev := SourceArtifacts(p, g).value;
      var out := prev + [last.value];
      assert SourceArtifacts(lines, g) == Ok(out);
      assert forall i :: 0 <= i < |p| ==> p[i] == lines[i] && out[i] == prev[i];
    }
  }

  /** The error get_source_artifacts raises names the first line that fails. */
  lemma {:induction false} SourceArtifactsFirstError(lines: seq<string>, g: Guard)
    requires SourceArtifacts(lines, g).Err?
    ensures exists i :: (0 <= i < |lines|
      && SourceArtifacts(lines, g).error == InvalidInstruction(lines[i])
      && ParseLine(lines[i], g).Err?
      && (forall j :: 0 <= j < i ==> ParseLine(lines[j], g).Ok?))
  {
    var p := lines[..|lines| - 1];
    assert forall j :: 0 <= j < |p| ==> p[j] == lines[j];
    if SourceArtifacts(p, g).Err? {
      SourceArtifactsFirstError(p, g);
    } else {
      SourceArtifactsPerLine(p, g);
      var i := |lines| - 1;
      assert SourceArtifacts(lines, g).error == InvalidInstruction(lines[i]) && ParseLine(lines[i], g).Err?;
    }
  }

  /** A tag line gives a tag whose name is the rest of the line, unmodified (a trailing ':' stays). */
  lemma ParseLineTag(line: string, g: Guard)
    requires StartsWith(line, "@")
    ensures ParseLine(line, g).Ok? && ParseLine(line, g).value.Tag?
    ensures "@" + ParseLine(line, g).value.name == line
  {
    assert line == line[..1] + line[1..];
  }

  /** With the validator as written, every line that is not a tag raises "Invalid instruction". */
  lemma ParseLineAsWritten(line: string)
    requires !StartsWith(line, "@")
    ensures ParseLine(line, AsWritten) == Err(InvalidInstruction(line))
  {
    IsValidInstructionNeverHolds(Split(line));
  }

  /** As written, get_source_artifacts succeeds only on programs made of tag lines alone. */
  lemma SourceArtifactsAsWritten(lines: seq<string>)
    ensures SourceArtifacts(lines, AsWritten).Ok? <==> forall i :: 0 <= i < |lines| ==> StartsWith(lines[i], "@")
  {
    SourceArtifactsPerLine(lines, AsWritten);
    forall i | 0 <= i < |lines| && !StartsWith(lines[i], "@")
      ensures ParseLine(lines[i], AsWritten).Err?
    {
      ParseLineAsWritten(lines[i]);
    }
  }

  /** Writes an artifact back as a source line: '@' and the name, or the tokens joined by single spaces. */
  function Render(a: SourceArtifact): string
  {
    match a
    case Tag(name) => "@" + name
    case Instruction(raw) =>
      var tokens := [raw.mnemonic, raw.operand1, raw.operand2];
      Join(if raw.tagname.Some? then tokens + [raw.tagname.value] else tokens, ' ')
  }

  /**
   * With the corrected guard a line parses to an artifact that renders back to
   * that line: nothing of the line is lost, and upper() never changes an
   * accepted mnemonic.
   */
  lemma ParseLineRoundTrip(line: string)
    requires ParseLine(line, Corrected).Ok?
    ensures Render(ParseLine(line, Corrected).value) == line
  {
    if StartsWith(line, "@") {
      ParseLineTag(line, Corrected);
    } else {
      var tokens := Split(line);
      assert IsValidInstructionCorrected(tokens);
      AcceptedMnemonicsAreUpper(tokens[0]);
      TokensRoundTrip(tokens, if |tokens| == 4 then Some(tokens[3]) else None);
    }
  }

  /** An accepted token list, rebuilt as a raw instruction, renders as its tokens joined by spaces. */
  lemma TokensRoundTrip(tokens: seq<string>, tagname: Option<string>)
    requires 3 <= |tokens| <= 4
    requires tagname == if |tokens| == 4 then Some(tokens[3]) else None
    ensures Render(Instruction(RawInstruction(tokens[0], tokens[1], tokens[2], tagname))) == Join(tokens, ' ')
  {
    var listed := [tokens[0], tokens[1], tokens[2]];
    if |tokens| == 4 {
      listed := listed + [tokens[3]];
    }
    assert listed == tokens;
  }

  /** The documented syntax `ADD R1, R2` is rejected even with the corrected guard: split(' ') keeps the comma. */
  lemma CommaSyntaxRejected()
    ensures ParseLine("ADD R1, R2", Corrected) == Err(InvalidInstruction("ADD R1, R2"))
  {
    assert "ADD R1, R2" == "ADD" + " " + "R1," + " " + "R2";
    SplitThree("ADD", "R1,", "R2");
    var tokens := ["ADD", "R1,", "R2"];
    assert !StartsWith(tokens[0], "@") by {
      assert tokens[0][0] != '@';
    }
    assert tokens[1] !in SupportedRegisters;
    assert !IsValidInstructionCorrected(tokens);
  }

  /**
   * The validator compares the mnemonic with the upper-case lists before
   * upper() is applied, so a lower-case mnemonic is rejected even with the
   * corrected guard.
   */
  lemma LowerCaseMnemonicRejected()
    ensures ParseLine("add R1 R2", Corrected) == Err(InvalidInstruction("add R1 R2"))
  {
    assert "add R1 R2" == "add" + " " + "R1" + " " + "R2";
    SplitThree("add", "R1", "R2");
    var tokens := ["add", "R1", "R2"];
    assert !StartsWith(tokens[0], "@") by {
      assert tokens[0][0] != '@';
    }
    assert tokens[0] !in MultiInstructions by {
      assert tokens[0][0] == 'a';
    }
    assert !IsValidInstructionCorrected(tokens);
  }

  // ---------------------------------------------------------------------------
  // get_intermediate_instructions

  /**
   * get_intermediate_instructions: the list of the one intermediate form a raw
   * instruction lowers to (the source builds this list but never returns it).
   */
  function GetIntermediateInstructions(raw: RawInstruction, tagMap: map<string, nat>): Result<seq<IntermediateInstruction>>
  {
    var RawInstruction(mnemonic, operand1, operand2, tagname) := raw;
    if mnemonic in BranchInstructions then
      if tagname.None? || tagname.value !in tagMap then Err(InvalidTag(tagname))
      else Ok([BranchIntermediate(mnemonic, operand1, operand2, tagname.value)])
    else if mnemonic in MemoryInstructions then
      match ParseDecimal(DropFirst(operand2))
      case None => Err(NotDecimal)
      case Some(addr) =>
        if mnemonic == "LDR" then Ok([MemoryIntermediate(mnemonic, true, operand1, addr)])
        else if mnemonic == "STR" then Ok([MemoryIntermediate(mnemonic, false, operand1, addr)])
        else Ok([])
    else if mnemonic in RegisterOnlyInstructions then
      Ok([RegisterIntermediate(mnemonic, operand1, operand2)])
    else if mnemonic in ImmediateOnlyInstructions then
      match ParseDecimal(DropFirst(operand2))
      case None => Err(NotDecimal)
      case Some(imm) => Ok([ImmediateIntermediate(mnemonic, operand1, imm)])
    else if mnemonic in MultiInstructions then
      if StartsWith(operand2, "#") then
        match ParseDecimal(DropFirst(operand2))
        case None => Err(NotDecimal)
        case Some(imm) => Ok([ImmediateIntermediate(mnemonic, operand1, imm)])
      else Ok([RegisterIntermediate(mnemonic, operand1, operand2)])
    else Err(UnknownMnemonic(mnemonic))
  }

  /**
   * A successful lowering yields exactly one instruction, never a tag marker,
   * with the raw instruction's mnemonic and first operand.
   */
  lemma LoweringYieldsOne(raw: RawInstruction, tagMap: map<string, nat>)
    requires GetIntermediateInstructions(raw, tagMap).Ok?
    ensures |GetIntermediateInstructions(raw, tagMap).value| == 1
    ensures var x := GetIntermediateInstructions(raw, tagMap).value[0];
      !x.TagIntermediate? && x.mnemonic == raw.mnemonic
      && (if x.BranchIntermediate? then x.operandReg1 else x.destReg) == raw.operand1
  {
  }

  /**
   * A multi mnemonic whose operand2 is '#' and digits lowers to one immediate
   * form carrying their value, leading zeros allowed as int() allows them; '#'
   * followed by anything but digits raises ValueError; any operand2 not
   * starting with '#' gives one register form with operand2 as the source.
   */
  /** The mnemonic classes do not overlap: a multi mnemonic is in no other list. */
  lemma MultiIsOnlyMulti(mnemonic: string)
    requires mnemonic in MultiInstructions
    ensures mnemonic !in BranchInstructions && mnemonic !in MemoryInstructions
    ensures mnemonic !in RegisterOnlyInstructions && mnemonic !in ImmediateOnlyInstructions
  {
  }

  lemma LowerMulti(mnemonic: string, operand1: string, operand2: string, tagname: Option<string>, tagMap: map<string, nat>)
    requires mnemonic in MultiInstructions
    ensures forall k: nat, n: nat :: StartsWith(operand2, "#") && DropFirst(operand2) == Zeros(k) + Decimal(n) ==>
      GetIntermediateInstructions(RawInstruction(mnemonic, operand1, operand2, tagname), tagMap)
        == Ok([ImmediateIntermediate(mnemonic, operand1, n)])
    ensures StartsWith(operand2, "#") && !IsNumeric(DropFirst(operand2)) ==>
      GetIntermediateInstructions(RawInstruction(mnemonic, operand1, operand2, tagname), tagMap) == Err(NotDecimal)
    ensures !StartsWith(operand2, "#") ==>
      GetIntermediateInstructions(RawInstruction(mnemonic, operand1, operand2, tagname), tagMap)
        == Ok([RegisterIntermediate(mnemonic, operand1, operand2)])
  {
    MultiIsOnlyMulti(mnemonic);
    forall k: nat, n: nat | StartsWith(operand2, "#") && DropFirst(operand2) == Zeros(k) + Decimal(n)
      ensures GetIntermediateInstructions(RawInstruction(mnemonic, operand1, operand2, tagname), tagMap)
        == Ok([ImmediateIntermediate(mnemonic, operand1, n)])
    {
      PaddedDecimal(k, n);
    }
  }

  /**
   * LDR and STR lower to one memory form, a load for LDR and a store for STR,
   * whose address is the value of the digits after operand2's first character,
   * whatever that character is and with leading zeros allowed; if what follows
   * the first character is not digits, int() raises ValueError.
   */
  lemma LowerMemory(mnemonic: string, operand1: string, operand2: string, tagname: Option<string>, tagMap: map<string, nat>)
    requires mnemonic in MemoryInstructions
    ensures forall k: nat, n: nat :: DropFirst(operand2) == Zeros(k) + Decimal(n) ==>
      GetIntermediateInstructions(RawInstruction(mnemonic, operand1, operand2, tagname), tagMap)
        == Ok([MemoryIntermediate(mnemonic, mnemonic == "LDR", operand1, n)])
    ensures !IsNumeric(DropFirst(operand2)) ==>
      GetIntermediateInstructions(RawInstruction(mnemonic, operand1, operand2, tagname), tagMap) == Err(NotDecimal)
  {
    forall k: nat, n: nat | DropFirst(operand2) == Zeros(k) + Decimal(n)
      ensures GetIntermediateInstructions(RawInstruction(mnemonic, operand1, operand2, tagname), tagMap)
        == Ok([MemoryIntermediate(mnemonic, mnemonic == "LDR", operand1, n)])
    {
      PaddedDecimal(k, n);
    }
  }

  /** A branch lowers exactly when its tag is in the tag map, and then to one branch form naming that tag. */
  lemma LowerBranch(raw: RawInstruction, tagMap: map<string, nat>)
    requires raw.mnemonic in BranchInstructions
    ensures GetIntermediateInstructions(raw, tagMap).Ok? <==> raw.tagname.Some? && raw.tagname.value in tagMap
    ensures GetIntermediateInstructions(raw, tagMap).Ok? ==>
      GetIntermediateInstructions(raw, tagMap).value
        == [BranchIntermediate(raw.mnemonic, raw.operand1, raw.operand2, raw.tagname.value)]
  {
  }

  /** Nothing writes tag_map, so every branch raises "Invalid tag". */
  lemma LowerBranchUndeclared(raw: RawInstruction)
    requires raw.mnemonic in BranchInstructions
    ensures GetIntermediateInstructions(raw, TagMap) == Err(InvalidTag(raw.tagname))
  {
  }

  /** A mnemonic of no class raises. */
  lemma LowerUnknown(raw: RawInstruction, tagMap: map<string, nat>)
    requires raw.mnemonic !in BranchInstructions + MemoryInstructions + MultiInstructions
    ensures GetIntermediateInstructions(raw, tagMap) == Err(UnknownMnemonic(raw.mnemonic))
  {
  }

  /**
   * Every instruction line the corrected validator accepts lowers without
   * error, to one register or immediate form with the line's mnemonic and
   * destination register.
   */
  lemma AcceptedLineLowers(line: string, tagMap: map<string, nat>)
    requires ParseLine(line, Corrected).Ok? && ParseLine(line, Corrected).value.Instruction?
    ensures var raw := ParseLine(line, Corrected).value.raw;
      var lowered := GetIntermediateInstructions(raw, tagMap);
      lowered.Ok? && |lowered.value| == 1
      && (lowered.value[0].RegisterIntermediate? || lowered.value[0].ImmediateIntermediate?)
      && lowered.value[0].mnemonic == raw.mnemonic && lowered.value[0].destReg == raw.operand1
      && (lowered.value[0].RegisterIntermediate? ==>
            lowered.value[0].srcReg == raw.operand2 && raw.operand2 in SupportedRegisters)
      && (lowered.value[0].ImmediateIntermediate? ==>
            ParseDecimal(DropFirst(raw.operand2)) == Some(lowered.value[0].imm))
  {
    var tokens := Split(line);
    AcceptedMnemonicsAreUpper(tokens[0]);
    var raw := ParseLine(line, Corrected).value.raw;
    assert raw.mnemonic in MultiInstructions;
    assert raw.mnemonic !in BranchInstructions && raw.mnemonic !in MemoryInstructions;
    if StartsWith(raw.operand2, "#") {
      assert raw.operand2[0] == '#';
      assert forall r :: r in SupportedRegisters ==> r[0] == 'R';
      assert raw.operand2 !in SupportedRegisters;
      assert IsImmediateToken(raw.operand2);
    }
  }

  // ---------------------------------------------------------------------------
  // process_source_artifacts

  /** One artifact lowered: an instruction through get_intermediate_instructions, a tag to its marker. */
  function LowerArtifact(a: SourceArtifact, tagMap: map<string, nat>): Result<seq<IntermediateInstruction>>
  {
    match a
    case Instruction(raw) => GetIntermediateInstructions(raw, tagMap)
    case Tag(name) => Ok([TagIntermediate(name)])
  }

  /** What process_source_artifacts returns: the lowerings concatenated in order, or the first error. */
  function Processed(artifacts: seq<SourceArtifact>, tagMap: map<string, nat>): Result<seq<IntermediateInstruction>>
  {
    if artifacts == [] then Ok([])
    else
      match Processed(artifacts[..|artifacts| - 1], tagMap)
      case Err(e) => Err(e)
      case Ok(instructions) =>
        match LowerArtifact(artifacts[|artifacts| - 1], tagMap)
        case Err(e) => Err(e)
        case Ok(more) => Ok(instructions + more)
  }

  /** process_source_artifacts: one pass appending each artifact's lowering. */
  method ProcessSourceArtifacts(artifacts: seq<SourceArtifact>, tagMap: map<string, nat>)
    returns (r: Result<seq<IntermediateInstruction>>)
    ensures r == Processed(artifacts, tagMap)
  {
    var instructions := [];
    for i := 0 to |artifacts|
      invariant Processed(artifacts[..i], tagMap) == Ok(instructions)
    {
      assert artifacts[..i + 1][..i] == artifacts[..i];
      match artifacts[i]
      case Instruction(raw) =>
        var lowered := GetIntermediateInstructions(raw, tagMap);
        if lowered.Err? {
          r := Err(lowered.error);
          ProcessedErrorPersists(artifacts, i + 1, tagMap);
          return;
        }
        instructions := instructions + lowered.value;
      case Tag(name) =>
        instructions := instructions + [TagIntermediate(name)];
    }
    assert artifacts[..|artifacts|] == artifacts;
    r := Ok(instructions);
  }

  /** Once a prefix of the artifacts fails, the whole list fails with the same error. */
  lemma {:induction false} ProcessedErrorPersists(artifacts: seq<SourceArtifact>, i: nat, tagMap: map<string, nat>)
    requires i <= |artifacts| && Processed(artifacts[..i], tagMap).Err?
    ensures Processed(artifacts, tagMap) == Processed(artifacts[..i], tagMap)
  {
    if i < |artifacts| {
      var p := artifacts[..|artifacts| - 1];
      assert p[..i] == artifacts[..i];
      ProcessedErrorPersists(p, i, tagMap);
    } else {
      assert artifacts[..i] == artifacts;
    }
  }

  /**
   * Lowering distributes over concatenation: processing a + b is processing a,
   * then b, and concatenating, with a's error taking precedence.
   */
  lemma {:induction false} ProcessedAppend(a: seq<SourceArtifact>, b: seq<SourceArtifact>, tagMap: map<string, nat>)
    ensures Processed(a + b, tagMap) ==
      match Processed(a, tagMap)
      case Err(e) => Err(e)
      case Ok(x) =>
        match Processed(b, tagMap)
        case Err(e) => Err(e)
        case Ok(y) => Ok(x + y)
  {
    if b == [] {
      assert a + b == a;
      if Processed(a, tagMap).Ok? {
        assert Processed(a, tagMap).value + [] == Processed(a, tagMap).value;
      }
    } else {
      var b' := b[..|b| - 1];
      assert (a + b)[..|a + b| - 1] == a + b';
      assert (a + b)[|a + b| - 1] == b[|b| - 1];
      ProcessedAppend(a, b', tagMap);
      if Processed(a, tagMap).Ok? && Processed(b', tagMap).Ok? && LowerArtifact(b[|b| - 1], tagMap).Ok? {
        var x, y, z := Processed(a, tagMap).value, Processed(b', tagMap).value, LowerArtifact(b[|b| - 1], tagMap).value;
        assert (x + y) + z == x + (y + z);
      }
    }
  }

  /**
   * process_source_artifacts succeeds exactly when every artifact lowers, and
   * then gives one instruction per artifact in order: each tag's marker with
   * the tag's name, and each raw instruction's one lowering.
   */
  lemma ProcessedPerArtifact(artifacts: seq<SourceArtifact>, tagMap: map<string, nat>)
    ensures Processed(artifacts, tagMap).Ok? <==> forall i :: 0 <= i < |artifacts| ==> LowerArtifact(artifacts[i], tagMap).Ok?
    ensures Processed(artifacts, tagMap).Ok? ==>
      var out := Processed(artifacts, tagMap).value;
      |out| == |artifacts|
      && forall i :: 0 <= i < |artifacts| ==>
        LowerArtifact(artifacts[i], tagMap) == Ok([out[i]])
        && (out[i].TagIntermediate? <==> artifacts[i].Tag?)
        && (artifacts[i].Tag? ==> out[i].tagname == artifacts[i].name)
  {
    ProcessedSucceeds(artifacts, tagMap);
    if Processed(artifacts, tagMap).Ok? {
      ProcessedOutputs(artifacts, tagMap);
    }
  }

  lemma {:induction false} ProcessedSucceeds(artifacts: seq<SourceArtifact>, tagMap: map<string, nat>)
    ensures Processed(artifacts, tagMap).Ok? <==> forall i :: 0 <= i < |artifacts| ==> LowerArtifact(artifacts[i], tagMap).Ok?
  {
    if artifacts != [] {
      var p := artifacts[..|artifacts| - 1];
      ProcessedSucceeds(p, tagMap);
      assert forall i :: 0 <= i < |p| ==> p[i] == artifacts[i];
      if Processed(p, tagMap).Err? {
        var j :| 0 <= j < |p| && LowerArtifact(p[j], tagMap).Err?;
        assert LowerArtifact(artifacts[j], tagMap).Err?;
      }
    }
  }

  lemma {:induction false} ProcessedOutputs(artifacts: seq<SourceArtifact>, tagMap: map<string, nat>)
    requires Processed(artifacts, tagMap).Ok?
    ensures var out := Processed(artifacts, tagMap).value;
      |out| == |artifacts|
      && forall i :: 0 <= i < |artifacts| ==>
        LowerArtifact(artifacts[i], tagMap) == Ok([out[i]])
        && (out[i].TagIntermediate? <==> artifacts[i].Tag?)
        && (artifacts[i].Tag? ==> out[i].tagname == artifacts[i].name)
  {
    if artifacts != [] {
      var p := artifacts[..|artifacts| - 1];
      var last := artifacts[|artifacts| - 1];
      var lowered := LowerArtifact(last, tagMap);
      assert Processed(p, tagMap).Ok? && lowered.Ok?;
      ProcessedOutputs(p, tagMap);
      LowerArtifactYieldsOne(last, tagMap);
      var prev := Processed(p, tagMap).value;
      var out := prev + lowered.value;
      assert Processed(artifacts, tagMap) == Ok(out);
      forall i | 0 <= i < |artifacts|
        ensures LowerArtifact(artifacts[i], tagMap) == Ok([out[i]])
        ensures out[i].TagIntermediate? <==> artifacts[i].Tag?
        ensures artifacts[i].Tag? ==> out[i].tagname == artifacts[i].name
      {
        if i < |p| {
          assert p[i] == artifacts[i] && out[i] == prev[i];
        } else {
          assert out[i] == lowered.value[0];
        }
      }
    }
  }

  /** An artifact that lowers gives one instruction: a marker with its name for a tag, and no marker otherwise. */
  lemma LowerArtifactYieldsOne(a: SourceArtifact, tagMap: map<string, nat>)
    requires LowerArtifact(a, tagMap).Ok?
    ensures var out := LowerArtifact(a, tagMap).value;
      |out| == 1 && (out[0].TagIntermediate? <==> a.Tag?) && (a.Tag? ==> out[0].tagname == a.name)
  {
    if a.Instruction? {
      LoweringYieldsOne(a.raw, tagMap);
    }
  }

  /** With tag_map as the source leaves it, any program holding a branch fails to lower. */
  lemma ProcessedBranchFails(artifacts: seq<SourceArtifact>, i: nat)
    requires i < |artifacts| && artifacts[i].Instruction? && artifacts[i].raw.mnemonic in BranchInstructions
    ensures Processed(artifacts, TagMap).Err?
  {
    ProcessedPerArtifact(artifacts, TagMap);
    LowerBranchUndeclared(artifacts[i].raw);
  }

  /**
   * The front end with the corrected guard: every program it parses lowers
   * without error to one instruction per line, a tag marker for each tag line
   * and a register or immediate form for each instruction line.
   */
  lemma FrontEndCorrected(lines: seq<string>, tagMap: map<string, nat>)
    requires SourceArtifacts(lines, Corrected).Ok?
    ensures var out := Processed(SourceArtifacts(lines, Corrected).value, tagMap);
      out.Ok? && |out.value| == |lines|
      && forall i :: 0 <= i < |lines| ==>
        (out.value[i].TagIntermediate? <==> StartsWith(lines[i], "@"))
        && (out.value[i].RegisterIntermediate? || out.value[i].ImmediateIntermediate? || out.value[i].TagIntermediate?)
  {
    var artifacts := SourceArtifacts(lines, Corrected).value;
    SourceArtifactsOutputs(lines, Corrected);
    forall i | 0 <= i < |artifacts|
      ensures LowerArtifact(artifacts[i], tagMap).Ok?
      ensures artifacts[i].Tag? <==> StartsWith(lines[i], "@")
      ensures artifacts[i].Instruction? ==>
        var x := LowerArtifact(artifacts[i], tagMap).value[0];
        x.RegisterIntermediate? || x.ImmediateIntermediate?
    {
      assert ParseLine(lines[i], Corrected) == Ok(artifacts[i]);
      ParsedLineLowers(lines[i], tagMap);
    }
    ProcessedSucceeds(artifacts, tagMap);
    ProcessedOutputs(artifacts, tagMap);
  }

  /** A line the corrected parser accepts lowers: a tag line to its marker, an instruction line to a register or immediate form. */
  lemma ParsedLineLowers(line: string, tagMap: map<string, nat>)
    requires ParseLine(line, Corrected).Ok?
    ensures var a := ParseLine(line, Corrected).value;
      LowerArtifact(a, tagMap).Ok?
      && (a.Tag? <==> StartsWith(line, "@"))
      && (a.Instruction? ==>
            LowerArtifact(a, tagMap).value[0].RegisterIntermediate?
            || LowerArtifact(a, tagMap).value[0].ImmediateIntermediate?)
  {
    if !StartsWith(line, "@") {
      AcceptedLineLowers(line, tagMap);
    }
  }

  // ---------------------------------------------------------------------------
  // process_source_artifacts as the source runs it

  /**
   * One artifact through the loop body exactly as written. A tag's marker is
   * built without the mnemonic field it inherits, which raises. An instruction
   * first meets get_intermediate_instructions' own errors; when it passes them,
   * a branch raises at the constructor that is given `tagname=` in place of
   * its dest_addr field, and any other instruction comes back as None, which
   * `+=` cannot extend a list by.
   */
  function LowerArtifactAsWritten(a: SourceArtifact, tagMap: map<string, nat>): Result<seq<IntermediateInstruction>>
  {
    match a
    case Tag(_) => Err(MissingArgument)
    case Instruction(raw) =>
      match GetIntermediateInstructions(raw, tagMap)
      case Err(e) => Err(e)
      case Ok(_) => if raw.mnemonic in BranchInstructions then Err(UnexpectedArgument) else Err(NoneNotIterable)
  }

  /** process_source_artifacts exactly as written: the same loop over LowerArtifactAsWritten. */
  function ProcessedAsWritten(artifacts: seq<SourceArtifact>, tagMap: map<string, nat>): Result<seq<IntermediateInstruction>>
  {
    if artifacts == [] then Ok([])
    else
      match ProcessedAsWritten(artifacts[..|artifacts| - 1], tagMap)
      case Err(e) => Err(e)
      case Ok(instructions) =>
        match LowerArtifactAsWritten(artifacts[|artifacts| - 1], tagMap)
        case Err(e) => Err(e)
        case Ok(more) => Ok(instructions + more)
  }

  /** As written, process_source_artifacts raises on every artifact, so it only ever returns for no input. */
  lemma {:induction false} ProcessedAsWrittenOnlyEmpty(artifacts: seq<SourceArtifact>, tagMap: map<string, nat>)
    ensures ProcessedAsWritten(artifacts, tagMap).Ok? <==> artifacts == []
    ensures artifacts != [] && artifacts[0].Tag? ==> ProcessedAsWritten(artifacts, tagMap) == Err(MissingArgument)
  {
    if artifacts != [] {
      var p := artifacts[..|artifacts| - 1];
      ProcessedAsWrittenOnlyEmpty(p, tagMap);
      if p == [] {
        assert artifacts == [artifacts[0]];
      } else {
        assert p[0] == artifacts[0];
      }
    }
  }

  /** The line `ADD R1 R2` lowers to one register form once its list is returned; as written it raises. */
  lemma MissingReturnShown(tagMap: map<string, nat>)
    ensures ProcessedAsWritten([Instruction(RawInstruction("ADD", "R1", "R2", None))], tagMap) == Err(NoneNotIterable)
    ensures Processed([Instruction(RawInstruction("ADD", "R1", "R2", None))], tagMap)
      == Ok([RegisterIntermediate("ADD", "R1", "R2")])
  {
    var raw := RawInstruction("ADD", "R1", "R2", None);
    assert raw.mnemonic == MultiInstructions[0];
    assert !StartsWith(raw.operand2, "#") by {
      assert raw.operand2[0] != '#';
    }
    var one := [Instruction(raw)];
    assert one[..0] == [];
    assert LowerArtifact(one[0], tagMap) == Ok([RegisterIntermediate("ADD", "R1", "R2")]);
    assert [] + [RegisterIntermediate("ADD", "R1", "R2")] == [RegisterIntermediate("ADD", "R1", "R2")];
  }

  /** A lone tag `@loop` lowers to its marker when the marker gets a mnemonic; as written it raises. */
  lemma TagMarkerShown(tagMap: map<string, nat>)
    ensures ProcessedAsWritten([Tag("loop")], tagMap) == Err(MissingArgument)
    ensures Processed([Tag("loop")], tagMap) == Ok([TagIntermediate("loop")])
  {
    var one := [Tag("loop")];
    assert one[..0] == [];
    assert [] + [TagIntermediate("loop")] == [TagIntermediate("loop")];
  }
}
