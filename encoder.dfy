/**
 * The pure part of src/assembler.c: line classification (is_label,
 * is_A_instruction), label extraction, A-instruction translation, the split
 * of a C-instruction into its dest, comp and jump fields, and the encoding
 * of those fields with the fixed comp and jump tables.
 *
 * In the C code an unknown comp or jump mnemonic leaves the corresponding
 * code uninitialised; here TranslateC returns None for it instead.
 */
module Encoder {
  import opened Common
  import opened Utils

  // ---------------------------------------------------------------------------
  // Classification
  // ---------------------------------------------------------------------------

  /** is_label: the line opens with '('. */
  predicate IsLabel(line: string) {
    |line| > 0 && line[0] == '('
  }

  /** is_A_instruction: '@' followed by a decimal digit, i.e. a numeric literal. */
  predicate IsAInstruction(ins: string) {
    |ins| >= 2 && ins[0] == '@' && IsDigit(ins[1])
  }

  /** The character C reads at index i of a NUL-terminated string: the terminator '\0' past the end. */
  function CChar(s: string, i: nat): char {
    if i < |s| then s[i] else '\0'
  }

  /** is_label reads line[0], the terminator for the empty line: a label line is one that opens with '('. */
  lemma LabelAsInC(line: string)
    ensures IsLabel(line) <==> CChar(line, 0) == '('
    ensures IsLabel(line) ==> !IsAInstruction(line)
  {
  }

  /**
   * is_A_instruction reads ins[1] even for "@", where it finds the
   * terminator: a numeric A-instruction is '@' followed by a decimal digit.
   */
  lemma AInstructionAsInC(ins: string)
    ensures IsAInstruction(ins) <==> CChar(ins, 0) == '@' && '0' <= CChar(ins, 1) <= '9'
    ensures IsAInstruction(ins) ==> |ins| >= 2 && LiteralValue(ins) == StrtolValue(ins[1..])
  {
    if IsAInstruction(ins) {
      StrtolDigitStart(ins[1..]);
    }
  }

  /**
   * extract_label: substring(line, 1, strlen(line) - 1). For the empty line
   * strlen(line) - 1 wraps around to SIZE_MAX, which substring clamps to 0.
   */
  function ExtractLabel(line: string): (r: string)
    ensures |line| >= 2 ==> r == line[1..|line| - 1]
    ensures |line| < 2 ==> r == []
  {
    Substring(line, 1, if |line| == 0 then 0 else |line| - 1)
  }

  // ---------------------------------------------------------------------------
  // A-instructions
  // ---------------------------------------------------------------------------

  /** The 16-bit word for an address: its binary form padded on the left with '0' to 16 characters. */
  function AddressWord(v: int): string {
    Padded(BinaryOf(v), 16)
  }

  lemma Pow2Sixteen()
    ensures Pow2(16) == 65536
  {
    assert Pow2(4) == 16;
    assert Pow2(8) == 256;
    assert Pow2(12) == 4096;
  }

  /**
   * The word for a non-negative address is a bit string of at least 16
   * characters denoting that address, and exactly 16 characters precisely
   * when the address is below 2^16.
   */
  lemma AddressWordFacts(v: nat)
    ensures IsBitString(AddressWord(v))
    ensures BitsValue(AddressWord(v)) == v
    ensures |AddressWord(v)| >= 16
    ensures |AddressWord(v)| == 16 <==> v < 65536
  {
    PaddedValue(BinaryOf(v), 16);
    if v == 0 {
      assert BitsValue(BinaryOf(v)) == BitsValue("0") == 0;
    } else {
      BitsValueOfBits(v);
      BinaryOfFits(v, 16);
      Pow2Sixteen();
    }
  }

  /** translate_A_instruction: convert_to_binary of the text after '@', padded to 16 characters. */
  function TranslateA(ins: string): string
    requires |ins| >= 1
  {
    AddressWord(StrtolValue(ins[1..]))
  }

  /** The number a numeric A-instruction denotes: the run of digits right after '@'. */
  function LiteralValue(ins: string): nat
    requires IsAInstruction(ins)
  {
    UnsignedPrefixValue(ins[1..])
  }

  /**
   * A numeric A-instruction is encoded as the 16-bit (or longer) binary form
   * of its literal: a bit string whose value is the literal, exactly 16
   * characters when the literal is below 65536.
   */
  lemma TranslateAFacts(ins: string)
    requires IsAInstruction(ins)
    ensures TranslateA(ins) == AddressWord(LiteralValue(ins))
    ensures IsBitString(TranslateA(ins)) && BitsValue(TranslateA(ins)) == LiteralValue(ins)
    ensures |TranslateA(ins)| == 16 <==> LiteralValue(ins) < 65536
  {
    StrtolDigitStart(ins[1..]);
    AddressWordFacts(LiteralValue(ins));
  }

  // ---------------------------------------------------------------------------
  // C-instruction fields
  // ---------------------------------------------------------------------------

  /** struct CInstructionParts: dest and jmp are NULL when their delimiter is missing. */
  datatype CInstructionParts = CInstructionParts(dest: Option<string>, comp: string, jmp: Option<string>)

  /**
   * extract_C_instruction_parts: split at the first '=' and the first ';'
   * with clamped substrings. ExtractPartsFields states what the fields are.
   */
  function ExtractParts(ins: string): CInstructionParts {
    var equalsLoc := FirstIndex(ins, '=');
    var semicolonLoc := FirstIndex(ins, ';');
    if equalsLoc == -1 then
      if semicolonLoc == -1 then
        CInstructionParts(None, Substring(ins, 0, |ins|), None)
      else
        CInstructionParts(None, Substring(ins, 0, semicolonLoc), Some(Substring(ins, semicolonLoc + 1, |ins|)))
    else
      if semicolonLoc == -1 then
        CInstructionParts(Some(Substring(ins, 0, equalsLoc)), Substring(ins, equalsLoc + 1, |ins|), None)
      else
        CInstructionParts(Some(Substring(ins, 0, equalsLoc)), Substring(ins, equalsLoc + 1, semicolonLoc),
                          Some(Substring(ins, semicolonLoc + 1, |ins|)))
  }

  /**
   * The fields of ins for a first '=' at eq and a first ';' at semi (-1 for
   * a missing delimiter), read off by slicing: dest is the text before the
   * '=', jmp the text after the ';', and comp what lies between them, empty
   * when the ';' comes first.
   */
  function FieldsAt(ins: string, eq: int, semi: int): CInstructionParts
    requires -1 <= eq < |ins| && -1 <= semi < |ins|
  {
    var start := if eq == -1 then 0 else eq + 1;
    var end := if semi == -1 then |ins| else semi;
    CInstructionParts(
      if eq == -1 then None else Some(ins[..eq]),
      if start <= end then ins[start..end] else [],
      if semi == -1 then None else Some(ins[semi + 1..]))
  }

  lemma ExtractAt(ins: string, eq: int, semi: int)
    requires FirstIndex(ins, '=') == eq && FirstIndex(ins, ';') == semi
    ensures ExtractParts(ins) == FieldsAt(ins, eq, semi)
  {
    var start := if eq == -1 then 0 else eq + 1;
    var end := if semi == -1 then |ins| else semi;
    var comp := Substring(ins, start, end);
    assert comp == if start <= end then ins[start..end] else [];
    if semi >= 0 {
      assert Substring(ins, semi + 1, |ins|) == ins[semi + 1..];
    }
    if eq >= 0 {
      assert Substring(ins, 0, eq) == ins[..eq];
    }
  }

  /** extract_C_instruction_parts splits at the first '=' and the first ';' as FieldsAt describes. */
  lemma ExtractPartsFields(ins: string)
    ensures ExtractParts(ins) == FieldsAt(ins, FirstIndex(ins, '='), FirstIndex(ins, ';'))
  {
    ExtractAt(ins, FirstIndex(ins, '='), FirstIndex(ins, ';'));
  }

  /** The text `[dest=]comp[;jump]` that a set of fields is written as. */
  function JoinParts(p: CInstructionParts): string {
    (if p.dest.Some? then p.dest.value + "=" else "")
    + p.comp
    + (if p.jmp.Some? then ";" + p.jmp.value else "")
  }

  /** Fields that contain no delimiter they would be confused with. */
  predicate WellDelimited(p: CInstructionParts) {
    && (p.dest.Some? ==> '=' !in p.dest.value && ';' !in p.dest.value)
    && '=' !in p.comp && ';' !in p.comp
    && (p.jmp.Some? ==> '=' !in p.jmp.value)
  }

  /** The first occurrence of c in a + b, when a does not contain c. */
  lemma FirstIndexAfter(a: string, b: string, c: char)
    requires c !in a
    ensures FirstIndex(a + b, c) == if c in b then |a| + FirstIndex(b, c) else -1
  {
    var s := a + b;
    if c in b {
      var i := FirstIndex(b, c);
      assert s[|a| + i] == c;
      assert forall k :: 0 <= k < |a| + i ==> s[k] != c by {
        forall k | 0 <= k < |a| + i ensures s[k] != c {
          if k < |a| { assert s[k] == a[k]; } else { assert s[k] == b[k - |a|]; }
        }
      }
    } else {
      assert forall k :: 0 <= k < |s| ==> s[k] != c by {
        forall k | 0 <= k < |s| ensures s[k] != c {
          if k < |a| { assert s[k] == a[k]; } else { assert s[k] == b[k - |a|]; }
        }
      }
    }
  }

  /** Where the first '=' of a written instruction is: right after dest, or nowhere. */
  lemma JoinedEquals(p: CInstructionParts)
    requires WellDelimited(p)
    ensures FirstIndex(JoinParts(p), '=') == if p.dest.Some? then |p.dest.value| else -1
  {
    var tail := p.comp + (if p.jmp.Some? then ";" + p.jmp.value else "");
    if p.dest.Some? {
      assert JoinParts(p) == p.dest.value + ("=" + tail);
      FirstIndexAfter(p.dest.value, "=" + tail, '=');
      assert ("=" + tail)[0] == '=';
    } else {
      assert JoinParts(p) == tail;
      if p.jmp.Some? {
        assert '=' !in ";" + p.jmp.value by {
          assert forall k :: 1 <= k < |";" + p.jmp.value| ==> (";" + p.jmp.value)[k] == p.jmp.value[k - 1];
        }
        FirstIndexAfter(p.comp, ";" + p.jmp.value, '=');
      } else {
        assert tail == p.comp;
      }
    }
  }

  /** Where the first ';' of a written instruction is: right after comp, or nowhere. */
  lemma JoinedSemicolon(p: CInstructionParts)
    requires WellDelimited(p)
    ensures FirstIndex(JoinParts(p), ';')
         == if p.jmp.Some? then |JoinParts(p)| - |p.jmp.value| - 1 else -1
  {
    var head := (if p.dest.Some? then p.dest.value + "=" else "") + p.comp;
    assert ';' !in head by {
      if p.dest.Some? {
        assert forall k :: 0 <= k < |head| ==> head[k] != ';' by {
          forall k | 0 <= k < |head| ensures head[k] != ';' {
            if k < |p.dest.value| { assert head[k] == p.dest.value[k]; }
            else if k > |p.dest.value| { assert head[k] == p.comp[k - |p.dest.value| - 1]; }
          }
        }
      } else {
        assert head == p.comp;
      }
    }
    if p.jmp.Some? {
      assert JoinParts(p) == head + (";" + p.jmp.value);
      FirstIndexAfter(head, ";" + p.jmp.value, ';');
    } else {
      assert JoinParts(p) == head;
    }
  }

  /** Slicing the written form of some fields at the delimiters placed between them gives the fields back. */
  lemma FieldsAtJoin(p: CInstructionParts)
    ensures var s := JoinParts(p);
            FieldsAt(s, if p.dest.Some? then |p.dest.value| else -1,
                        if p.jmp.Some? then |s| - |p.jmp.value| - 1 else -1) == p
  {
    var s := JoinParts(p);
    var d := if p.dest.Some? then p.dest.value + "=" else "";
    var j := if p.jmp.Some? then ";" + p.jmp.value else "";
    assert s == d + p.comp + j;
    assert s[|d|..|d| + |p.comp|] == p.comp;
    if p.dest.Some? {
      assert s[..|d| - 1] == p.dest.value;
    }
    if p.jmp.Some? {
      assert s[|d| + |p.comp| + 1..] == p.jmp.value;
    } else {
      assert s[|d|..] == p.comp;
    }
  }

  /** Splitting the written form of well-delimited fields gives the fields back. */
  lemma ExtractJoin(p: CInstructionParts)
    requires WellDelimited(p)
    ensures ExtractParts(JoinParts(p)) == p
  {
    JoinedEquals(p);
    JoinedSemicolon(p);
    ExtractPartsFields(JoinParts(p));
    FieldsAtJoin(p);
  }

  /** Writing back the fields sliced at a '=' and a later ';' (either possibly missing) gives the text again. */
  lemma JoinFieldsAt(ins: string, eq: int, semi: int)
    requires -1 <= eq < |ins| && -1 <= semi < |ins|
    requires eq >= 0 ==> ins[eq] == '='
    requires semi >= 0 ==> ins[semi] == ';'
    requires eq == -1 || semi == -1 || eq < semi
    ensures JoinParts(FieldsAt(ins, eq, semi)) == ins
  {
    if eq == -1 && semi == -1 {
      assert JoinParts(FieldsAt(ins, eq, semi)) == ins + "" + "";
    } else if eq == -1 {
      JoinCompJump(ins, semi);
    } else if semi == -1 {
      JoinDestComp(ins, eq);
    } else {
      JoinDestCompJump(ins, eq, semi);
    }
  }

  lemma JoinCompJump(ins: string, semi: nat)
    requires semi < |ins| && ins[semi] == ';'
    ensures JoinParts(FieldsAt(ins, -1, semi)) == ins
  {
    assert JoinParts(FieldsAt(ins, -1, semi)) == ins[..semi] + ([';'] + ins[semi + 1..]);
    assert ins == ins[..semi] + ([ins[semi]] + ins[semi + 1..]);
  }

  lemma JoinDestComp(ins: string, eq: nat)
    requires eq < |ins| && ins[eq] == '='
    ensures JoinParts(FieldsAt(ins, eq, -1)) == ins
  {
    assert JoinParts(FieldsAt(ins, eq, -1)) == ins[..eq] + ['='] + ins[eq + 1..];
    assert ins == ins[..eq] + [ins[eq]] + ins[eq + 1..];
  }

  lemma JoinDestCompJump(ins: string, eq: nat, semi: nat)
    requires eq < semi < |ins| && ins[eq] == '=' && ins[semi] == ';'
    ensures JoinParts(FieldsAt(ins, eq, semi)) == ins
  {
    var left := ins[..semi];
    assert JoinParts(FieldsAt(ins, eq, semi)) == (left[..eq] + ['='] + left[eq + 1..]) + ([';'] + ins[semi + 1..]);
    assert left == left[..eq] + [left[eq]] + left[eq + 1..];
    assert ins == left + ([ins[semi]] + ins[semi + 1..]);
  }

  /** Unless a ';' comes before the first '=', writing the extracted fields back gives the instruction again. */
  lemma JoinExtract(ins: string)
    requires FirstIndex(ins, '=') == -1 || FirstIndex(ins, ';') == -1
          || FirstIndex(ins, '=') < FirstIndex(ins, ';')
    ensures JoinParts(ExtractParts(ins)) == ins
  {
    ExtractPartsFields(ins);
    JoinFieldsAt(ins, FirstIndex(ins, '='), FirstIndex(ins, ';'));
  }

  // ---------------------------------------------------------------------------
  // Field encodings
  // ---------------------------------------------------------------------------

  /** The 28 comp mnemonics, in the order of the C if-chain. */
  const CompMnemonics: seq<string> := [
    "0", "1", "-1", "D", "A", "!D", "!A", "-D", "-A", "D+1", "A+1", "D-1", "A-1", "D+A",
    "D-A", "A-D", "D&A", "D|A", "M", "!M", "-M", "M+1", "M-1", "D+M", "D-M", "M-D", "D&M", "D|M"
  ]

  /** The 7 comp bits (the a-bit, then c1..c6) for a comp mnemonic, or None when it is not one of the 28. */
  function CompCode(comp: string): (r: Option<string>)
    ensures r.Some? ==> |r.value| == 7 && IsBitString(r.value)
    ensures r.Some? ==> (r.value[0] == '1' <==> 'M' in comp)
  {
    match comp
    case "0" => Some("0101010")    case "1" => Some("0111111")    case "-1" => Some("0111010")
    case "D" => Some("0001100")    case "A" => Some("0110000")    case "!D" => Some("0001101")
    case "!A" => Some("0110001")   case "-D" => Some("0001111")   case "-A" => Some("0110011")
    case "D+1" => Some("0011111")  case "A+1" => Some("0110111")  case "D-1" => Some("0001110")
    case "A-1" => Some("0110010")  case "D+A" => Some("0000010")  case "D-A" => Some("0010011")
    case "A-D" => Some("0000111")  case "D&A" => Some("0000000")  case "D|A" => Some("0010101")
    case "M" => Some("1110000")    case "!M" => Some("1110001")   case "-M" => Some("1110011")
    case "M+1" => Some("1110111")  case "M-1" => Some("1110010")  case "D+M" => Some("1000010")
    case "D-M" => Some("1010011")  case "M-D" => Some("1000111")  case "D&M" => Some("1000000")
    case "D|M" => Some("1010101")
    case _ => None
  }

  /** The comp mnemonic a 7-bit comp code stands for: the comp table read backwards. */
  function CompMnemonic(code: string): Option<string> {
    match code
    case "0101010" => Some("0")    case "0111111" => Some("1")    case "0111010" => Some("-1")
    case "0001100" => Some("D")    case "0110000" => Some("A")    case "0001101" => Some("!D")
    case "0110001" => Some("!A")   case "0001111" => Some("-D")   case "0110011" => Some("-A")
    case "0011111" => Some("D+1")  case "0110111" => Some("A+1")  case "0001110" => Some("D-1")
    case "0110010" => Some("A-1")  case "0000010" => Some("D+A")  case "0010011" => Some("D-A")
    case "0000111" => Some("A-D")  case "0000000" => Some("D&A")  case "0010101" => Some("D|A")
    case "1110000" => Some("M")    case "1110001" => Some("!M")   case "1110011" => Some("-M")
    case "1110111" => Some("M+1")  case "1110010" => Some("M-1")  case "1000010" => Some("D+M")
    case "1010011" => Some("D-M")  case "1000111" => Some("M-D")  case "1000000" => Some("D&M")
    case "1010101" => Some("D|M")
    case _ => None
  }

  /** The comp table knows exactly 28 distinct mnemonics. */
  lemma CompMnemonicsDistinct()
    ensures |CompMnemonics| == 28 && Distinct(CompMnemonics)
  {
  }

  lemma CompTableDomain(comp: string)
    ensures CompCode(comp).Some? <==> comp in CompMnemonics
  {
  }

  /** Every comp code decodes back to its mnemonic, so no two mnemonics share a code. */
  lemma CompCodeDecodes(comp: string)
    requires CompCode(comp).Some?
    ensures CompMnemonic(CompCode(comp).value) == Some(comp)
  {
  }

  lemma CompCodeInjective(a: string, b: string)
    requires CompCode(a).Some? && CompCode(a) == CompCode(b)
    ensures a == b
  {
    CompCodeDecodes(a);
    CompCodeDecodes(b);
  }

  /** The 7 jump mnemonics, in the order of the C if-chain. */
  const JumpMnemonics: seq<string> := ["JGT", "JEQ", "JGE", "JLT", "JNE", "JLE", "JMP"]

  /** The 3 jump bits: "000" for an absent or empty jump, None for an unknown mnemonic. */
  function JumpCode(jmp: Option<string>): (r: Option<string>)
    ensures r.Some? ==> |r.value| == 3 && IsBitString(r.value)
  {
    if jmp.None? || jmp.value == "" then Some("000")
    else
      match jmp.value
      case "JGT" => Some("001")  case "JEQ" => Some("010")  case "JGE" => Some("011")
      case "JLT" => Some("100")  case "JNE" => Some("101")  case "JLE" => Some("110")
      case "JMP" => Some("111")
      case _ => None
  }

  /** The jump a 3-bit jump code stands for; "000" is no jump. */
  function JumpMnemonic(code: string): Option<Option<string>> {
    match code
    case "000" => Some(None)
    case "001" => Some(Some("JGT"))  case "010" => Some(Some("JEQ"))  case "011" => Some(Some("JGE"))
    case "100" => Some(Some("JLT"))  case "101" => Some(Some("JNE"))  case "110" => Some(Some("JLE"))
    case "111" => Some(Some("JMP"))
    case _ => None
  }

  /** The jump table knows 7 distinct mnemonics; the i-th (JGT first) has the code of value i + 1. */
  lemma JumpMnemonicsCodes()
    ensures |JumpMnemonics| == 7 && Distinct(JumpMnemonics)
    ensures forall i :: 0 <= i < 7 ==>
              JumpCode(Some(JumpMnemonics[i])).Some? && BitsValue(JumpCode(Some(JumpMnemonics[i])).value) == i + 1
  {
    forall i | 0 <= i < 7
      ensures JumpCode(Some(JumpMnemonics[i])).Some? && BitsValue(JumpCode(Some(JumpMnemonics[i])).value) == i + 1
    {
      var code := JumpCode(Some(JumpMnemonics[i])).value;
      assert BitsValue(code[..1]) == if code[0] == '1' then 1 else 0;
      assert code[..2][..1] == code[..1];
      assert BitsValue(code[..2]) == 2 * BitsValue(code[..1]) + (if code[1] == '1' then 1 else 0);
      assert code[..2] == code[..3][..2];
      assert code == code[..3];
    }
  }

  lemma JumpTableDomain(jmp: string)
    requires jmp != ""
    ensures JumpCode(Some(jmp)).Some? <==> jmp in JumpMnemonics
  {
  }

  /** An empty jump field means the same as an absent one. */
  function NoEmptyJump(jmp: Option<string>): Option<string> {
    if jmp == Some("") then None else jmp
  }

  /** Every jump code decodes back to its jump, an absent or empty one reading as no jump. */
  lemma JumpCodeDecodes(jmp: Option<string>)
    requires JumpCode(jmp).Some?
    ensures JumpMnemonic(JumpCode(jmp).value) == Some(NoEmptyJump(jmp))
  {
  }

  function Bit(b: bool): string {
    if b then "1" else "0"
  }

  /**
   * The 3 dest bits, in the order A, D, M: each is 1 when string_search finds
   * that letter in dest; an absent dest gives "000".
   */
  function DestBits(dest: Option<string>): (r: string)
    ensures |r| == 3 && IsBitString(r)
    ensures r[0] == '1' <==> dest.Some? && 'A' in dest.value
    ensures r[1] == '1' <==> dest.Some? && 'D' in dest.value
    ensures r[2] == '1' <==> dest.Some? && 'M' in dest.value
  {
    if dest.None? then "000"
    else
      var aBit := Bit(FirstIndex(dest.value, 'A') != -1);
      var mBit := Bit(FirstIndex(dest.value, 'M') != -1);
      var dBit := Bit(FirstIndex(dest.value, 'D') != -1);
      AppendStrings(AppendStrings(aBit, dBit), mBit)
  }

  /** The four pieces of a 3 + 7 + 3 + 3 character word are its slices at 3, 10 and 13. */
  lemma WordSlices(a: string, b: string, c: string, d: string)
    requires |a| == 3 && |b| == 7 && |c| == 3 && |d| == 3
    ensures var w := a + b + c + d;
            |w| == 16 && w[..3] == a && w[3..10] == b && w[10..13] == c && w[13..] == d
  {
    var w := a + b + c + d;
    assert w[..3] == a;
    assert w[3..10] == b;
    assert w[10..13] == c;
    assert w[13..] == d;
  }

  /**
   * translate_C_instruction: "111" followed by the comp, dest and jump codes,
   * or None when comp or jump is not a known mnemonic.
   */
  function TranslateC(ins: string): (r: Option<string>)
    ensures var p := ExtractParts(ins);
            r.Some? <==> CompCode(p.comp).Some? && JumpCode(p.jmp).Some?
    ensures r.Some? ==> |r.value| == 16 && IsBitString(r.value) && r.value[..3] == "111"
    ensures r.Some? ==>
              var p := ExtractParts(ins);
              && r.value[3..10] == CompCode(p.comp).value
              && r.value[10..13] == DestBits(p.dest)
              && r.value[13..] == JumpCode(p.jmp).value
  {
    var parts := ExtractParts(ins);
    var comp := CompCode(parts.comp);
    var jump := JumpCode(parts.jmp);
    if comp.None? || jump.None? then None
    else
      var word := AppendStrings(AppendStrings(AppendStrings("111", comp.value), DestBits(parts.dest)), jump.value);
      assert word == "111" + comp.value + DestBits(parts.dest) + jump.value;
      WordSlices("111", comp.value, DestBits(parts.dest), jump.value);
      Some(word)
  }

  /**
   * A C-instruction word determines the instruction's comp mnemonic, its jump
   * mnemonic (absent and empty alike) and which of A, D, M its dest names.
   */
  lemma TranslateCDecodes(x: string, y: string)
    requires TranslateC(x).Some? && TranslateC(x) == TranslateC(y)
    ensures ExtractParts(x).comp == ExtractParts(y).comp
    ensures DestBits(ExtractParts(x).dest) == DestBits(ExtractParts(y).dest)
    ensures NoEmptyJump(ExtractParts(x).jmp) == NoEmptyJump(ExtractParts(y).jmp)
  {
    var w := TranslateC(x).value;
    var px, py := ExtractParts(x), ExtractParts(y);
    assert CompCode(px.comp).value == w[3..10] == CompCode(py.comp).value;
    CompCodeInjective(px.comp, py.comp);
    assert JumpCode(px.jmp).value == w[13..] == JumpCode(py.jmp).value;
    JumpCodeDecodes(px.jmp);
    JumpCodeDecodes(py.jmp);
  }

  /** A C-instruction with known comp and jump is "111", then its comp, dest and jump codes. */
  lemma TranslateCWord(ins: string, p: CInstructionParts)
    requires ExtractParts(ins) == p && CompCode(p.comp).Some? && JumpCode(p.jmp).Some?
    ensures TranslateC(ins) == Some("111" + CompCode(p.comp).value + DestBits(p.dest) + JumpCode(p.jmp).value)
  {
  }

  lemma DJumpParts()
    ensures ExtractParts("D;JGT") == CInstructionParts(None, "D", Some("JGT"))
  {
    var ins := "D;JGT";
    assert ins[0] == 'D' && ins[1] == ';' && ins[2] == 'J' && ins[3] == 'G' && ins[4] == 'T';
    ExtractAt(ins, -1, 1);
    assert ins[..1] == "D" && ins[2..] == "JGT";
  }

  /** The C-instruction `D;JGT`: jump when D is positive. */
  lemma DJumpWord()
    ensures TranslateC("D;JGT") == Some("1110001100000001")
  {
    DJumpParts();
    assert CompCode("D") == Some("0001100");
    TranslateCWord("D;JGT", CInstructionParts(None, "D", Some("JGT")));
    assert "111" + "0001100" + "000" + "001" == "1110001100000001";
  }

  lemma ZeroJumpParts()
    ensures ExtractParts("0;JMP") == CInstructionParts(None, "0", Some("JMP"))
  {
    var ins := "0;JMP";
    assert ins[0] == '0' && ins[1] == ';' && ins[2] == 'J' && ins[3] == 'M' && ins[4] == 'P';
    ExtractAt(ins, -1, 1);
    assert ins[..1] == "0" && ins[2..] == "JMP";
  }

  /** The C-instruction `0;JMP`, the program's closing infinite loop. */
  lemma ZeroJumpWord()
    ensures TranslateC("0;JMP") == Some("1110101010000111")
  {
    ZeroJumpParts();
    assert CompCode("0") == Some("0101010");
    TranslateCWord("0;JMP", CInstructionParts(None, "0", Some("JMP")));
    assert "111" + "0101010" + "000" + "111" == "1110101010000111";
  }
}
