/**
 * assemble and add_predefined_symbols of src/assembler.c.
 *
 * The input file is a sequence of lines and the output file the sequence of
 * 16-character words written to it. The two passes are specified by the
 * functions LabelPass and TranslationPass, which walk the cleaned lines the
 * way the two read loops do; the method Assemble runs those loops over a
 * SymbolTable object and is proved to produce Assembly(lines).
 */
module Assembler {
  import opened Common
  import opened Utils
  import opened Symbols
  import opened Encoder

  // ---------------------------------------------------------------------------
  // Predefined symbols
  // ---------------------------------------------------------------------------

  /** The name snprintf(reg_name, 4, "R%d", i) writes for register i (at most two digits fit). */
  function RegisterName(i: int): string {
    "R" + IntToString(i)
  }

  /** The pointer and I/O symbols, in the order add_predefined_symbols adds them. */
  const NamedSymbols: seq<Symbol> := [
    Symbol("SP", 0), Symbol("LCL", 1), Symbol("ARG", 2), Symbol("THIS", 3), Symbol("THAT", 4),
    Symbol("SCREEN", 16384), Symbol("KBD", 24576)
  ]

  /** Everything add_predefined_symbols adds: R0 .. R15 bound to 0 .. 15, then SP, LCL, ARG, THIS, THAT, SCREEN and KBD. */
  function PredefinedSymbols(): (r: seq<Symbol>)
    ensures |r| == 23
    ensures forall i :: 0 <= i < 16 ==> r[i] == Symbol(RegisterName(i), i)
    ensures r[16..] == NamedSymbols
  {
    seq(16, i => Symbol(RegisterName(i), i)) + NamedSymbols
  }

  /** The entries after inserting each of symbols in turn, insert-if-absent. */
  function InsertAll(entries: seq<Symbol>, symbols: seq<Symbol>): seq<Symbol>
    decreases |symbols|
  {
    if symbols == [] then entries
    else
      var last := symbols[|symbols| - 1];
      Inserted(InsertAll(entries, symbols[..|symbols| - 1]), last.name, last.address)
  }

  /** A register name is R followed by the decimal digits of its number. */
  lemma RegisterNameShape(i: nat)
    ensures |RegisterName(i)| >= 2 && RegisterName(i)[0] == 'R' && AllDigits(RegisterName(i)[1..])
  {
    assert RegisterName(i)[1..] == IntToString(i);
  }

  lemma RegisterNamesDistinct(i: nat, j: nat)
    requires i != j
    ensures RegisterName(i) != RegisterName(j)
  {
    if RegisterName(i) == RegisterName(j) {
      assert IntToString(i) == RegisterName(i)[1..] == RegisterName(j)[1..] == IntToString(j);
      IntToStringInjective(i, j);
    }
  }

  /** The 23 predefined names are pairwise distinct. */
  lemma PredefinedDistinct()
    ensures |PredefinedSymbols()| == 23
    ensures NamesDistinct(PredefinedSymbols())
  {
    var p := PredefinedSymbols();
    forall i, j | 0 <= i < j < |p| ensures p[i].name != p[j].name {
      if j < 16 {
        RegisterNamesDistinct(i, j);
      } else {
        assert p[j] == NamedSymbols[j - 16];
        assert p[j].name[0] != 'R';
        if i < 16 {
          RegisterNameShape(i);
        } else {
          assert p[i] == NamedSymbols[i - 16];
        }
      }
    }
  }

  /** Inserting names that are distinct and new appends them all. */
  lemma {:induction false} InsertAllFresh(entries: seq<Symbol>, symbols: seq<Symbol>)
    requires NamesDistinct(entries + symbols)
    ensures InsertAll(entries, symbols) == entries + symbols
    decreases |symbols|
  {
    if symbols != [] {
      var init := symbols[..|symbols| - 1];
      var last := symbols[|symbols| - 1];
      assert (entries + symbols)[..|entries| + |init|] == entries + init;
      InsertAllFresh(entries, init);
      assert !Named(entries + init, last.name) by {
        var all := entries + symbols;
        forall k | 0 <= k < |entries + init| ensures (entries + init)[k].name != last.name {
          assert (entries + init)[k] == all[k] && all[|all| - 1] == last;
        }
      }
      assert entries + init + [last] == entries + symbols;
    }
  }

  /** add_predefined_symbols on an empty table leaves exactly the 23 predefined symbols, in order. */
  lemma PredefinedFromEmpty()
    ensures InsertAll([], PredefinedSymbols()) == PredefinedSymbols()
  {
    PredefinedDistinct();
    assert [] + PredefinedSymbols() == PredefinedSymbols();
    InsertAllFresh([], PredefinedSymbols());
  }

  /** R0 .. R15 stand for the addresses 0 .. 15. */
  lemma RegisterAddresses(i: nat)
    requires i < 16
    ensures Lookup(PredefinedSymbols(), RegisterName(i)) == Some(i)
  {
    PredefinedDistinct();
    LookupDistinct(PredefinedSymbols(), i);
  }

  lemma NamedSymbolsAt()
    ensures var p := PredefinedSymbols();
            && p[16] == Symbol("SP", 0) && p[17] == Symbol("LCL", 1) && p[18] == Symbol("ARG", 2)
            && p[19] == Symbol("THIS", 3) && p[20] == Symbol("THAT", 4)
            && p[21] == Symbol("SCREEN", 16384) && p[22] == Symbol("KBD", 24576)
  {
    var p := PredefinedSymbols();
    assert p[16..] == NamedSymbols;
  }

  /** SP, LCL, ARG, THIS, THAT are 0 .. 4, SCREEN is 16384 and KBD 24576. */
  lemma NamedAddresses()
    ensures Lookup(PredefinedSymbols(), "SP") == Some(0)
    ensures Lookup(PredefinedSymbols(), "LCL") == Some(1)
    ensures Lookup(PredefinedSymbols(), "ARG") == Some(2)
    ensures Lookup(PredefinedSymbols(), "THIS") == Some(3)
    ensures Lookup(PredefinedSymbols(), "THAT") == Some(4)
    ensures Lookup(PredefinedSymbols(), "SCREEN") == Some(16384)
    ensures Lookup(PredefinedSymbols(), "KBD") == Some(24576)
  {
    var p := PredefinedSymbols();
    PredefinedDistinct();
    NamedSymbolsAt();
    LookupDistinct(p, 16);
    LookupDistinct(p, 17);
    LookupDistinct(p, 18);
    LookupDistinct(p, 19);
    LookupDistinct(p, 20);
    LookupDistinct(p, 21);
    LookupDistinct(p, 22);
  }

  lemma InsertAllStep(entries: seq<Symbol>, symbols: seq<Symbol>, k: nat)
    requires k < |symbols|
    ensures InsertAll(entries, symbols[..k + 1]) == Inserted(InsertAll(entries, symbols[..k]), symbols[k].name, symbols[k].address)
  {
    assert symbols[..k + 1][..k] == symbols[..k];
  }

  /** add_predefined_symbols: symbol_table_add of R0 .. R15 in a loop, then of the seven named symbols. */
  method AddPredefinedSymbols(st: SymbolTable)
    requires st.Valid()
    modifies st, st.symbols
    ensures fresh(st.symbols) || st.symbols == old(st.symbols)
    ensures st.Valid()
    ensures st.Contents() == InsertAll(old(st.Contents()), PredefinedSymbols())
  {
    ghost var start := st.Contents();
    ghost var all := PredefinedSymbols();
    var i := 0;
    while i <= 15
      invariant 0 <= i <= 16
      invariant st.Valid()
      invariant fresh(st.symbols) || st.symbols == old(st.symbols)
      invariant st.Contents() == InsertAll(start, all[..i])
    {
      AddTracked(st, RegisterName(i), i, start, all, i);
      i := i + 1;
    }
    AddNamedSymbols(st, start);
  }

  /** One symbol_table_add call of add_predefined_symbols: the one that adds symbols[k]. */
  method AddTracked(st: SymbolTable, name: string, address: int, ghost start: seq<Symbol>,
                    ghost symbols: seq<Symbol>, ghost k: nat)
    requires k < |symbols| && symbols[k] == Symbol(name, address)
    requires st.Valid() && st.Contents() == InsertAll(start, symbols[..k])
    modifies st, st.symbols
    ensures fresh(st.symbols) || st.symbols == old(st.symbols)
    ensures st.Valid()
    ensures st.Contents() == InsertAll(start, symbols[..k + 1])
  {
    var _ := st.Add(name, address);
    InsertAllStep(start, symbols, k);
  }

  /** The seven symbol_table_add calls of add_predefined_symbols after the register loop. */
  method AddNamedSymbols(st: SymbolTable, ghost start: seq<Symbol>)
    requires st.Valid() && st.Contents() == InsertAll(start, PredefinedSymbols()[..16])
    modifies st, st.symbols
    ensures fresh(st.symbols) || st.symbols == old(st.symbols)
    ensures st.Valid()
    ensures st.Contents() == InsertAll(start, PredefinedSymbols())
  {
    ghost var p := PredefinedSymbols();
    NamedSymbolsAt();
    AddTracked(st, "SP", 0, start, p, 16);
    AddTracked(st, "LCL", 1, start, p, 17);
    AddTracked(st, "ARG", 2, start, p, 18);
    AddTracked(st, "THIS", 3, start, p, 19);
    AddLastNamedSymbols(st, start);
  }

  /** The calls adding THAT, SCREEN and KBD. */
  method AddLastNamedSymbols(st: SymbolTable, ghost start: seq<Symbol>)
    requires st.Valid() && st.Contents() == InsertAll(start, PredefinedSymbols()[..20])
    modifies st, st.symbols
    ensures fresh(st.symbols) || st.symbols == old(st.symbols)
    ensures st.Valid()
    ensures st.Contents() == InsertAll(start, PredefinedSymbols())
  {
    ghost var p := PredefinedSymbols();
    NamedSymbolsAt();
    AddTracked(st, "THAT", 4, start, p, 20);
    AddTracked(st, "SCREEN", 16384, start, p, 21);
    AddTracked(st, "KBD", 24576, start, p, 22);
    assert p[..23] == p;
  }

  // ---------------------------------------------------------------------------
  // First pass: labels
  // ---------------------------------------------------------------------------

  /** A cleaned line the second pass turns into a word: neither empty nor a label. */
  predicate IsInstruction(c: string) {
    |c| > 0 && !IsLabel(c)
  }

  /** The value of line_number once the first pass has read lines: how many of them are instructions. */
  function InstructionCount(lines: seq<string>): (n: nat)
    ensures n <= |lines|
  {
    if lines == [] then 0
    else InstructionCount(lines[..|lines| - 1]) + (if IsInstruction(Cleaned(lines[|lines| - 1])) then 1 else 0)
  }

  /** The indices of the lines whose cleaned form is an instruction. */
  function InstructionLines(lines: seq<string>): set<nat> {
    set i: nat | i < |lines| && IsInstruction(Cleaned(lines[i]))
  }

  /** line_number counts exactly the instruction lines. */
  lemma {:induction false} InstructionCountLines(lines: seq<string>)
    ensures InstructionCount(lines) == |InstructionLines(lines)|
  {
    if lines != [] {
      var n := |lines| - 1;
      InstructionCountLines(lines[..n]);
      InstructionLinesStep(lines);
    }
  }

  lemma InstructionLinesStep(lines: seq<string>)
    requires lines != []
    ensures InstructionLines(lines)
         == InstructionLines(lines[..|lines| - 1])
            + if IsInstruction(Cleaned(lines[|lines| - 1])) then {|lines| - 1} else {}
    ensures |lines| - 1 !in InstructionLines(lines[..|lines| - 1])
  {
    var n := |lines| - 1;
    var init := lines[..n];
    assert forall i :: 0 <= i < n ==> init[i] == lines[i];
  }

  /** The label a line declares, if its cleaned form is a label line. */
  function DeclaredLabel(line: string): Option<string> {
    var c := Cleaned(line);
    if IsLabel(c) then Some(ExtractLabel(c)) else None
  }

  /** One iteration of the first read loop on the cleaned line c: a label line binds its label to count unless it is bound. */
  function LabelLine(entries: seq<Symbol>, c: string, count: nat): seq<Symbol> {
    if IsLabel(c) then Inserted(entries, ExtractLabel(c), count) else entries
  }

  /** The symbol entries after the first pass over lines, starting from entries. */
  function LabelPass(entries: seq<Symbol>, lines: seq<string>): seq<Symbol> {
    if lines == [] then entries
    else
      var init := lines[..|lines| - 1];
      LabelLine(LabelPass(entries, init), Cleaned(lines[|lines| - 1]), InstructionCount(init))
  }

  /** The first pass over the first i + 1 lines is the pass over the first i followed by line i. */
  lemma LabelPassStep(entries: seq<Symbol>, lines: seq<string>, i: nat)
    requires i < |lines|
    ensures LabelPass(entries, lines[..i + 1])
         == LabelLine(LabelPass(entries, lines[..i]), Cleaned(lines[i]), InstructionCount(lines[..i]))
    ensures InstructionCount(lines[..i + 1])
         == InstructionCount(lines[..i]) + if IsInstruction(Cleaned(lines[i])) then 1 else 0
  {
    assert lines[..i + 1][..i] == lines[..i];
  }

  /** The index of the first line declaring the label name, if any. */
  function FirstDeclaration(lines: seq<string>, name: string): (r: Option<nat>)
    ensures r.Some? ==> r.value < |lines| && DeclaredLabel(lines[r.value]) == Some(name)
    ensures r.Some? ==> forall j :: 0 <= j < r.value ==> DeclaredLabel(lines[j]) != Some(name)
    ensures r.None? ==> forall j :: 0 <= j < |lines| ==> DeclaredLabel(lines[j]) != Some(name)
  {
    if lines == [] then None
    else
      var init := lines[..|lines| - 1];
      var first := FirstDeclaration(init, name);
      if first.Some? then
        assert forall j :: 0 <= j < first.value ==> lines[j] == init[j];
        Some(first.value)
      else if DeclaredLabel(lines[|lines| - 1]) == Some(name) then
        assert forall j :: 0 <= j < |init| ==> lines[j] == init[j];
        Some(|lines| - 1)
      else
        assert forall j :: 0 <= j < |init| ==> lines[j] == init[j];
        None
  }

  /** The number of instruction lines before the first declaration of the label name, if it is declared. */
  function LabelAddress(lines: seq<string>, name: string): Option<nat> {
    match FirstDeclaration(lines, name)
    case Some(k) => Some(InstructionCount(lines[..k]))
    case None => None
  }

  /** Where a label's address comes from once one more line is read: an earlier declaration, or this line. */
  lemma LabelAddressStep(lines: seq<string>, name: string)
    requires lines != []
    ensures LabelAddress(lines, name)
         == if LabelAddress(lines[..|lines| - 1], name).Some? then LabelAddress(lines[..|lines| - 1], name)
            else if DeclaredLabel(lines[|lines| - 1]) == Some(name) then Some(InstructionCount(lines[..|lines| - 1]))
            else None
  {
    var init := lines[..|lines| - 1];
    var first := FirstDeclaration(init, name);
    if first.Some? {
      assert init[..first.value] == lines[..first.value];
    }
  }

  /**
   * What a name is bound to after the first pass: its earlier binding if it
   * had one, otherwise the number of instruction lines before the first line
   * declaring it as a label, otherwise nothing. Later declarations of the
   * same label change nothing.
   */
  lemma {:induction false} LabelPassLookup(entries: seq<Symbol>, lines: seq<string>, name: string)
    ensures Lookup(LabelPass(entries, lines), name)
         == if Named(entries, name) then Lookup(entries, name) else LabelAddress(lines, name)
  {
    if lines != [] {
      var init := lines[..|lines| - 1];
      var before := LabelPass(entries, init);
      var c := Cleaned(lines[|lines| - 1]);
      LabelPassLookup(entries, init, name);
      LabelAddressStep(lines, name);
      assert LabelPass(entries, lines) == LabelLine(before, c, InstructionCount(init));
      if IsLabel(c) {
        InsertedFacts(before, ExtractLabel(c), InstructionCount(init));
      }
    }
  }

  /** The first pass only appends entries, and keeps their names distinct. */
  lemma {:induction false} LabelPassExtends(entries: seq<Symbol>, lines: seq<string>)
    ensures entries <= LabelPass(entries, lines)
    ensures NamesDistinct(entries) ==> NamesDistinct(LabelPass(entries, lines))
  {
    if lines != [] {
      var init := lines[..|lines| - 1];
      LabelPassExtends(entries, init);
      var c := Cleaned(lines[|lines| - 1]);
      if IsLabel(c) {
        InsertedFacts(LabelPass(entries, init), ExtractLabel(c), InstructionCount(init));
      }
    }
  }

  // ---------------------------------------------------------------------------
  // Second pass: translation
  // ---------------------------------------------------------------------------

  /**
   * An instruction the code cannot translate: its comp or jump field is not
   * in the tables (the C code goes on with an uninitialised code string).
   */
  datatype AsmError = InvalidInstruction(lineIndex: nat, text: string)

  /** What the second pass carries from line to line: the table, variable_address and the words written. */
  datatype PassState = PassState(entries: seq<Symbol>, nextVariable: nat, words: seq<string>)

  /** An '@' line whose operand is a name rather than a numeric literal. */
  predicate IsSymbolic(c: string) {
    |c| > 0 && c[0] == '@' && !IsAInstruction(c)
  }

  /** The state after "@name": the word for the address bound to name, binding name to the next variable address if it is new. */
  function SymbolLine(s: PassState, name: string): PassState {
    match Lookup(s.entries, name)
    case Some(address) => s.(words := s.words + [AddressWord(address)])
    case None =>
      PassState(Inserted(s.entries, name, s.nextVariable), s.nextVariable + 1, s.words + [AddressWord(s.nextVariable)])
  }

  /**
   * One iteration of the second read loop on the cleaned line c (at index
   * lineIndex): empty and label lines are skipped; a numeric A-instruction is
   * translated directly; a symbolic one is translated to the address bound
   * to its name, binding the name to variable_address first if it is new;
   * anything else is a C-instruction.
   */
  function TranslateLine(s: PassState, c: string, lineIndex: nat): Result<PassState, AsmError> {
    if !IsInstruction(c) then Ok(s)
    else if c[0] == '@' then
      if IsAInstruction(c) then Ok(s.(words := s.words + [TranslateA(c)]))
      else Ok(SymbolLine(s, c[1..]))
    else
      match TranslateC(c)
      case Some(word) => Ok(s.(words := s.words + [word]))
      case None => Err(InvalidInstruction(lineIndex, c))
  }

  /** The second pass over lines with the table the first pass built; variables start at 16. */
  function TranslationPass(table: seq<Symbol>, lines: seq<string>): Result<PassState, AsmError> {
    if lines == [] then Ok(PassState(table, 16, []))
    else
      match TranslationPass(table, lines[..|lines| - 1])
      case Err(e) => Err(e)
      case Ok(s) => TranslateLine(s, Cleaned(lines[|lines| - 1]), |lines| - 1)
  }

  /** assemble: the words written for lines, or the first line that cannot be translated. */
  function Assembly(lines: seq<string>): Result<seq<string>, AsmError> {
    match TranslationPass(LabelPass(PredefinedSymbols(), lines), lines)
    case Ok(s) => Ok(s.words)
    case Err(e) => Err(e)
  }

  // ---------------------------------------------------------------------------
  // The assembler
  // ---------------------------------------------------------------------------

  /** translate_A_instruction: convert_to_binary of the text after '@', then pad_left to 16. */
  method TranslateAInstruction(ins: string) returns (word: string)
    requires |ins| >= 1
    ensures word == TranslateA(ins)
  {
    var binary := ConvertToBinary(ins[1..]);
    word := PadLeft(binary, 16);
  }

  /** The int_to_string, convert_to_binary, pad_left chain assemble applies to a symbol's address. */
  method AddressInstruction(address: int) returns (word: string)
    ensures word == AddressWord(address)
  {
    var text := IntToString(address);
    var binary := ConvertToBinary(text);
    StrtolIntToString(address);
    word := PadLeft(binary, 16);
  }

  /** The variable branch of the second read loop: the word for "@name", binding name first when it is new. */
  method SymbolStep(st: SymbolTable, name: string, variableAddress: nat, words: seq<string>)
    returns (next: nat, out: seq<string>)
    requires st.Valid()
    modifies st, st.symbols
    ensures fresh(st.symbols) || st.symbols == old(st.symbols)
    ensures st.Valid()
    ensures PassState(st.Contents(), next, out) == SymbolLine(PassState(old(st.Contents()), variableAddress, words), name)
  {
    var present := st.Contains(name);
    if present {
      var found, address := st.GetAddress(name, 0);
      var word := AddressInstruction(address);
      next, out := variableAddress, words + [word];
    } else {
      ghost var before := st.Contents();
      var _ := st.Add(name, variableAddress);
      InsertedFacts(before, name, variableAddress);
      var found, address := st.GetAddress(name, 0);
      var word := AddressInstruction(address);
      next, out := variableAddress + 1, words + [word];
    }
  }

  /** The body of the second read loop for one cleaned line; failed reports an untranslatable instruction. */
  method TranslateStep(st: SymbolTable, c: string, lineIndex: nat, variableAddress: nat, words: seq<string>)
    returns (failed: bool, next: nat, out: seq<string>)
    requires st.Valid()
    modifies st, st.symbols
    ensures fresh(st.symbols) || st.symbols == old(st.symbols)
    ensures st.Valid()
    ensures var r := TranslateLine(PassState(old(st.Contents()), variableAddress, words), c, lineIndex);
            if failed then r == Err(InvalidInstruction(lineIndex, c))
            else r == Ok(PassState(st.Contents(), next, out))
    ensures failed ==> st.Contents() == old(st.Contents())
  {
    if |c| == 0 || IsLabel(c) {
      return false, variableAddress, words;
    }
    if c[0] == '@' {
      if IsAInstruction(c) {
        var word := TranslateAInstruction(c);
        return false, variableAddress, words + [word];
      }
      next, out := SymbolStep(st, c[1..], variableAddress, words);
      return false, next, out;
    }
    var word := TranslateC(c);
    if word.None? {
      return true, variableAddress, words;
    }
    return false, variableAddress, words + [word.value];
  }

  /** The second pass over the first i + 1 lines is the pass over the first i followed by line i. */
  lemma TranslationPassStep(table: seq<Symbol>, lines: seq<string>, i: nat)
    requires i < |lines|
    ensures TranslationPass(table, lines[..i + 1])
         == match TranslationPass(table, lines[..i])
            case Err(e) => Err(e)
            case Ok(s) => TranslateLine(s, Cleaned(lines[i]), i)
  {
    assert lines[..i + 1][..i] == lines[..i];
  }

  /** A failed prefix fails the whole pass with the same error. */
  lemma {:induction false} FailureSticks(table: seq<Symbol>, lines: seq<string>, k: nat)
    requires k <= |lines| && TranslationPass(table, lines[..k]).Err?
    ensures TranslationPass(table, lines) == TranslationPass(table, lines[..k])
    decreases |lines|
  {
    if k < |lines| {
      var init := lines[..|lines| - 1];
      assert init[..k] == lines[..k];
      FailureSticks(table, init, k);
    } else {
      assert lines[..k] == lines;
    }
  }

  /** The body of the first read loop for one cleaned line; returns the new line_number. */
  method LabelStep(st: SymbolTable, c: string, lineNumber: nat) returns (next: nat)
    requires st.Valid()
    modifies st, st.symbols
    ensures fresh(st.symbols) || st.symbols == old(st.symbols)
    ensures st.Valid()
    ensures st.Contents() == LabelLine(old(st.Contents()), c, lineNumber)
    ensures next == if IsInstruction(c) then lineNumber + 1 else lineNumber
  {
    if |c| == 0 {
      return lineNumber;
    }
    if IsLabel(c) {
      var name := ExtractLabel(c);
      var _ := st.Add(name, lineNumber);
      return lineNumber;
    }
    return lineNumber + 1;
  }

  /** The first read loop of assemble: record every label at the current line_number. */
  method FirstPass(st: SymbolTable, lines: seq<string>)
    requires st.Valid()
    modifies st, st.symbols
    ensures fresh(st.symbols) || st.symbols == old(st.symbols)
    ensures st.Valid()
    ensures st.Contents() == LabelPass(old(st.Contents()), lines)
  {
    ghost var start := st.Contents();
    var lineNumber := 0;
    var i := 0;
    while i < |lines|
      invariant 0 <= i <= |lines|
      invariant st.Valid()
      invariant fresh(st.symbols) || st.symbols == old(st.symbols)
      invariant st.Contents() == LabelPass(start, lines[..i])
      invariant lineNumber == InstructionCount(lines[..i])
    {
      var cleared := ClearLine(lines[i]);
      LabelPassStep(start, lines, i);
      lineNumber := LabelStep(st, cleared, lineNumber);
      i := i + 1;
    }
    assert lines[..i] == lines;
  }

  /** The second read loop of assemble: one word per instruction, variables from 16 on. */
  method SecondPass(st: SymbolTable, lines: seq<string>) returns (r: Result<seq<string>, AsmError>)
    requires st.Valid()
    modifies st, st.symbols
    ensures fresh(st.symbols) || st.symbols == old(st.symbols)
    ensures st.Valid()
    ensures r == match TranslationPass(old(st.Contents()), lines)
                 case Ok(s) => Ok(s.words)
                 case Err(e) => Err(e)
    ensures TranslationPass(old(st.Contents()), lines).Ok? ==>
              st.Contents() == TranslationPass(old(st.Contents()), lines).value.entries
  {
    ghost var table := st.Contents();
    var variableAddress := 16;
    var words := [];
    var i := 0;
    while i < |lines|
      invariant 0 <= i <= |lines|
      invariant st.Valid()
      invariant fresh(st.symbols) || st.symbols == old(st.symbols)
      invariant TranslationPass(table, lines[..i]) == Ok(PassState(st.Contents(), variableAddress, words))
    {
      var cleared := ClearLine(lines[i]);
      TranslationPassStep(table, lines, i);
      var failed;
      failed, variableAddress, words := TranslateStep(st, cleared, i, variableAddress, words);
      if failed {
        assert TranslationPass(table, lines[..i + 1]) == Err(InvalidInstruction(i, cleared));
        FailureSticks(table, lines, i + 1);
        return Err(InvalidInstruction(i, cleared));
      }
      assert TranslationPass(table, lines[..i + 1]) == Ok(PassState(st.Contents(), variableAddress, words));
      i := i + 1;
    }
    assert lines[..i] == lines;
    return Ok(words);
  }

  /**
   * assemble: a table of capacity 23 with the predefined symbols, a first
   * pass recording labels, a second pass writing one word per instruction,
   * then symbol_table_free. On an untranslatable instruction the model stops
   * with that line's error.
   */
  method Assemble(lines: seq<string>) returns (r: Result<seq<string>, AsmError>)
    ensures r == Assembly(lines)
  {
    var st := new SymbolTable(23);
    AddPredefinedSymbols(st);
    PredefinedFromEmpty();
    FirstPass(st, lines);
    r := SecondPass(st, lines);
    st.Free();
  }
}
