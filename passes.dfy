/**
 * What the two passes of assemble guarantee about the words they write:
 * one word per instruction line, at the position given by the number of
 * instruction lines before it; variables bound to 16, 17, ... in the order
 * of their first use; every symbolic A-instruction resolved against the
 * final table, so that labels may be used before they are declared; and
 * every word a bit string of at least 16 characters.
 */
module PassFacts {
  import opened Common
  import opened Utils
  import opened Symbols
  import opened Encoder
  import opened Assembler

  // ---------------------------------------------------------------------------
  // Variables
  // ---------------------------------------------------------------------------

  /**
   * The names the second pass binds as variables, in the order of their
   * first use: operands of symbolic A-instructions that the table does not
   * bind, each taken once.
   */
  function VariableNames(table: seq<Symbol>, lines: seq<string>): (names: seq<string>)
    ensures Distinct(names)
  {
    if lines == [] then []
    else
      NextNames(table, VariableNames(table, lines[..|lines| - 1]), Cleaned(lines[|lines| - 1]))
  }

  /** The j-th name bound to base + j. */
  function Allocated(names: seq<string>, base: nat): (r: seq<Symbol>)
    ensures |r| == |names|
    ensures forall j :: 0 <= j < |names| ==> r[j] == Symbol(names[j], base + j)
  {
    seq(|names|, j requires 0 <= j < |names| => Symbol(names[j], base + j))
  }

  lemma NamedAllocated(table: seq<Symbol>, names: seq<string>, base: nat, name: string)
    ensures Named(table + Allocated(names, base), name) <==> Named(table, name) || name in names
  {
    var all := table + Allocated(names, base);
    if name in names {
      var j :| 0 <= j < |names| && names[j] == name;
      assert all[|table| + j].name == name;
    }
    if Named(table, name) {
      var i :| 0 <= i < |table| && table[i].name == name;
      assert all[i].name == name;
    }
    if Named(all, name) {
      var i :| 0 <= i < |all| && all[i].name == name;
      if i >= |table| {
        assert names[i - |table|] == name;
      } else {
        assert table[i].name == name;
      }
    }
  }

  lemma AllocatedSnoc(table: seq<Symbol>, names: seq<string>, base: nat, name: string)
    ensures table + Allocated(names, base) + [Symbol(name, base + |names|)] == table + Allocated(names + [name], base)
  {
  }

  /** The variable names after one more cleaned line c, given those before it. */
  function NextNames(table: seq<Symbol>, names: seq<string>, c: string): seq<string> {
    if IsSymbolic(c) && !Named(table, c[1..]) && c[1..] !in names then names + [c[1..]] else names
  }

  /** One more line in the pass: how the variable names grow. */
  lemma VariableNamesStep(table: seq<Symbol>, lines: seq<string>, i: nat)
    requires i < |lines|
    ensures VariableNames(table, lines[..i + 1]) == NextNames(table, VariableNames(table, lines[..i]), Cleaned(lines[i]))
  {
    assert lines[..i + 1][..i] == lines[..i];
  }

  /** One line of the second pass keeps the table shaped as the first pass's table followed by the variables. */
  lemma VariablesLine(table: seq<Symbol>, names: seq<string>, s: PassState, c: string, i: nat)
    requires s.entries == table + Allocated(names, 16) && s.nextVariable == 16 + |names|
    requires TranslateLine(s, c, i).Ok?
    ensures TranslateLine(s, c, i).value.entries == table + Allocated(NextNames(table, names, c), 16)
    ensures TranslateLine(s, c, i).value.nextVariable == 16 + |NextNames(table, names, c)|
  {
    if IsSymbolic(c) {
      NamedAllocated(table, names, 16, c[1..]);
      if !Named(s.entries, c[1..]) {
        AllocatedSnoc(table, names, 16, c[1..]);
      }
    }
  }

  /**
   * Variables get the addresses 16, 17, ... in the order of their first use:
   * after the pass the table is the first pass's table followed by the
   * variable names bound to consecutive addresses from 16, and
   * variable_address is the next free one.
   */
  lemma {:induction false} VariablesAllocated(table: seq<Symbol>, lines: seq<string>)
    requires TranslationPass(table, lines).Ok?
    ensures var s := TranslationPass(table, lines).value;
            && s.entries == table + Allocated(VariableNames(table, lines), 16)
            && s.nextVariable == 16 + |VariableNames(table, lines)|
  {
    if lines == [] {
      assert table + Allocated([], 16) == table;
    } else {
      var n := |lines| - 1;
      TranslationPassStep(table, lines, n);
      VariableNamesStep(table, lines, n);
      assert lines[..n + 1] == lines;
      VariablesAllocated(table, lines[..n]);
      VariablesLine(table, VariableNames(table, lines[..n]), TranslationPass(table, lines[..n]).value, Cleaned(lines[n]), n);
    }
  }

  // ---------------------------------------------------------------------------
  // Words
  // ---------------------------------------------------------------------------

  /**
   * The word an instruction line stands for, given the symbol entries: a
   * numeric A-instruction is its literal, a symbolic one the address bound
   * to its name, anything else a C-instruction; None when the name is
   * unbound or the C-instruction is invalid.
   */
  function LineWord(entries: seq<Symbol>, c: string): Option<string>
    requires IsInstruction(c)
  {
    if c[0] == '@' then
      if IsAInstruction(c) then Some(TranslateA(c))
      else match Lookup(entries, c[1..])
           case Some(address) => Some(AddressWord(address))
           case None => None
    else TranslateC(c)
  }

  /** One line of the second pass keeps earlier entries and words, and adds one word exactly for an instruction. */
  lemma TranslateLineGrows(s: PassState, c: string, i: nat)
    requires TranslateLine(s, c, i).Ok?
    ensures var t := TranslateLine(s, c, i).value;
            && s.entries <= t.entries && s.words <= t.words
            && |t.words| == |s.words| + (if IsInstruction(c) then 1 else 0)
            && (IsInstruction(c) ==> LineWord(t.entries, c) == Some(t.words[|s.words|]))
  {
    var t := TranslateLine(s, c, i).value;
    if IsSymbolic(c) {
      InsertedFacts(s.entries, c[1..], s.nextVariable);
    }
  }

  /** Lookups of names already bound do not change when entries are appended. */
  lemma LineWordStable(entries: seq<Symbol>, more: seq<Symbol>, c: string)
    requires IsInstruction(c) && LineWord(entries, c).Some?
    ensures LineWord(entries + more, c) == LineWord(entries, c)
  {
    if c[0] == '@' && !IsAInstruction(c) {
      LookupPrefix(entries, more, c[1..]);
    }
  }

  /**
   * Exactly one word per instruction line: the pass writes as many words as
   * there are instruction lines, and the word for instruction line k sits
   * at the index counting the instruction lines before it and is that
   * line's word under the final table.
   */
  lemma {:induction false} WordsOfLines(table: seq<Symbol>, lines: seq<string>)
    requires TranslationPass(table, lines).Ok?
    ensures var s := TranslationPass(table, lines).value;
            && table <= s.entries
            && |s.words| == InstructionCount(lines)
            && forall k :: 0 <= k < |lines| && IsInstruction(Cleaned(lines[k])) ==>
                 InstructionCount(lines[..k]) < |s.words|
                 && LineWord(s.entries, Cleaned(lines[k])) == Some(s.words[InstructionCount(lines[..k])])
  {
    if lines != [] {
      var n := |lines| - 1;
      var init := lines[..n];
      TranslationPassStep(table, lines, n);
      LabelPassStep([], lines, n);
      assert lines[..n + 1] == lines;
      WordsOfLines(table, init);
      var s := TranslationPass(table, init).value;
      var t := TranslationPass(table, lines).value;
      var c := Cleaned(lines[n]);
      TranslateLineGrows(s, c, n);
      forall k | 0 <= k < |lines| && IsInstruction(Cleaned(lines[k]))
        ensures InstructionCount(lines[..k]) < |t.words|
        ensures LineWord(t.entries, Cleaned(lines[k])) == Some(t.words[InstructionCount(lines[..k])])
      {
        if k < n {
          EarlierWordKept(init, lines, k, s, t);
        } else {
          assert lines[..k] == init;
        }
      }
    }
  }

  /** A word written for an earlier line stays in place and keeps its meaning when the pass reads on. */
  lemma EarlierWordKept(init: seq<string>, lines: seq<string>, k: nat, s: PassState, t: PassState)
    requires init <= lines && k < |init| && IsInstruction(Cleaned(lines[k]))
    requires s.entries <= t.entries && s.words <= t.words
    requires InstructionCount(init[..k]) < |s.words|
    requires LineWord(s.entries, Cleaned(init[k])) == Some(s.words[InstructionCount(init[..k])])
    ensures InstructionCount(lines[..k]) < |t.words|
    ensures LineWord(t.entries, Cleaned(lines[k])) == Some(t.words[InstructionCount(lines[..k])])
  {
    assert init[k] == lines[k] && init[..k] == lines[..k];
    var more := t.entries[|s.entries|..];
    assert t.entries == s.entries + more;
    LineWordStable(s.entries, more, Cleaned(lines[k]));
  }

  // ---------------------------------------------------------------------------
  // Errors
  // ---------------------------------------------------------------------------

  /** A cleaned line the second pass cannot translate: a C-instruction with an unknown comp or jump. */
  predicate InvalidLine(c: string) {
    IsInstruction(c) && c[0] != '@' && TranslateC(c).None?
  }

  /** One line fails exactly when it is an invalid C-instruction, and the error names it. */
  lemma TranslateLineFailure(s: PassState, c: string, i: nat)
    ensures TranslateLine(s, c, i).Err? <==> InvalidLine(c)
    ensures TranslateLine(s, c, i).Err? ==> TranslateLine(s, c, i).error == InvalidInstruction(i, c)
  {
  }

  /**
   * The second pass fails exactly when some line is an invalid C-instruction,
   * and then reports the first such line with its cleaned text.
   */
  lemma {:induction false} PassFailure(table: seq<Symbol>, lines: seq<string>)
    ensures TranslationPass(table, lines).Err? <==> exists k :: 0 <= k < |lines| && InvalidLine(Cleaned(lines[k]))
    ensures TranslationPass(table, lines).Err? ==>
              var e := TranslationPass(table, lines).error;
              && e.lineIndex < |lines| && e.text == Cleaned(lines[e.lineIndex]) && InvalidLine(e.text)
              && forall k :: 0 <= k < e.lineIndex ==> !InvalidLine(Cleaned(lines[k]))
  {
    PassFailsAtFirst(table, lines);
  }

  /** r fails exactly when some line is invalid, and then with the first invalid line. */
  predicate FailsAtFirstInvalid(lines: seq<string>, r: Result<PassState, AsmError>) {
    && (r.Err? <==> exists k :: 0 <= k < |lines| && InvalidLine(Cleaned(lines[k])))
    && (r.Err? ==>
          && r.error.lineIndex < |lines| && r.error.text == Cleaned(lines[r.error.lineIndex])
          && InvalidLine(r.error.text)
          && forall k :: 0 <= k < r.error.lineIndex ==> !InvalidLine(Cleaned(lines[k])))
  }

  lemma {:induction false} PassFailsAtFirst(table: seq<Symbol>, lines: seq<string>)
    ensures FailsAtFirstInvalid(lines, TranslationPass(table, lines))
  {
    if lines != [] {
      var n := |lines| - 1;
      TranslationPassStep(table, lines, n);
      assert lines[..n + 1] == lines;
      PassFailsAtFirst(table, lines[..n]);
      var prev := TranslationPass(table, lines[..n]);
      if prev.Ok? {
        TranslateLineFailure(prev.value, Cleaned(lines[n]), n);
      }
      FailureStep(lines, prev, TranslationPass(table, lines));
    }
  }

  /** Extending the lines by one keeps FailsAtFirstInvalid, given how the pass treats the new line. */
  lemma FailureStep(lines: seq<string>, prev: Result<PassState, AsmError>, r: Result<PassState, AsmError>)
    requires lines != [] && FailsAtFirstInvalid(lines[..|lines| - 1], prev)
    requires prev.Err? ==> r == prev
    requires prev.Ok? ==> (r.Err? <==> InvalidLine(Cleaned(lines[|lines| - 1])))
    requires prev.Ok? && r.Err? ==> r.error == InvalidInstruction(|lines| - 1, Cleaned(lines[|lines| - 1]))
    ensures FailsAtFirstInvalid(lines, r)
  {
    var n := |lines| - 1;
    var init := lines[..n];
    assert forall k :: 0 <= k < n ==> init[k] == lines[k];
    if prev.Err? {
      var i := prev.error.lineIndex;
      assert InvalidLine(Cleaned(lines[i]));
    } else if r.Err? {
      assert InvalidLine(Cleaned(lines[n]));
    }
  }

  // ---------------------------------------------------------------------------
  // Well-formed words
  // ---------------------------------------------------------------------------

  predicate NonNegative(entries: seq<Symbol>) {
    forall i :: 0 <= i < |entries| ==> entries[i].address >= 0
  }

  predicate WellFormedWord(w: string) {
    IsBitString(w) && |w| >= 16
  }

  /** The first pass binds labels to line counts, so addresses stay non-negative. */
  lemma {:induction false} LabelPassNonNegative(entries: seq<Symbol>, lines: seq<string>)
    requires NonNegative(entries)
    ensures NonNegative(LabelPass(entries, lines))
  {
    if lines != [] {
      var init := lines[..|lines| - 1];
      LabelPassNonNegative(entries, init);
    }
  }

  predicate AllWellFormed(words: seq<string>) {
    forall j :: 0 <= j < |words| ==> WellFormedWord(words[j])
  }

  lemma AppendAddressWord(words: seq<string>, v: nat)
    requires AllWellFormed(words)
    ensures AllWellFormed(words + [AddressWord(v)])
  {
    AddressWordFacts(v);
    var w := AddressWord(v);
    assert WellFormedWord(w);
    assert forall j :: 0 <= j < |words| ==> (words + [w])[j] == words[j];
  }

  /** "@name" binds only non-negative addresses and writes a well-formed word. */
  lemma SymbolLineWellFormed(s: PassState, name: string)
    requires NonNegative(s.entries) && AllWellFormed(s.words)
    ensures NonNegative(SymbolLine(s, name).entries) && AllWellFormed(SymbolLine(s, name).words)
  {
    var address := Lookup(s.entries, name);
    if address.Some? {
      var i :| 0 <= i < |s.entries| && s.entries[i] == Symbol(name, address.value);
      AppendAddressWord(s.words, address.value);
    } else {
      AppendAddressWord(s.words, s.nextVariable);
      assert NonNegative(s.entries + [Symbol(name, s.nextVariable)]);
    }
  }

  /** One line of the second pass writes only well-formed words and binds only non-negative addresses. */
  lemma TranslateLineWellFormed(s: PassState, c: string, i: nat)
    requires NonNegative(s.entries) && AllWellFormed(s.words)
    requires TranslateLine(s, c, i).Ok?
    ensures NonNegative(TranslateLine(s, c, i).value.entries) && AllWellFormed(TranslateLine(s, c, i).value.words)
  {
    if IsInstruction(c) && c[0] == '@' {
      if IsAInstruction(c) {
        TranslateAFacts(c);
      } else {
        SymbolLineWellFormed(s, c[1..]);
      }
    }
  }

  lemma {:induction false} PassWellFormed(table: seq<Symbol>, lines: seq<string>)
    requires NonNegative(table) && TranslationPass(table, lines).Ok?
    ensures NonNegative(TranslationPass(table, lines).value.entries)
    ensures AllWellFormed(TranslationPass(table, lines).value.words)
  {
    if lines != [] {
      var n := |lines| - 1;
      TranslationPassStep(table, lines, n);
      assert lines[..n + 1] == lines;
      PassWellFormed(table, lines[..n]);
      TranslateLineWellFormed(TranslationPass(table, lines[..n]).value, Cleaned(lines[n]), n);
    }
  }

  // ---------------------------------------------------------------------------
  // assemble, end to end
  // ---------------------------------------------------------------------------

  /**
   * Every word assemble writes is a bit string of at least 16 characters,
   * and there is one per instruction line.
   */
  lemma AssemblyWellFormed(lines: seq<string>)
    requires Assembly(lines).Ok?
    ensures |Assembly(lines).value| == InstructionCount(lines)
    ensures forall j :: 0 <= j < |Assembly(lines).value| ==> WellFormedWord(Assembly(lines).value[j])
  {
    var table := LabelPass(PredefinedSymbols(), lines);
    PredefinedNonNegative();
    LabelPassNonNegative(PredefinedSymbols(), lines);
    PassWellFormed(table, lines);
    WordsOfLines(table, lines);
    assert Assembly(lines).value == TranslationPass(table, lines).value.words;
  }

  lemma PredefinedNonNegative()
    ensures NonNegative(PredefinedSymbols())
  {
    var p := PredefinedSymbols();
    forall i | 0 <= i < |p|
      ensures p[i].address >= 0
    {
      if i >= 16 {
        assert p[i] == NamedSymbols[i - 16];
      }
    }
  }

  /** assemble fails exactly when a line is an invalid C-instruction, and names the first one. */
  lemma AssemblyFailure(lines: seq<string>)
    ensures Assembly(lines).Err? <==> exists k :: 0 <= k < |lines| && InvalidLine(Cleaned(lines[k]))
    ensures Assembly(lines).Err? ==>
              var e := Assembly(lines).error;
              && e.lineIndex < |lines| && e.text == Cleaned(lines[e.lineIndex]) && InvalidLine(e.text)
              && forall k :: 0 <= k < e.lineIndex ==> !InvalidLine(Cleaned(lines[k]))
  {
    PassFailure(LabelPass(PredefinedSymbols(), lines), lines);
  }

  /** The word LineWord gives a symbolic A-instruction is the address its name is bound to. */
  lemma SymbolicWord(entries: seq<Symbol>, c: string, w: string)
    requires IsSymbolic(c) && LineWord(entries, c) == Some(w)
    ensures Lookup(entries, c[1..]).Some? && w == AddressWord(Lookup(entries, c[1..]).value)
  {
  }

  /** How a name resolves once the variables have been appended to the table. */
  lemma AllocatedLookup(table: seq<Symbol>, variables: seq<string>, name: string)
    requires Distinct(variables)
    ensures Named(table, name) ==> Lookup(table + Allocated(variables, 16), name) == Lookup(table, name)
    ensures !Named(table, name) && Named(table + Allocated(variables, 16), name) ==> name in variables
    ensures !Named(table, name) ==>
              forall j :: 0 <= j < |variables| && variables[j] == name ==>
                Lookup(table + Allocated(variables, 16), name) == Some(16 + j)
  {
    if Named(table, name) {
      LookupPrefix(table, Allocated(variables, 16), name);
    } else {
      NamedAllocated(table, variables, 16, name);
      forall j | 0 <= j < |variables| && variables[j] == name
        ensures Lookup(table + Allocated(variables, 16), name) == Some(16 + j)
      {
        LookupAllocated(table, variables, j);
      }
    }
  }

  /** The word the second pass writes for a symbolic A-instruction on line k is the address its name is bound to at the end. */
  lemma PassSymbolWord(table: seq<Symbol>, lines: seq<string>, k: nat)
    requires TranslationPass(table, lines).Ok? && k < |lines| && IsSymbolic(Cleaned(lines[k]))
    ensures var s := TranslationPass(table, lines).value;
            var name := Cleaned(lines[k])[1..];
            && InstructionCount(lines[..k]) < |s.words|
            && Lookup(s.entries, name).Some?
            && s.words[InstructionCount(lines[..k])] == AddressWord(Lookup(s.entries, name).value)
  {
    var s := TranslationPass(table, lines).value;
    var c := Cleaned(lines[k]);
    WordsOfLines(table, lines);
    assert IsInstruction(c);
    SymbolicWord(s.entries, c, s.words[InstructionCount(lines[..k])]);
  }

  /**
   * The word for a symbolic A-instruction on line k: the address the first
   * pass bound its name to (a predefined symbol, or a label declared
   * anywhere in the program, before or after line k), or else 16 plus the
   * position of the name among the variables in order of first use.
   */
  lemma SymbolResolution(lines: seq<string>, k: nat)
    requires Assembly(lines).Ok? && k < |lines| && IsSymbolic(Cleaned(lines[k]))
    ensures var ws := Assembly(lines).value;
            var name := Cleaned(lines[k])[1..];
            var table := LabelPass(PredefinedSymbols(), lines);
            var variables := VariableNames(table, lines);
            && InstructionCount(lines[..k]) < |ws|
            && (Named(table, name) ==> ws[InstructionCount(lines[..k])] == AddressWord(Lookup(table, name).value))
            && (!Named(table, name) ==> name in variables)
            && (!Named(table, name) ==>
                  forall j :: 0 <= j < |variables| && variables[j] == name ==>
                    ws[InstructionCount(lines[..k])] == AddressWord(16 + j))
  {
    var table := LabelPass(PredefinedSymbols(), lines);
    assert Assembly(lines).value == TranslationPass(table, lines).value.words;
    PassResolution(table, lines, k);
  }

  /** SymbolResolution for the second pass over any table. */
  lemma PassResolution(table: seq<Symbol>, lines: seq<string>, k: nat)
    requires TranslationPass(table, lines).Ok? && k < |lines| && IsSymbolic(Cleaned(lines[k]))
    ensures var ws := TranslationPass(table, lines).value.words;
            var name := Cleaned(lines[k])[1..];
            var variables := VariableNames(table, lines);
            && InstructionCount(lines[..k]) < |ws|
            && (Named(table, name) ==> ws[InstructionCount(lines[..k])] == AddressWord(Lookup(table, name).value))
            && (!Named(table, name) ==> name in variables)
            && (!Named(table, name) ==>
                  forall j :: 0 <= j < |variables| && variables[j] == name ==>
                    ws[InstructionCount(lines[..k])] == AddressWord(16 + j))
  {
    var s := TranslationPass(table, lines).value;
    var index := InstructionCount(lines[..k]);
    var name := Cleaned(lines[k])[1..];
    var variables := VariableNames(table, lines);
    PassSymbolWord(table, lines, k);
    var address := Lookup(s.entries, name).value;
    assert s.words[index] == AddressWord(address);
    VariablesAllocated(table, lines);
    AllocatedLookup(table, variables, name);
    if Named(table, name) {
      assert address == Lookup(table, name).value;
    } else {
      forall j | 0 <= j < |variables| && variables[j] == name
        ensures s.words[index] == AddressWord(16 + j)
      {
        assert address == 16 + j;
      }
    }
  }

  /** A name not bound by the table is bound to 16 + j when it is the j-th variable. */
  lemma LookupAllocated(table: seq<Symbol>, names: seq<string>, j: nat)
    requires j < |names| && !Named(table, names[j])
    requires Distinct(names)
    ensures Lookup(table + Allocated(names, 16), names[j]) == Some(16 + j)
  {
    var more := Allocated(names, 16);
    LookupSkip(table, more, names[j]);
    assert NamesDistinct(more);
    LookupDistinct(more, j);
  }

  /**
   * A label used on line k resolves to the number of instructions before its
   * first declaration, wherever that declaration is, unless a predefined
   * symbol has the same name.
   */
  lemma LabelReference(lines: seq<string>, k: nat)
    requires Assembly(lines).Ok? && k < |lines| && IsSymbolic(Cleaned(lines[k]))
    requires !Named(PredefinedSymbols(), Cleaned(lines[k])[1..])
    requires LabelAddress(lines, Cleaned(lines[k])[1..]).Some?
    ensures InstructionCount(lines[..k]) < |Assembly(lines).value|
    ensures Assembly(lines).value[InstructionCount(lines[..k])]
         == AddressWord(LabelAddress(lines, Cleaned(lines[k])[1..]).value)
  {
    var name := Cleaned(lines[k])[1..];
    LabelPassLookup(PredefinedSymbols(), lines, name);
    SymbolResolution(lines, k);
  }

  /** A predefined symbol used on line k resolves to its fixed address, whatever labels the program declares. */
  lemma PredefinedReference(lines: seq<string>, k: nat)
    requires Assembly(lines).Ok? && k < |lines| && IsSymbolic(Cleaned(lines[k]))
    requires Named(PredefinedSymbols(), Cleaned(lines[k])[1..])
    ensures InstructionCount(lines[..k]) < |Assembly(lines).value|
    ensures Assembly(lines).value[InstructionCount(lines[..k])]
         == AddressWord(Lookup(PredefinedSymbols(), Cleaned(lines[k])[1..]).value)
  {
    var name := Cleaned(lines[k])[1..];
    LabelPassLookup(PredefinedSymbols(), lines, name);
    SymbolResolution(lines, k);
  }
}
