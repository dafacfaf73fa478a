# Hack assembler, modelled in Dafny

This project models the assembler for the Hack machine language. The
assembler reads a program in Hack assembly, one instruction per line, and
writes one 16-character binary word per instruction. It makes two passes:
- The first pass binds each label `(NAME)` to the number of instruction lines
  before its first declaration, unless the name is already bound. A
  predefined name keeps its fixed address.
- The second pass translates the instructions. A numeric A-instruction `@n`
  becomes `n` in binary, padded to 16 characters. A symbolic `@name` becomes
  the address bound to `name`. A name the table does not yet bind is a new
  variable, bound to 16, 17, … in order. A C-instruction `dest=comp;jump`
  becomes `111` followed by the comp, dest and jump codes.

Before either pass, the symbol table already holds the predefined symbols:
`R0`–`R15`, `SP`, `LCL`, `ARG`, `THIS`, `THAT`, `SCREEN` and `KBD`.

Files:
- `common.dfy`: `Option` and `Result`.
- `utils.dfy` (module `Utils`): the string helpers of `src/utils.c`.
  - Functions for the one-expression helpers.
  - Methods with loops for `clear_line`, `convert_to_binary`,
    `reverse_string`, `pad_left` and `string_search`. Each method is proved to
    return a specification function of its input: `Cleaned`, `BinaryOf`,
    `Reversed`, `Padded` and `FirstIndex`.
  - `strtol` is the function `StrtolValue`.
- `symbol_table.dfy` (module `Symbols`): the table of `src/symbol_table.c`.
  - It is a class over a growable array. Its invariant is that names are
    distinct and the capacity is positive.
  - The methods are proved against functions on `seq<Symbol>`: `Named`,
    `Lookup` (first binding wins) and `Inserted` (insert if absent).
- `encoder.dfy` (module `Encoder`): the pure part of `src/assembler.c`.
  - Line classification and label extraction.
  - A-instruction words.
  - The split of a C-instruction into fields, with a round trip proved both
    ways.
  - The comp, dest and jump tables, and `TranslateC`.
- `assembler.dfy` (module `Assembler`):
  - `add_predefined_symbols`.
  - The two passes as specification functions: `LabelPass`,
    `TranslationPass` and `Assembly`.
  - The imperative `Assemble`, which drives a `SymbolTable` and is proved to
    return `Assembly(lines)`.
- `passes.dfy` (module `PassFacts`): end-to-end properties of `Assembly`.
  - There is one word per instruction line, and every word is a bit string.
  - Symbols resolve as described above, including labels used before their
    declaration.
  - Assembly fails exactly at the first line that cannot be translated.

The input file is modelled as the sequence of its lines, and the output file
as the sequence of words written to it.

## Model

| member | source | states |
|---|---|---|
| Utils.IntToString | src/utils.c:198-207 | the `%d` text of n: digits only for n ≥ 0, `-` then digits for n < 0 |
| Utils.StrtolIntToString | src/utils.c:198-207 | strtol reads back exactly the integer int_to_string wrote |
| Utils.IntToStringInjective | src/utils.c:198-207 | different integers give different texts |
| Utils.DecimalValue | src/utils.c:198-207 | the decimal digits written for n have value n |
| Utils.SkipSpaces | src/utils.c:94 | strtol skips exactly the leading white space: every skipped character is white space, and the rest is a suffix that does not start with white space |
| Utils.LeadingDigits | src/utils.c:94 | the digit prefix strtol reads is all digits and ends at the first non-digit |
| Utils.StrtolDigitStart | src/utils.c:94 | on text starting with a digit, strtol is the value of the leading digits |
| Utils.AllDigitsValue | src/utils.c:94 | on an all-digit string, strtol's prefix value is the value of the whole string |
| Utils.AppendStrings | src/utils.c:6-19 | the result has length \|a\|+\|b\|, starts with a and ends with b |
| Utils.Substring | src/utils.c:179-196 | the characters from start to end, with start and end clamped to the length and an end before start giving "" |
| Utils.FirstIndex | src/utils.c:167-177 | -1 exactly when c is absent, otherwise an index holding c with no c before it |
| Utils.StringSearch | src/utils.c:167-177 | the loop returns FirstIndex(s, c) |
| Utils.CommentStart | src/utils.c:64-66 | the scan stops at the first '/' or at the end of the line |
| Utils.RemoveSpaces | src/utils.c:78-80 | the result holds no space, is no longer than the input, and keeps only characters of the input |
| Utils.RemoveSpacesOne | src/utils.c:78-80 | a space is dropped, and any other character is kept |
| Utils.RemoveSpacesAppend | src/utils.c:64-83 | the spaces of a + b are removed from a and b separately, so every non-space character is kept, in order |
| Utils.Cleaned | src/utils.c:52-87 | a cleaned line holds no space and no '/' |
| Utils.CleanedNoComment | src/utils.c:64-83 | a line without '/' is cleaned to its non-space characters, in order |
| Utils.CleanedComment | src/utils.c:64-83 | everything from the first '/' on is dropped, and the code before it keeps its non-space characters, in order |
| Utils.FirstIndexAt | src/utils.c:167-177 | an occurrence of c with no c before it is the index string_search returns |
| Utils.CleanedIdempotent | src/utils.c:52-87 | cleaning a cleaned line changes nothing |
| Utils.ClearLine | src/utils.c:52-87 | the loop drops spaces and stops at the first '/', returning Cleaned(line) |
| Utils.ReversedAt | src/utils.c:128-141 | position k of the reversal holds s[\|s\|-1-k] |
| Utils.ReversedInvolution | src/utils.c:128-141 | reversing twice gives the input back |
| Utils.ReverseString | src/utils.c:128-141 | the loop returns Reversed(s) |
| Utils.Bits | src/utils.c:105-119 | the binary digits of n > 0 form a bit string starting with '1', and 0 gives no digits |
| Utils.BitsValueOfBits | src/utils.c:105-125 | the bits written for n have value n |
| Utils.BitsLength | src/utils.c:105-119 | n needs exactly k bits when 2^(k-1) ≤ n < 2^k |
| Utils.BinaryOfFits | src/utils.c:89-126 | the binary text of v > 0 fits in k characters exactly when v < 2^k |
| Utils.ConvertToBinary | src/utils.c:89-126 | returns BinaryOf(strtol(num)): "0" for 0, the reversed remainders for positive values, "" for negative values |
| Utils.Padded | src/utils.c:143-165 | the result has length max(\|num\|, width), ends with num and is '0' before it; num itself when it is already long enough |
| Utils.PaddedValue | src/utils.c:143-165 | zero padding keeps a bit string's value |
| Utils.PadLeft | src/utils.c:143-165 | the loop returns Padded(num, width) |
| Symbols.Lookup | src/symbol_table.c:44-52 | None exactly when the name is absent, otherwise an address the name is bound to |
| Symbols.LookupDistinct | src/symbol_table.c:44-52 | with distinct names, the lookup of an entry's name finds that entry's address |
| Symbols.LookupPrefix | src/symbol_table.c:54-79 | appending entries never changes the address of a name already present |
| Symbols.LookupSkip | src/symbol_table.c:44-52 | entries with other names do not affect a lookup |
| Symbols.InsertedFacts | src/symbol_table.c:54-79 | insert-if-absent keeps names distinct, binds the name, keeps an existing binding, leaves other names alone and only appends |
| Symbols.SymbolTable.constructor | src/symbol_table.c:6-14 | an empty valid table with the requested capacity |
| Symbols.SymbolTable.Contains | src/symbol_table.c:35-42 | true exactly when the name is in the table |
| Symbols.SymbolTable.GetAddress | src/symbol_table.c:44-52 | found exactly when the name is present; if found, the bound address; otherwise the caller's value unchanged |
| Symbols.SymbolTable.Add | src/symbol_table.c:54-79 | added exactly when the name was absent; the contents are Inserted(old, name, address); capacity doubles when the table was full; the table stays valid |
| Symbols.SymbolTable.Free | src/symbol_table.c:25-33 | size and capacity are 0 and no storage is left |
| Encoder.LabelAsInC | src/assembler.c:118-124 | a line is a label exactly when the character C reads at index 0 (the terminator for "") is '(', and no label is a numeric A-instruction |
| Encoder.AInstructionAsInC | src/assembler.c:134-140 | a line is a numeric A-instruction exactly when C reads '@' and then a decimal digit (the terminator for "@"), and then its literal is strtol of the text after '@' |
| Encoder.ExtractLabel | src/assembler.c:126-132 | the text between the first and last character, or "" for a line shorter than 2 |
| Encoder.AddressWordFacts | src/assembler.c:62-66 | an address word is a bit string of value v, at least 16 long, and exactly 16 long when v < 65536 |
| Encoder.TranslateAFacts | src/assembler.c:142-151 | `@n` becomes a bit string of value n, exactly 16 long when n < 65536 |
| Encoder.ExtractPartsFields | src/assembler.c:247-283 | dest is the text before the first '=', comp runs from after it to the first ';', and jump is the text after the ';', each only when its delimiter is present |
| Encoder.ExtractJoin | src/assembler.c:247-283 | splitting `dest=comp;jump` gives back its fields whenever no field holds a delimiter |
| Encoder.JoinExtract | src/assembler.c:247-283 | joining the fields gives back the instruction when '=' does not follow ';' |
| Encoder.CompCode | src/assembler.c:184-211 | a comp code is a 7-bit string whose first bit (a) is 1 exactly when the mnemonic reads M |
| Encoder.CompMnemonicsDistinct | src/assembler.c:184-211 | the comp table has 28 distinct mnemonics |
| Encoder.CompTableDomain | src/assembler.c:184-211 | a comp has a code exactly when it is one of the 28 mnemonics |
| Encoder.CompCodeDecodes | src/assembler.c:184-211 | each comp code decodes back to its mnemonic |
| Encoder.CompCodeInjective | src/assembler.c:184-211 | different mnemonics have different comp codes |
| Encoder.JumpCode | src/assembler.c:213-221 | a jump code is a 3-bit string |
| Encoder.JumpMnemonicsCodes | src/assembler.c:213-221 | JGT … JMP are distinct, and the i-th has code value i+1 |
| Encoder.JumpTableDomain | src/assembler.c:213-221 | a non-empty jump has a code exactly when it is one of the seven mnemonics |
| Encoder.JumpCodeDecodes | src/assembler.c:213-221 | each jump code decodes back to its mnemonic; no jump and an empty jump both give 000 |
| Encoder.DestBits | src/assembler.c:171-181 | the three dest bits are A, D and M, each 1 exactly when dest contains that letter |
| Encoder.TranslateC | src/assembler.c:153-245 | defined exactly when comp and jump are known; then a 16-bit word `111`+comp+dest+jump |
| Encoder.TranslateCWord | src/assembler.c:223-226 | the word is the concatenation of `111` and the three codes of the extracted fields |
| Encoder.TranslateCDecodes | src/assembler.c:153-245 | equal words come from the same comp, the same dest bits and the same jump |
| Encoder.DJumpWord | src/assembler.c:153-245 | `D;JGT` becomes 1110001100000001 |
| Encoder.ZeroJumpWord | src/assembler.c:153-245 | `0;JMP` becomes 1110101010000111 |
| Assembler.PredefinedSymbols | src/assembler.c:98-116 | 23 symbols: R0–R15 at 0–15, then SP, LCL, ARG, THIS, THAT, SCREEN, KBD |
| Assembler.RegisterNamesDistinct | src/assembler.c:103-107 | different register numbers give different names |
| Assembler.PredefinedDistinct | src/assembler.c:98-116 | the 23 predefined names are pairwise distinct |
| Assembler.RegisterAddresses | src/assembler.c:104-107 | Ri is bound to i for i < 16 |
| Assembler.NamedAddresses | src/assembler.c:109-115 | SP 0, LCL 1, ARG 2, THIS 3, THAT 4, SCREEN 16384, KBD 24576 |
| Assembler.InsertAllFresh | src/assembler.c:98-116 | adding symbols with fresh distinct names appends them all in order |
| Assembler.PredefinedFromEmpty | src/assembler.c:13-15 | on the empty table, add_predefined_symbols leaves exactly the 23 predefined symbols |
| Assembler.AddPredefinedSymbols | src/assembler.c:98-116 | the table becomes its old contents with the 23 symbols added in order, insert-if-absent, and stays valid |
| Assembler.InstructionCountLines | src/assembler.c:20-37 | line_number after the first pass is the number of line indices whose cleaned line is neither empty nor a label |
| Assembler.FirstDeclaration | src/assembler.c:29-34 | the index of the first line declaring the label, or None when no line does |
| Assembler.LabelPassLookup | src/assembler.c:20-37 | after the first pass a name keeps its predefined address, else is bound to the instruction count before its first declaration, else is unbound |
| Assembler.LabelPassExtends | src/assembler.c:20-37 | the first pass only appends and keeps names distinct |
| Assembler.LabelStep | src/assembler.c:22-36 | one first-pass iteration: a label line binds the label to the line number unless the name is already bound (insert-if-absent); an instruction line advances the count |
| Assembler.FirstPass | src/assembler.c:20-37 | the table after the loop is LabelPass(old contents, lines) |
| Assembler.TranslateAInstruction | src/assembler.c:142-151 | returns TranslateA(ins), a padded convert_to_binary |
| Assembler.AddressInstruction | src/assembler.c:64-66 | int_to_string, convert_to_binary and pad_left give AddressWord(address) |
| Assembler.SymbolStep | src/assembler.c:59-83 | a bound name yields its address word; a new name is bound to the next variable address, which then advances |
| Assembler.TranslateStep | src/assembler.c:44-92 | one second-pass iteration agrees with TranslateLine, giving its new table, counter and words, and fails exactly where it does, leaving the table unchanged then |
| Assembler.FailureSticks | src/assembler.c:42-93 | once a line fails, the pass ends with that error |
| Assembler.SecondPass | src/assembler.c:40-93 | the words of the loop are those of TranslationPass over the current table, or its error; on success the table ends as the pass's table, the first-pass bindings plus each new variable (see PassFacts.VariablesAllocated) |
| Assembler.Assemble | src/assembler.c:8-96 | returns Assembly(lines): the first pass over the predefined table, then the second pass |
| PassFacts.VariableNames | src/assembler.c:59-83 | variable names are collected without repetition |
| PassFacts.NamedAllocated | src/assembler.c:72-82 | after variables are appended, a name is bound exactly when it was in the table or is a variable |
| PassFacts.VariablesAllocated | src/assembler.c:40-93 | after the second pass the table is the first-pass table plus variable i at 16+i, and the next variable address is 16 plus their count |
| PassFacts.WordsOfLines | src/assembler.c:42-93 | one word per instruction line; the word for line k sits at the instruction count before k and is that line's translation in the final table |
| PassFacts.TranslateLineFailure | src/assembler.c:85-89 | a line fails exactly when it is an invalid C-instruction, and the error names it |
| PassFacts.PassFailure | src/assembler.c:42-93 | the pass fails exactly when some line is invalid, and it reports the first invalid line |
| PassFacts.LabelPassNonNegative | src/assembler.c:20-37 | the first pass binds only non-negative addresses |
| PassFacts.PassWellFormed | src/assembler.c:42-93 | the second pass writes only bit strings of at least 16 characters |
| PassFacts.PredefinedNonNegative | src/assembler.c:98-116 | all predefined addresses are non-negative |
| PassFacts.AssemblyWellFormed | src/assembler.c:8-96 | assemble writes one word per instruction line, each a bit string of at least 16 characters |
| PassFacts.AssemblyFailure | src/assembler.c:8-96 | assemble fails exactly when a line is an invalid C-instruction, and it names the first one |
| PassFacts.AllocatedLookup | src/assembler.c:59-83 | a name bound by the first pass keeps its address; otherwise the j-th variable is bound to 16+j |
| PassFacts.PassResolution | src/assembler.c:53-83 | the word for `@name` is the name's first-pass address, or 16 plus its position among the variables |
| PassFacts.SymbolResolution | src/assembler.c:8-96 | end to end: `@name` becomes its predefined or label address, else 16 plus its position in first-use order |
| PassFacts.LabelReference | src/assembler.c:20-83 | a label referenced on any line, before or after its declaration, becomes the instruction count before its first declaration, unless a predefined symbol has that name |
| PassFacts.PredefinedReference | src/assembler.c:98-116 | a predefined symbol becomes its fixed address even when the program declares a label of the same name |

## Left out

- Reading and writing files is not modelled: `read_line`, `fseek` and `write_instruction_to_file` with its trailing newline. The input is the sequence of lines and the output the sequence of words. `src/main.c` is not part of this model.
- `symbol_table_print` only prints, so it is not modelled.
- Lines are assumed to contain no '\0'. `read_line` (src/utils.c:33-40) stores every byte it reads, but `clear_line` (src/utils.c:64) stops at the first NUL through `strlen`, so C would cut the line there; `Utils.Cleaned` reads the whole line.
- The model covers neither allocation failure and its `exit(1)`, nor any call to `free`. `SymbolTable.Free` models only the final state of the table.
- C integer widths are not modelled. `int`, `size_t` and the `strtol` result are unbounded integers, so an overflowing literal such as `@99999999999` has no wrap-around or clamping here.
- Assembler.RegisterName: `snprintf` into a 4-byte buffer would truncate names longer than three characters. The names `R0`–`R15` all fit, so the model writes them in full.
- Utils.ReverseString: the C loop runs one step too far, reads `str[-1]` and writes `reversed[len]` before the terminator overwrites it. The model is the plain reversal the function's result holds.
- Encoder.TranslateC: in C, an unknown comp or jump mnemonic leaves its code uninitialised, which is undefined behaviour. The model returns `None`. `Assemble` then stops with `Err(InvalidInstruction(line, text))` at the first such line, whereas the C program goes on writing.
- Symbols.SymbolTable.constructor requires a positive capacity. With capacity 0, doubling stays at 0 and the C code writes out of bounds. `assemble` always passes 23.
- Assembler.AddPredefinedSymbols splits its adds into the helpers `AddTracked`, `AddNamedSymbols` and `AddLastNamedSymbols`. The calls still happen in the C order.
- Only two C-instructions have their words proved as concrete examples: `D;JGT` and `0;JMP`. All other words follow from `TranslateC`'s contract.
