# Common names and the return instruction of the asm-to-PIL lowering

This project models `asm_to_pil/src/common.rs` of powdr, the layer that names
things when register-machine assembly is lowered to PIL constraints:

- instruction flags, `"instr_" + name`;
- input registers, `"_input_" + decimal(i)`, and output registers,
  `"_output_" + decimal(i)`;
- the ordered list of output register names for a given count;
- the text of the return instruction,
  `join(output_registers(n), ", ") + " { " + pc + "' = 0 }"`, which the
  source hands to its instruction parser;
- the reserved names `return` and `_reset`.

`decimal.dfy` (module `Decimal`) renders a natural number the way Rust's
`Display` prints a `usize` and reads it back; it proves that the two
directions are inverse. From that, `common.dfy` (module `Common`) proves the
following. Each register name reads back to its index, so the name maps are
injective. The three namespaces are disjoint. The output list has the right
length and order. The return text lists the outputs in ascending order, ends
with the clause " { " + pc + "' = 0 }" that resets the program counter, and determines both of its arguments.
`wrappers.dfy` holds the `Option` type used by the readers.

The source's format string is followed exactly. With no outputs the joined
list is empty and the return text is `" { pc' = 0 }"`, with a leading space.

`Common.Join` builds the joined text from the back (the join of all but the
last part, the separator, the last part); `Common.JoinMatchesFront` proves it
equal to the front-to-back reference `Common.JoinFront`, which is how
`[String]::join` is described.

## Model

| member | source | states |
|---|---|---|
| `Decimal.NatToString` | asm_to_pil/src/common.rs:46 | the rendering of an index is a canonical decimal numeral: non-empty, digits only, starting with '0' exactly when the index is 0 |
| `Decimal.ValueOfNatToString` | asm_to_pil/src/common.rs:45-60 | reading the decimal rendering of `n` back gives `n` |
| `Decimal.NatToStringOfValue` | asm_to_pil/src/common.rs:45-60 | every canonical numeral is the rendering of the number it denotes |
| `Decimal.ParseNumeralIff` | asm_to_pil/src/common.rs:45-60 | the numeral reader accepts a string with value `n` exactly when the string is the rendering of `n` |
| `Decimal.NatToStringInjective` | asm_to_pil/src/common.rs:45-60 | two indices have the same rendering exactly when they are equal |
| `Common.InstructionFlag` | asm_to_pil/src/common.rs:19-21 | the flag is "instr_" followed by the instruction name, unchanged |
| `Common.FlaggedInstructionIff` | asm_to_pil/src/common.rs:19-21 | stripping "instr_" gives back `name` exactly from the flag of `name`, so distinct instructions get distinct flags |
| `Common.IndexedName` | asm_to_pil/src/common.rs:45-60 | a register name is its class prefix followed by a canonical decimal numeral whose value is the index |
| `Common.IndexOfIff` | asm_to_pil/src/common.rs:45-60 | reading a name of one class back yields index `i` exactly when the name is the one built from `i` |
| `Common.IndexedNameInjective` | asm_to_pil/src/common.rs:45-60 | under one prefix, two register names are equal exactly when their indices are |
| `Common.InputAt` | asm_to_pil/src/common.rs:45-47 | an input register name is "_input_" followed by a canonical decimal numeral whose value is the index |
| `Common.OutputAt` | asm_to_pil/src/common.rs:58-60 | an output register name is "_output_" followed by a canonical decimal numeral whose value is the index |
| `Common.InputAtInjective` | asm_to_pil/src/common.rs:45-47 | two input register names are equal exactly when their indices are |
| `Common.OutputAtInjective` | asm_to_pil/src/common.rs:58-60 | two output register names are equal exactly when their indices are |
| `Common.NamespacesDisjoint` | asm_to_pil/src/common.rs:19-60 | no input name equals an output name, and neither equals any instruction flag |
| `Common.ReservedNamesNotGenerated` | asm_to_pil/src/common.rs:5-8 | "return" and "_reset" are never an input name, an output name or an instruction flag |
| `Common.OutputRegisters` | asm_to_pil/src/common.rs:32-34 | the list has exactly `count` names, and name `k` is the output register name of index `k` |
| `Common.OutputRegistersDistinct` | asm_to_pil/src/common.rs:32-34 | no two entries of the output list are equal |
| `Common.JoinFrontSnoc` | asm_to_pil/src/common.rs:78 | in the front-to-back join, appending a part to a non-empty list appends the separator and that part |
| `Common.JoinMatchesFront` | asm_to_pil/src/common.rs:78 | the back-to-front `Join` gives the same text as the front-to-back reference join, for every list and separator |
| `Common.RegisterListStep` | asm_to_pil/src/common.rs:78 | joining `k + 1` output names appends ", " and output `k` to the join of the first `k`, or is output 0 alone when `k` is 0 |
| `Common.RegisterListEndsWith` | asm_to_pil/src/common.rs:78 | the joined list of `k + 1` outputs ends with output `k`, preceded by ", " unless `k` is 0 |
| `Common.RegisterListPrefix` | asm_to_pil/src/common.rs:78 | the joined list for `k` outputs is a prefix of the one for `n >= k` outputs, and strictly shorter when `k < n` |
| `Common.RegisterListNoBrace` | asm_to_pil/src/common.rs:78 | a joined output list never contains '{' |
| `Common.ReturnInstructionText` | asm_to_pil/src/common.rs:76-79 | the return text is the joined output list, then " { " and the program counter name, then "' = 0 }"; it is 10 characters longer than the list and the program counter name together |
| `Common.ReturnInstructionTextNoOutputs` | asm_to_pil/src/common.rs:76-79 | with no outputs the return text is " { " + pc + "' = 0 }", leading space included |
| `Common.ReturnInstructionListsOutputsInOrder` | asm_to_pil/src/common.rs:76-79 | for every `k < n` the return text starts with the joined list of outputs 0 .. k |
| `Common.ReturnInstructionTextInjective` | asm_to_pil/src/common.rs:76-79 | equal return texts come from equal output counts and equal program counter names |
| `Common.InstructionFlagExample` | asm_to_pil/src/common.rs:88 | the flag of "test" is "instr_test" |
| `Common.OutputRegistersExample` | asm_to_pil/src/common.rs:92-95 | no outputs give the empty list, two give ["_output_0", "_output_1"] |
| `Common.InputAtExamples` | asm_to_pil/src/common.rs:98-101 | input registers 0 and 1 are "_input_0" and "_input_1" |
| `Common.OutputAtExamples` | asm_to_pil/src/common.rs:104-107 | output registers 0 and 1 are "_output_0" and "_output_1" |
| `Common.ReturnInstructionTextExamples` | asm_to_pil/src/common.rs:76-79 | with program counter "pc", two outputs give "_output_0, _output_1 { pc' = 0 }" and none give " { pc' = 0 }" |

## Left out

- `parse_instruction` (asm_to_pil/src/common.rs:3, 76) and the `Instruction<T>` it returns: the parser and the AST are not part of this model, so the model stops at the text `return_instruction` passes to it. Whether that text parses is not modelled.
- The field-element type parameter `T` (asm_to_pil/src/common.rs:2, 72): it only reaches the parser.
- The `usize` bound on indices and counts: indices are unbounded naturals; nothing in the source depends on the bound.
- Determinism: every member is a Dafny function of its arguments alone, so equal arguments give equal results by construction; no lemma states this separately.
- The caller's obligation that instruction names and the program counter name be non-empty identifiers is not checked by the source and not modelled; every string is accepted.
- `test_return_instruction` (asm_to_pil/src/common.rs:110-114) asserts nothing about its result. `Common.ReturnInstructionTextExamples` states the text for its inputs instead.
