/**
 * Common names and the return instruction used when lowering register-machine
 * assembly to PIL constraints.
 *
 * Three kinds of generated names live side by side in the constraint system:
 * instruction flags ("instr_" + instruction name), input registers
 * ("_input_" + index) and output registers ("_output_" + index). The return
 * instruction assigns the output registers and sets the next value of the
 * program counter to 0; this model builds its text and stops before it is
 * handed to the instruction parser.
 *
 * Every member is a function of its arguments only, so equal arguments always
 * give equal names and equal texts.
 */
module Common {
  import opened Wrappers
  import Decimal

  /** Reserved name; ReservedNamesNotGenerated shows no generator ever produces it. */
  const ReturnName: string := "return"
  /** Reserved name; ReservedNamesNotGenerated shows no generator ever produces it. */
  const ResetName: string := "_reset"

  const FlagPrefix: string := "instr_"
  const InputPrefix: string := "_input_"
  const OutputPrefix: string := "_output_"
  /** What `join(", ")` puts between two register names. */
  const Separator: string := ", "

  // ---------------------------------------------------------------------------
  // Instruction flags

  /** The flag signalling that instruction `name` is active. */
  function InstructionFlag(name: string): (r: string)
    ensures |r| == |FlagPrefix| + |name|
    ensures r[..|FlagPrefix|] == FlagPrefix && r[|FlagPrefix|..] == name
  {
    FlagPrefix + name
  }

  /** The instruction whose flag `s` is, if `s` is a flag name at all. */
  function FlaggedInstruction(s: string): Option<string> {
    if |s| >= |FlagPrefix| && s[..|FlagPrefix|] == FlagPrefix then Some(s[|FlagPrefix|..]) else None
  }

  /** FlaggedInstruction undoes InstructionFlag and recognises nothing else, so distinct instructions have distinct flags. */
  lemma FlaggedInstructionIff(s: string, name: string)
    ensures FlaggedInstruction(s) == Some(name) <==> s == InstructionFlag(name)
  {
  }

  // ---------------------------------------------------------------------------
  // Register names

  /** `prefix` followed by the decimal rendering of `i`. */
  function IndexedName(prefix: string, i: nat): (r: string)
    ensures |r| > |prefix| && r[..|prefix|] == prefix
    ensures Decimal.IsNumeral(r[|prefix|..]) && Decimal.Value(r[|prefix|..]) == i
  {
    Decimal.ValueOfNatToString(i);
    assert (prefix + Decimal.NatToString(i))[|prefix|..] == Decimal.NatToString(i);
    prefix + Decimal.NatToString(i)
  }

  /** The index `s` carries after `prefix`, if `s` is such a name at all. */
  function IndexOf(prefix: string, s: string): Option<nat> {
    if |s| >= |prefix| && s[..|prefix|] == prefix then Decimal.ParseNumeral(s[|prefix|..]) else None
  }

  /** IndexOf reads back exactly the names IndexedName builds, and the index they were built from. */
  lemma IndexOfIff(prefix: string, s: string, i: nat)
    ensures IndexOf(prefix, s) == Some(i) <==> s == IndexedName(prefix, i)
  {
    if |s| >= |prefix| && s[..|prefix|] == prefix {
      Decimal.ParseNumeralIff(s[|prefix|..], i);
      assert s == prefix + s[|prefix|..];
    }
  }

  /** Name of the read-only register at index `i`. */
  function InputAt(i: nat): (r: string)
    ensures |r| > |InputPrefix| && r[..|InputPrefix|] == InputPrefix
    ensures Decimal.IsNumeral(r[|InputPrefix|..]) && Decimal.Value(r[|InputPrefix|..]) == i
  {
    IndexedName(InputPrefix, i)
  }

  /** Name of the output assignment register at index `i`. */
  function OutputAt(i: nat): (r: string)
    ensures |r| > |OutputPrefix| && r[..|OutputPrefix|] == OutputPrefix
    ensures Decimal.IsNumeral(r[|OutputPrefix|..]) && Decimal.Value(r[|OutputPrefix|..]) == i
  {
    IndexedName(OutputPrefix, i)
  }

  /** Under one prefix, two names are equal exactly when their indices are, since the numeral after the prefix has the index as its value. */
  lemma IndexedNameInjective(prefix: string, i: nat, j: nat)
    ensures IndexedName(prefix, i) == IndexedName(prefix, j) <==> i == j
  {
  }

  /** Two input registers share a name only if they share an index. */
  lemma InputAtInjective(i: nat, j: nat)
    ensures InputAt(i) == InputAt(j) <==> i == j
  {
  }

  /** Two output registers share a name only if they share an index. */
  lemma OutputAtInjective(i: nat, j: nat)
    ensures OutputAt(i) == OutputAt(j) <==> i == j
  {
  }

  /**
   * The three namespaces never meet: input names differ from output names in
   * their second character, and both start with '_' where flags start with 'i'.
   */
  lemma NamespacesDisjoint(i: nat, j: nat, name: string)
    ensures InputAt(i) != OutputAt(j)
    ensures InputAt(i) != InstructionFlag(name)
    ensures OutputAt(j) != InstructionFlag(name)
  {
    var input, output, flag := InputAt(i), OutputAt(j), InstructionFlag(name);
    assert input[1] == InputPrefix[1] == 'i';
    assert output[1] == OutputPrefix[1] == 'o';
    assert input[0] == output[0] == '_';
    assert flag[0] == FlagPrefix[0] == 'i';
  }

  /** The reserved names `return` and `_reset` are never generated as a register or flag name. */
  lemma ReservedNamesNotGenerated(i: nat, name: string)
    ensures ReturnName != InputAt(i) && ReturnName != OutputAt(i) && ReturnName != InstructionFlag(name)
    ensures ResetName != InputAt(i) && ResetName != OutputAt(i) && ResetName != InstructionFlag(name)
  {
    var input, output, flag := InputAt(i), OutputAt(i), InstructionFlag(name);
    assert input[0] == InputPrefix[0] == '_' && input[1] == InputPrefix[1] == 'i';
    assert output[0] == OutputPrefix[0] == '_' && output[1] == OutputPrefix[1] == 'o';
    assert flag[0] == FlagPrefix[0] == 'i';
  }

  // ---------------------------------------------------------------------------
  // Output register list

  /** The output register names for indices 0 .. count - 1, in that order. */
  function OutputRegisters(count: nat): (r: seq<string>)
    ensures |r| == count
    ensures forall k :: 0 <= k < count ==> r[k] == OutputAt(k)
    decreases count
  {
    if count == 0 then [] else OutputRegisters(count - 1) + [OutputAt(count - 1)]
  }

  /** No two output registers of one list share a name. */
  lemma OutputRegistersDistinct(count: nat, a: nat, b: nat)
    requires a < count && b < count && a != b
    ensures OutputRegisters(count)[a] != OutputRegisters(count)[b]
  {
  }

  /**
   * Reference definition of `[String]::join`: the first part, then for each
   * further part the separator followed by that part.
   */
  function JoinFront(parts: seq<string>, sep: string): string
    decreases |parts|
  {
    if |parts| == 0 then ""
    else if |parts| == 1 then parts[0]
    else parts[0] + sep + JoinFront(parts[1..], sep)
  }

  /** Appending a part to a non-empty list appends the separator and that part to the joined text. */
  lemma {:induction false} JoinFrontSnoc(parts: seq<string>, sep: string, last: string)
    requires |parts| >= 1
    ensures JoinFront(parts + [last], sep) == JoinFront(parts, sep) + sep + last
    decreases |parts|
  {
    if |parts| > 1 {
      assert (parts + [last])[1..] == parts[1..] + [last];
      JoinFrontSnoc(parts[1..], sep, last);
    }
  }

  /**
   * The parts joined with `sep` between neighbours, built from the back; it is
   * the same text as the front-to-back `[String]::join`.
   */
  function Join(parts: seq<string>, sep: string): string
    decreases |parts|
  {
    if |parts| == 0 then ""
    else if |parts| == 1 then parts[0]
    else Join(parts[..|parts| - 1], sep) + sep + parts[|parts| - 1]
  }

  /** Joining from the back gives the same text as the front-to-back reference. */
  lemma {:induction false} JoinMatchesFront(parts: seq<string>, sep: string)
    ensures Join(parts, sep) == JoinFront(parts, sep)
    decreases |parts|
  {
    if |parts| > 1 {
      var init := parts[..|parts| - 1];
      JoinMatchesFront(init, sep);
      JoinFrontSnoc(init, sep, parts[|parts| - 1]);
      assert init + [parts[|parts| - 1]] == parts;
    }
  }

  /** The register list of the return instruction: the output names joined with ", ". */
  function RegisterList(count: nat): string {
    Join(OutputRegisters(count), Separator)
  }

  /** Adding register `k` to a list of `k` registers appends ", " and its name (or just its name to the empty list). */
  lemma RegisterListStep(k: nat)
    ensures RegisterList(k + 1) == if k == 0 then OutputAt(0) else RegisterList(k) + Separator + OutputAt(k)
  {
  }

  /** The register list for `k + 1` outputs ends with output `k`, preceded by the separator unless `k` is 0. */
  lemma RegisterListEndsWith(k: nat)
    ensures var l, o := RegisterList(k + 1), OutputAt(k);
      && |l| >= |o| && l[|l| - |o|..] == o
      && (k > 0 ==> |l| >= |Separator| + |o| && l[|l| - |o| - |Separator|..|l| - |o|] == Separator)
  {
  }

  /** The register list for `k` outputs is a prefix of the one for `n >= k` outputs, and strictly shorter when `k < n`. */
  lemma {:induction false} RegisterListPrefix(k: nat, n: nat)
    requires k <= n
    ensures RegisterList(k) <= RegisterList(n)
    ensures k < n ==> |RegisterList(k)| < |RegisterList(n)|
    decreases n
  {
    if k < n {
      RegisterListStep(n - 1);
      RegisterListPrefix(k, n - 1);
      assert RegisterList(n - 1) <= RegisterList(n) && |RegisterList(n - 1)| < |RegisterList(n)|;
    }
  }

  predicate NoBrace(s: string) {
    forall k :: 0 <= k < |s| ==> s[k] != '{'
  }

  /** An output register name never contains '{'. */
  lemma OutputAtNoBrace(i: nat)
    ensures NoBrace(OutputAt(i))
  {
  }

  /** A register list never contains '{', so the first '{' of a return instruction ends its register list. */
  lemma {:induction false} RegisterListNoBrace(n: nat)
    ensures NoBrace(RegisterList(n))
    decreases n
  {
    if n > 0 {
      OutputAtNoBrace(n - 1);
      RegisterListStep(n - 1);
      RegisterListNoBrace(n - 1);
    }
  }

  // ---------------------------------------------------------------------------
  // Return instruction

  const ClauseOpen: string := " { "
  const ClauseClose: string := "' = 0 }"

  /**
   * The text `return_instruction` hands to the instruction parser: the register
   * list, then " { ", the program counter name and "' = 0 }". With no outputs
   * the register list is empty and the text starts with a space.
   */
  function ReturnInstructionText(outputCount: nat, pcName: string): (t: string)
    ensures RegisterList(outputCount) <= t
    ensures |t| == |RegisterList(outputCount)| + |ClauseOpen| + |pcName| + |ClauseClose|
    ensures t[|RegisterList(outputCount)|..|t| - |ClauseClose|] == ClauseOpen + pcName
    ensures t[|t| - |ClauseClose|..] == ClauseClose
  {
    RegisterList(outputCount) + ClauseOpen + pcName + ClauseClose
  }

  /** With no outputs the text is the assignment clause alone, leading space included. */
  lemma ReturnInstructionTextNoOutputs(pcName: string)
    ensures ReturnInstructionText(0, pcName) == " { " + pcName + "' = 0 }"
  {
  }

  /**
   * The return instruction lists the outputs in ascending order: for every
   * `k < n` the text starts with the names of outputs 0 .. k joined by the
   * separator, which end with output `k` (RegisterListEndsWith).
   */
  lemma ReturnInstructionListsOutputsInOrder(n: nat, pcName: string, k: nat)
    requires k < n
    ensures RegisterList(k + 1) <= ReturnInstructionText(n, pcName)
  {
    RegisterListPrefix(k + 1, n);
  }

  /**
   * Two texts of the return-instruction shape with brace-free register lists
   * are equal only if their lists and their program counter names are: the
   * first '{' sits just after the list and a space.
   */
  lemma SplitAtFirstBrace(l1: string, pc1: string, l2: string, pc2: string)
    requires NoBrace(l1) && NoBrace(l2)
    requires l1 + ClauseOpen + pc1 + ClauseClose == l2 + ClauseOpen + pc2 + ClauseClose
    ensures l1 == l2 && pc1 == pc2
  {
    var t := l1 + ClauseOpen + pc1 + ClauseClose;
    assert t[|l1| + 1] == '{' && t[|l2| + 1] == '{';
    assert |l1| == |l2|;
    assert l1 == t[..|l1|] == l2;
    assert pc1 == t[|l1| + |ClauseOpen|..|t| - |ClauseClose|] == pc2;
  }

  /** The text determines both the number of outputs and the program counter name. */
  lemma ReturnInstructionTextInjective(n1: nat, pc1: string, n2: nat, pc2: string)
    requires ReturnInstructionText(n1, pc1) == ReturnInstructionText(n2, pc2)
    ensures n1 == n2 && pc1 == pc2
  {
    RegisterListNoBrace(n1);
    RegisterListNoBrace(n2);
    SplitAtFirstBrace(RegisterList(n1), pc1, RegisterList(n2), pc2);
    if n1 < n2 {
      RegisterListPrefix(n1, n2);
    } else if n2 < n1 {
      RegisterListPrefix(n2, n1);
    }
  }

  // ---------------------------------------------------------------------------
  // The expected values in the unit tests of common.rs

  lemma InstructionFlagExample()
    ensures InstructionFlag("test") == "instr_test"
  {
  }

  lemma OutputRegistersExample()
    ensures OutputRegisters(0) == []
    ensures OutputRegisters(2) == ["_output_0", "_output_1"]
  {
    OutputAtExamples();
    assert OutputRegisters(2) == [OutputAt(0), OutputAt(1)];
  }

  lemma InputAtExamples()
    ensures InputAt(0) == "_input_0" && InputAt(1) == "_input_1"
  {
  }

  lemma OutputAtExamples()
    ensures OutputAt(0) == "_output_0" && OutputAt(1) == "_output_1"
  {
  }

  lemma ReturnInstructionTextExamples()
    ensures ReturnInstructionText(2, "pc") == "_output_0, _output_1 { pc' = 0 }"
    ensures ReturnInstructionText(0, "pc") == " { pc' = 0 }"
  {
  }

}
