/** Compile errors, the size limits and the instruction-count estimates (src/compiler/verify.rs). */
module Limits {
  import opened Assembler

  datatype Reason =
    | UnterminatedEscape
    | NegatedEscape
    | UnknownEscape
    | ReversedRange
    | ConsecutiveDashes
    | NonAsciiCodepoint
    | NoRanges

  datatype CompileError = PatternTooLong(len: nat, max: nat) | InvalidPattern(reason: Reason)

  datatype Result<+T> = Ok(value: T) | Err(error: CompileError)

  const MAX_BPF_PATTERN_LEN: nat := 1024
  const MAX_BPF_INSTRUCTION_LEN: nat := 4096

  function CompileWithLimit(expected: nat): Result<()> {
    if expected > MAX_BPF_INSTRUCTION_LEN then Err(PatternTooLong(expected, MAX_BPF_INSTRUCTION_LEN)) else Ok(())
  }

  function LiteralSearchInstructionCount(patternLen: nat): nat {
    if patternLen == 0 then 4 else 14 + patternLen * 2
  }

  predicate HasEmpty(alternatives: seq<seq<byte>>) {
    exists i :: 0 <= i < |alternatives| && alternatives[i] == []
  }

  /** The summed cost of the alternatives; an empty one costs nothing. */
  function AlternativesCost(alternatives: seq<seq<byte>>): nat {
    if alternatives == [] then 0
    else (if alternatives[0] == [] then 0 else 4 + |alternatives[0]| * 2) + AlternativesCost(alternatives[1..])
  }

  function EstimateAlternationInstructions(alternatives: seq<seq<byte>>): nat {
    if alternatives == [] || HasEmpty(alternatives) then 2 else 4 + AlternativesCost(alternatives)
  }
}
