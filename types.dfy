/**
 * Values shared by the scan driver of the YARA rule engine: error codes,
 * memory blocks, Aho-Corasick match records and the callback protocol.
 */
module Types {

  datatype Option<+T> = None | Some(value: T)

  /** The error codes the scan driver returns (the `ERROR_*` constants). */
  datatype ErrorCode =
    | Success
    | InsufficientMemory
    | InvalidArgument
    | TooManyScanThreads
    | ScanTimeout
    | CouldNotMapFile
    | CallbackError
    | OtherError(code: int)   // any other code an external collaborator returns

  /** The maximum number of concurrent scans of one rule set. */
  const MAX_THREADS: nat := 32

  type byte = bv8

  /** The C `int64_t` and `int` argument types. */
  newtype int64 = x: int | -0x8000_0000_0000_0000 <= x < 0x8000_0000_0000_0000
  newtype int32 = x: int | -0x8000_0000 <= x < 0x8000_0000

  /** One contiguous region to scan: its bytes and its offset in the scanned address space. */
  datatype Block = Block(data: seq<byte>, base: int)

  /**
   * An Aho-Corasick match record: the atom ends at the cursor and starts
   * `backtrack` bytes before it; `str` identifies the owning string.
   */
  datatype AcMatch = AcMatch(backtrack: nat, str: nat)

  /** One call of the match verifier: the record and the offset in the block it was asked about. */
  datatype Report = Report(m: AcMatch, offset: nat)

  /** The position of the cursor at which a report was issued. */
  function Cursor(r: Report): nat
  {
    r.offset + r.m.backtrack
  }

  /** Callback messages (the `CALLBACK_MSG_*` constants this driver sends). */
  datatype Message = RuleMatching | RuleNotMatching | ScanFinished

  /** What a user callback answers; any other answer is treated like Continue. */
  datatype CallbackResult = Continue | Abort | Error

  /** One callback invocation: the message and the index of the rule, if any. */
  datatype Call = Call(msg: Message, rule: Option<nat>)

  /** `RULE_TFLAGS_MATCH`: the per-slot rule flag the VM sets when the condition holds. */
  const RULE_TFLAGS_MATCH: bv32 := 0x01

  /** `NAMESPACE_TFLAGS_UNSATISFIED_GLOBAL`: a global rule of the namespace failed in this slot. */
  const NAMESPACE_TFLAGS_UNSATISFIED_GLOBAL: bv32 := 0x01

  /** The flag word `f` carries `bit`. */
  predicate HasFlag(f: bv32, bit: bv32)
  {
    f & bit != 0
  }

  /** `f | bit`. */
  function SetFlag(f: bv32, bit: bv32): bv32
  {
    f | bit
  }

  /** `f & ~bit`. */
  function ClearFlag(f: bv32, bit: bv32): bv32
  {
    f & !bit
  }

  /** A cleared flag is not carried, and clearing it again changes nothing. */
  lemma ClearFlagClears(f: bv32, bit: bv32)
    ensures !HasFlag(ClearFlag(f, bit), bit)
    ensures ClearFlag(ClearFlag(f, bit), bit) == ClearFlag(f, bit)
  {
  }

  /** A set flag is carried. */
  lemma SetFlagSets(f: bv32, bit: bv32)
    requires bit != 0
    ensures HasFlag(SetFlag(f, bit), bit)
  {
  }

  /** Setting a flag that was clear and clearing it again gives back the word. */
  lemma ClearUndoesSetOfClear(f: bv32, bit: bv32)
    requires f & bit == 0
    ensures ClearFlag(SetFlag(f, bit), bit) == f
  {
    var g := f | bit;
    assert g & !bit == f;
  }

  /** Clearing a flag just set is clearing it on the word it was set on. */
  lemma ClearUndoesSet(f: bv32, bit: bv32)
    ensures ClearFlag(SetFlag(f, bit), bit) == ClearFlag(f, bit)
  {
    var g := f | bit;
    assert g & !bit == f & !bit;
  }
}
