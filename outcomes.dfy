/**
 * The emulator's fatal errors.  Every `panic!` (and every out-of-range slice
 * index, which panics in Rust) in the modelled code becomes one of these
 * values; a run that produces one stops there.
 */
module Outcomes {
  import opened Word

  datatype Fault =
    | UnmappedRead(width: nat, addr: u32)         // "N-bit read from unimpl memory address"
    | UnmappedWrite(width: nat, addr: u32)        // "N-bit write to unimpl memory address"
    | IndexOutOfRange(index: nat, length: nat)    // a backing array indexed past its end
    | UnimplementedOpcode(opcode: u16, pc: u32)   // "Unimplemented opcode ... at ..."
    | UnimplementedSystemRegister(id: nat)        // "LDSR with unimplemented system register"
    | RomSizeNotPowerOfTwo(length: nat)           // "the specified ROM's size is not a power of two"

  /** A value, or the fault that stopped the run. */
  datatype Result<+T> = Ok(value: T) | Err(fault: Fault) {
    predicate IsFailure() { Err? }
    function PropagateFailure<U>(): Result<U> requires Err? { Err(fault) }
    function Extract(): T requires Ok? { value }
  }

  /** The result of an operation that returns nothing: it completed, or it faulted. */
  datatype Outcome = Pass | Fail(fault: Fault) {
    predicate IsFailure() { Fail? }
    function PropagateFailure(): Outcome requires Fail? { this }
  }

  /** Rust's checked slice indexing `s[i]`. */
  function Peek(s: seq<u8>, i: nat): (r: Result<u8>)
    ensures r.Ok? <==> i < |s|
    ensures r.Ok? ==> r.value == s[i]
    ensures r.Err? ==> r.fault == IndexOutOfRange(i, |s|)
  {
    if i < |s| then Ok(s[i]) else Err(IndexOutOfRange(i, |s|))
  }

  /** Rust's checked slice assignment `s[i] = b`. */
  function Poke(s: seq<u8>, i: nat, b: u8): (r: Result<seq<u8>>)
    ensures r.Ok? <==> i < |s|
    ensures r.Ok? ==> r.value == s[i := b]
    ensures r.Err? ==> r.fault == IndexOutOfRange(i, |s|)
  {
    if i < |s| then Ok(s[i := b]) else Err(IndexOutOfRange(i, |s|))
  }
}
