/**
 * The allocation guard: a ceiling on the number of bytes a decoder may
 * allocate, installed once ("first call wins") and checked by `safe_len`.
 * The process-wide `MAX_ALLOCATION_BYTES` and its `Once` are the two fields
 * of one `AllocationLimit` object; `usize` is taken to be 64 bits wide.
 */
module Allocation {
  import opened Wrappers
  import opened Ints

  /** 512 MiB, the ceiling in force until one is installed, and the one `safe_len` installs. */
  const DEFAULT_MAX_ALLOCATION_BYTES: uint64 := 512 * 1024 * 1024

  /** "Unable to allocate {requested} bytes (Maximum allowed: {maximum})". */
  datatype AllocationError = AllocationError(requested: uint64, maximum: uint64)

  /** What `safe_len` answers for `len` under the ceiling `maximum`. */
  function CheckLen(len: uint64, maximum: uint64): (r: Result<uint64, AllocationError>)
    ensures r.Ok? <==> len <= maximum
    ensures r.Ok? ==> r.value == len
    ensures r.Err? ==> r.error.requested == len && r.error.maximum == maximum
  {
    if len <= maximum then Ok(len) else Err(AllocationError(len, maximum))
  }

  class AllocationLimit {
    /** `MAX_ALLOCATION_BYTES`. */
    var maxAllocationBytes: uint64
    /** Whether `MAX_ALLOCATION_BYTES_ONCE` has run its closure. */
    var installed: bool

    /** The state at start-up: the default ceiling, nothing installed yet. */
    constructor ()
      ensures maxAllocationBytes == DEFAULT_MAX_ALLOCATION_BYTES && !installed
    {
      maxAllocationBytes := DEFAULT_MAX_ALLOCATION_BYTES;
      installed := false;
    }

    /** `max_allocation_bytes`: the first call installs `numBytes`; every call
        answers the ceiling in force afterwards. */
    method MaxAllocationBytes(numBytes: uint64) returns (r: uint64)
      modifies this
      ensures installed
      ensures maxAllocationBytes == if old(installed) then old(maxAllocationBytes) else numBytes
      ensures r == maxAllocationBytes
    {
      if !installed {
        maxAllocationBytes := numBytes;
        installed := true;
      }
      r := maxAllocationBytes;
    }

    /** `safe_len`: installs the default ceiling if none is installed yet,
        then passes `len` through when it is within the ceiling. */
    method SafeLen(len: uint64) returns (r: Result<uint64, AllocationError>)
      modifies this
      ensures installed
      ensures maxAllocationBytes == if old(installed) then old(maxAllocationBytes) else DEFAULT_MAX_ALLOCATION_BYTES
      ensures r == CheckLen(len, maxAllocationBytes)
    {
      var maxBytes := MaxAllocationBytes(DEFAULT_MAX_ALLOCATION_BYTES);
      if len <= maxBytes {
        r := Ok(len);
      } else {
        r := Err(AllocationError(len, maxBytes));
      }
    }
  }

  /** `test_safe_len`: under the default ceiling 42 passes and 1 GiB does not. */
  method SafeLenUnderDefault() returns (small: Result<uint64, AllocationError>, large: Result<uint64, AllocationError>)
    ensures small == Ok(42)
    ensures large == Err(AllocationError(1024 * 1024 * 1024, DEFAULT_MAX_ALLOCATION_BYTES))
  {
    var limit := new AllocationLimit();
    small := limit.SafeLen(42);
    large := limit.SafeLen(1024 * 1024 * 1024);
  }

  /** Whatever the later calls ask for, every call answers the first call's argument. */
  method FirstCallWins(requests: seq<uint64>) returns (answers: seq<uint64>)
    requires |requests| > 0
    ensures |answers| == |requests|
    ensures forall k :: 0 <= k < |answers| ==> answers[k] == requests[0]
  {
    var limit := new AllocationLimit();
    answers := [];
    var k := 0;
    while k < |requests|
      invariant 0 <= k <= |requests| && |answers| == k
      invariant limit.installed <==> k > 0
      invariant k > 0 ==> limit.maxAllocationBytes == requests[0]
      invariant forall i :: 0 <= i < k ==> answers[i] == requests[0]
    {
      var a := limit.MaxAllocationBytes(requests[k]);
      answers := answers + [a];
      k := k + 1;
    }
  }

  /** Once `safe_len` has run, the default is frozen: a later request for another
      ceiling is ignored, and lengths are still checked against 512 MiB. */
  method LateCeilingIgnored(numBytes: uint64, len: uint64) returns (ceiling: uint64, r: Result<uint64, AllocationError>)
    ensures ceiling == DEFAULT_MAX_ALLOCATION_BYTES
    ensures r.Ok? <==> len <= DEFAULT_MAX_ALLOCATION_BYTES
  {
    var limit := new AllocationLimit();
    var first := limit.SafeLen(0);
    ceiling := limit.MaxAllocationBytes(numBytes);
    r := limit.SafeLen(len);
  }

  /** A ceiling installed before the first `safe_len` is the one `safe_len` checks against. */
  method EarlyCeilingApplies(numBytes: uint64, len: uint64) returns (r: Result<uint64, AllocationError>)
    ensures r == CheckLen(len, numBytes)
  {
    var limit := new AllocationLimit();
    var installed := limit.MaxAllocationBytes(numBytes);
    r := limit.SafeLen(len);
  }
}
