/** Shared result types. */
module Basics {

  datatype Option<+T> = None | Some(value: T)

  /** Why a run of kernel code stopped in a panic. */
  datatype Panic =
    | OutOfFrames     // the frame allocator had nothing left
    | AlreadyMapped   // set_pte found a valid entry
    | NotMapped       // unwrap or expect on a missing mapping
    | BadIndex        // slice index out of bounds
    | Overflow        // usize subtraction below zero
    | Unimplemented   // todo!()
    | AssertFailed    // assert! or assert_ne!

  /** The outcome of code that may panic. After a panic nothing runs any more, so nothing is said about the state. */
  datatype Outcome<+T> = Done(value: T) | Panicked(why: Panic)

  ghost predicate NoDup<T(!new)>(s: seq<T>) {
    forall i, j :: 0 <= i < j < |s| ==> s[i] != s[j]
  }
}
