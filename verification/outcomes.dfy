/** Results of operations that can panic in the modelled Rust code.
    A Rust panic (an `unwrap` on `None`, a division by zero, a `usize`
    underflow, an explicit `panic!`) aborts the whole call; the model
    returns `Panic(reason)` instead of a value. */
module Outcomes {

  datatype Option<+T> = None | Some(value: T)

  /** Why a call aborts. */
  datatype Reason =
    | DivisionByZero            // `x / 0` on `usize`
    | UnwrapNone                // `.unwrap()` on `None`
    | SubtractOverflow          // `usize` subtraction below zero
    | IndexOutOfBounds          // `Vec::insert` past the end, or a string slice past the end
    | InsertOutOfBounds(index: nat) // "Trying to insert to index {index} which is out of bounds!"
    | BrokenBigVec              // "Something is wrong with this BigVec"
    | MalformedIterator(key: nat) // "The iterator is wrongly formed! ..."
    | StructureMismatch         // "Cannot append from a BigVec with a different structure"
    | LoopsForever              // a loop that never makes progress (capacity 0)
    | ParseIntError             // `str::parse` / `from_str_radix` failed and was unwrapped
    | IntegerOutOfRange         // `u64::try_from` failed and was unwrapped
    | InvalidLocalId            // the engine refused a string or bytes id and it was unwrapped

  datatype Outcome<+T> = Ok(value: T) | Panic(reason: Reason)
}
