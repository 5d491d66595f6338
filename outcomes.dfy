/** Optional values and the fatal conditions of the kernel core. */
module Outcomes {

  datatype Option<+T> = None | Some(value: T)

  /** Every way the kernel core stops. Each stands for an `assert!`, a `panic!`,
      an `unimplemented!()`, an out-of-bounds index, an `unwrap()` of `None`
      or a spin lock that is never released; nothing in the core recovers
      from any of them. */
  datatype Fault =
    | HugePageEntry       // `assert!(!...contains(HUGE_PAGE))` in create_next_table
    | FrameNotEncodable   // `assert!` on the start address in Entry::set_flags
    | EntryInUse          // `assert!(is_unused())` in map_to
    | AlreadyMapped       // `assert!(translate_page(..).is_none())` in TemporaryPage::map
    | PageNotMapped       // `assert!(translate(..).is_some())` in unmap
    | NoneUnwrapped       // `unwrap()` of None, on an empty allocator among others
    | PoolFull            // `panic!` in TinyAllocator::dealloc_frame
    | Unimplemented       // `unimplemented!()` in AreaFrameAllocator::dealloc_frame
    | IndexOutOfBounds    // an index past the end of the VGA buffer
    | ConsoleDeadlock     // `print!` from inside the writer re-locks the held console lock

  /** The outcome of an operation that may halt the kernel; usable with `:-`. */
  datatype Result<+T> = Ok(value: T) | Err(fault: Fault) {

    predicate IsFailure() {
      Err?
    }

    function PropagateFailure<U>(): Result<U>
      requires Err?
    {
      Err(fault)
    }

    function Extract(): T
      requires Ok?
    {
      value
    }
  }
}
