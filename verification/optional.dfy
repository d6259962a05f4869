/** The failure-or-value wrapper used where the allocator can run out of room. */
module Optional {

  datatype Option<+T> = None | Some(value: T)

}
