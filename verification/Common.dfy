/** Types several parts of the driver share. */
module Common {
  import opened Bytes

  datatype Option<+T> = None | Some(value: T)

  /** Where a parser found something: nowhere, or a stretch of its input. */
  datatype View = Absent | At(off: nat, len: nat)

  /** A target or bus address space. */
  type Memory = nat -> byte
}
