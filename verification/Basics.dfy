/** Names shared by every module: SSA values, optional results and a hardware constant. */
module Basics {

  /** An SSA value of the lowered function. */
  type Value = nat

  /** The room for the code of an NSS program, in bytes. */
  const NSS_MAX_PROGRAM_SIZE: nat := 0x280

  datatype Option<+T> = None | Some(value: T)
}
