/** The limits that the parts of the program share. */
module Constants {
  const MISC_LENGTH := 128
  const MAX_BUFFER_SIZE := 65535
  const MAX_CONNECTIONS := 1000

  /** The terminator of a C string. */
  const NUL: char := '\0'
}
