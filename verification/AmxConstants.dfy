/** Error codes and the stack margin, shared by the interpreter and the host. */
module AmxConstants {
  const ERR_NONE := 0
  const ERR_STACKERR := 3
  const ERR_BOUNDS := 4
  const ERR_MEMACCESS := 5
  const ERR_INVINSTR := 6
  const ERR_STACKLOW := 7
  const ERR_HEAPLOW := 8
  const ERR_DIVIDE := 11
  const ERR_SLEEP := 12
  const ERR_MEMORY := 16
  const ERR_INDEX := 20

  /** The numbers that stand for the main function, and for going on after a sleep. */
  const EXEC_MAIN := -1
  const EXEC_CONT := -2

  /** Bytes that stay free between heap and stack. */
  const STKMARGIN := 64
}
