/** What the modules of the kernel share: machine words, page size, task states and optional
    values. */
module Basics {

  const WORD_LIMIT := 0x1_0000_0000
  const PAGE_SIZE := 4096

  type byte = x: int | 0 <= x < 256
  type word = x: int | 0 <= x < WORD_LIMIT

  datatype Option<T> = None | Some(value: T)

  /** The states of a task (src/include/book/task.h:23-31). */
  datatype Status = Ready | Running | Blocked | Waiting | Stopped | Zombie
}
