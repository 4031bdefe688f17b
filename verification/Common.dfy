/** What several modules share. */
module Common {

  datatype Option<+T> = None | Some(value: T)

  /** The end of a C string. */
  const NUL := '\0'

  /** 2^64, one past the largest unsigned word. */
  const WORD_SPAN := 0x1_0000_0000_0000_0000

  const EFAULT := 14
  const EINVAL := 22
}
