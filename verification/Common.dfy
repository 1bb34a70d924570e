/** Definitions that several modules share. */
module Common {

  datatype Option<T> = None | Some(value: T)

  type Byte = b: int | 0 <= b < 256

  function Min(a: nat, b: nat): nat {
    if a < b then a else b
  }

  function Max(a: nat, b: nat): nat {
    if a < b then b else a
  }

  const NUL := '\0'

  /** A C string's character: the terminator follows the last one. */
  function CharAt(s: string, i: nat): char {
    if i < |s| then s[i] else NUL
  }
}
