/** Datatypes and byte types shared by every module. */
module Common {
  datatype Option<+T> = None | Some(value: T)

  datatype Result<+T, +E> = Ok(value: T) | Err(error: E)

  type Byte = b: int | 0 <= b < 256

  /** At most the first `n` elements. */
  function Take<T>(s: seq<T>, n: nat): seq<T> {
    if n <= |s| then s[..n] else s
  }

  /** What a read of `n` elements at an offset returns; it stops at the end. */
  function ReadAt<T>(d: seq<T>, at: nat, n: nat): seq<T> {
    if at >= |d| then [] else if at + n >= |d| then d[at..] else d[at..at + n]
  }

  function Concat(texts: seq<string>): string {
    if texts == [] then "" else Concat(texts[..|texts| - 1]) + texts[|texts| - 1]
  }
}
