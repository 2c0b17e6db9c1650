/** Bytes, options and the few sequence facts every other module uses. */
module Bytes {

  type byte = x: int | 0 <= x < 256

  datatype Option<+T> = None | Some(value: T)

  function Min(a: int, b: int): int {
    if a < b then a else b
  }

  function Max(a: int, b: int): int {
    if a < b then b else a
  }

  /** memcpy into a buffer. */
  function Overwrite(buffer: seq<byte>, at: nat, p: seq<byte>): (r: seq<byte>)
    requires at + |p| <= |buffer|
    ensures |r| == |buffer|
  {
    buffer[..at] + p + buffer[at + |p|..]
  }

  lemma OverwriteParts(buffer: seq<byte>, at: nat, p: seq<byte>)
    requires at + |p| <= |buffer|
    ensures var r := Overwrite(buffer, at, p);
      && r[..at] == buffer[..at] && r[at..at + |p|] == p && r[at + |p|..] == buffer[at + |p|..]
         && r[..at + |p|] == buffer[..at] + p
  {
  }
}
