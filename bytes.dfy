/** Bytes of the request body and the few ASCII constants the handler compares them with. */
module Bytes {
  type Byte = b: int | 0 <= b < 256

  const LF: Byte := 10
  const CR: Byte := 13
  const QUOTE: Byte := 34

  /** The blank separator line `b"\r\n"`. */
  const CRLF: seq<Byte> := [CR, LF]

  predicate IsAscii(s: string) {
    forall i | 0 <= i < |s| :: s[i] as int < 128
  }

  /** The bytes of an ASCII text. */
  function Ascii(s: string): seq<Byte>
    requires IsAscii(s)
  {
    seq(|s|, i requires 0 <= i < |s| => s[i] as int)
  }

  function Min(a: int, b: int): int {
    if a <= b then a else b
  }

  function Max(a: int, b: int): int {
    if a <= b then b else a
  }

  /** Reading on from `j` to `k` after reading from `i` to `j` gives the bytes from `i` to `k`. */
  lemma SliceSplit(s: seq<Byte>, i: nat, j: nat, k: nat)
    requires i <= j <= k <= |s|
    ensures s[i..k] == s[i..j] + s[j..k]
  {
    assert s[i..k] == s[i..j] + s[j..k];
  }
}
