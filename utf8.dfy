/**
 * Well-formed UTF-8, the test `bytes.decode()` makes before it returns a string
 * (the strict decoder rejects overlong forms, surrogates and code points above
 * U+10FFFF, as table 3-7 of chapter 3 of the Unicode Standard lays out).
 */
module Utf8 {
  import opened Bytes

  predicate InRange(b: Byte, lo: int, hi: int) {
    lo <= b <= hi
  }

  predicate IsContinuation(b: Byte) {
    InRange(b, 0x80, 0xBF)
  }

  /**
   * The length of the well-formed character that starts at `b[i]`, or 0 when none
   * starts there.
   */
  function CharWidth(b: seq<Byte>, i: nat): (n: nat)
    requires i < |b|
    ensures n <= 4 && i + n <= |b|
    ensures n == 1 <==> b[i] < 0x80
  {
    var b0 := b[i];
    if b0 < 0x80 then 1
    else if InRange(b0, 0xC2, 0xDF) then
      if i + 2 <= |b| && IsContinuation(b[i + 1]) then 2 else 0
    else if InRange(b0, 0xE0, 0xEF) then
      var lo := if b0 == 0xE0 then 0xA0 else 0x80;
      var hi := if b0 == 0xED then 0x9F else 0xBF;
      if i + 3 <= |b| && InRange(b[i + 1], lo, hi) && IsContinuation(b[i + 2]) then 3 else 0
    else if InRange(b0, 0xF0, 0xF4) then
      var lo := if b0 == 0xF0 then 0x90 else 0x80;
      var hi := if b0 == 0xF4 then 0x8F else 0xBF;
      if i + 4 <= |b| && InRange(b[i + 1], lo, hi) && IsContinuation(b[i + 2]) && IsContinuation(b[i + 3]) then 4 else 0
    else 0
  }

  /** `b[i..]` is a sequence of well-formed characters: it is empty, or it starts with one. */
  predicate DecodesFrom(b: seq<Byte>, i: nat)
    requires i <= |b|
    decreases |b| - i, 1
  {
    i == |b| || StartsWithChar(b, i)
  }

  /** `b[i..]` starts with a well-formed character, and what follows it decodes. */
  predicate StartsWithChar(b: seq<Byte>, i: nat)
    requires i < |b|
    decreases |b| - i, 0
  {
    CharWidth(b, i) > 0 && DecodesFrom(b, i + CharWidth(b, i))
  }

  /** `b.decode()` succeeds: `b` is a sequence of well-formed characters. */
  predicate IsUtf8(b: seq<Byte>) {
    DecodesFrom(b, 0)
  }

  /** Bytes below 0x80 always decode, each as one character. */
  lemma {:induction false} AsciiBytesDecodeFrom(b: seq<Byte>, i: nat)
    requires i <= |b|
    requires forall k | i <= k < |b| :: b[k] < 0x80
    ensures DecodesFrom(b, i)
    decreases |b| - i
  {
    if i < |b| {
      AsciiBytesDecodeFrom(b, i + 1);
      assert StartsWithChar(b, i);
    }
  }

  lemma AsciiBytesAreUtf8(b: seq<Byte>)
    requires forall i | 0 <= i < |b| :: b[i] < 0x80
    ensures IsUtf8(b)
  {
    AsciiBytesDecodeFrom(b, 0);
  }

  /** A byte of 0x80 or above cannot stand alone, so a lone non-ASCII byte never decodes. */
  lemma LoneHighByteIsNotUtf8(b: Byte)
    requires b >= 0x80
    ensures !IsUtf8([b])
  {
    assert !StartsWithChar([b], 0);
  }
}
