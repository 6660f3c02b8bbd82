/**
  The two pieces of Rust's core library that the name-trimming step relies on:
  `usize` subtraction and byte-range slicing of a `str`, each with the way it
  panics. A panic is a value here, so that every input of the trim has an
  outcome and no caller has to promise that the lengths fit.
 */
module RustStr {

  /** One byte of UTF-8, held as a `char` below 256 so that ASCII string
      literals can be written directly. */
  type Byte = c: char | c as int < 0x100 witness ' '

  /** The UTF-8 encoding of a `str`, one element per byte. */
  type Str = seq<Byte>

  /** `usize` is taken to be 64 bits wide. */
  const UsizeModulus: nat := 0x1_0000_0000_0000_0000

  /** No allocation, and so no `str`, is longer than `isize::MAX` bytes. */
  const IsizeMax: nat := 0x7FFF_FFFF_FFFF_FFFF

  predicate IsStr(s: Str) {
    |s| <= IsizeMax
  }

  /** A byte `0b10xx_xxxx`, which continues a multi-byte character. */
  predicate IsContinuation(b: Byte) {
    0x80 <= b as int < 0xC0
  }

  /** `s.is_char_boundary(i)`: the start, the end, or an index whose byte
      begins a character. */
  predicate IsCharBoundary(s: Str, i: nat) {
    i == 0 || i == |s| || (i < |s| && !IsContinuation(s[i]))
  }

  /** A well-formed `str` never begins with a continuation byte; the model
      keeps only this consequence of UTF-8 validity. */
  predicate StartsOnBoundary(s: Str) {
    s == [] || !IsContinuation(s[0])
  }

  /** Whether `usize` arithmetic is checked (`overflow-checks = true`, the
      debug profile) or wraps around (the release profile). */
  datatype Profile = Checked | Wrapping

  /** Why a Rust expression panicked. */
  datatype Panic =
    | SubtractOverflow                      // "attempt to subtract with overflow"
    | IndexOutOfBounds(index: nat)          // "byte index .. is out of bounds of .."
    | BeginAfterEnd(begin: nat, end: nat)   // "begin <= end (.. <= ..) when slicing .."
    | NotCharBoundary(index: nat)           // "byte index .. is not a char boundary"

  datatype Outcome<T> = Value(value: T) | Panicked(cause: Panic)

  /** `a - b` on `usize`. Under `Checked` an underflow panics; under
      `Wrapping` the result is the difference modulo 2^64. */
  function Sub(profile: Profile, a: nat, b: nat): (r: Outcome<nat>)
    requires a < UsizeModulus && b < UsizeModulus
    ensures r.Value? <==> b <= a || profile.Wrapping?
    ensures r.Value? ==> r.value < UsizeModulus && (r.value + b) % UsizeModulus == a
    ensures b <= a ==> r == Value(a - b)
    ensures r.Panicked? ==> r.cause == SubtractOverflow
  {
    if b <= a then Value(a - b)
    else if profile.Checked? then Panicked(SubtractOverflow)
    else Value(a + UsizeModulus - b)
  }

  /** `&s[begin..end]` on a `str`. A failure is reported in the order the
      core library checks it: an index past the end (`begin` first, then
      `end`), then a range that runs backwards, then an index that is not a
      character boundary (`begin` first, then `end`). */
  function Slice(s: Str, begin: nat, end: nat): (r: Outcome<Str>)
    ensures r.Value? <==> begin <= end <= |s| && IsCharBoundary(s, begin) && IsCharBoundary(s, end)
    ensures r.Value? ==> |r.value| == end - begin
    ensures r.Value? ==> forall i :: 0 <= i < |r.value| ==> r.value[i] == s[begin + i]
    ensures r.Panicked? && begin > |s| ==> r.cause == IndexOutOfBounds(begin)
    ensures r.Panicked? && begin <= |s| < end ==> r.cause == IndexOutOfBounds(end)
    ensures r.Panicked? && end < begin <= |s| ==> r.cause == BeginAfterEnd(begin, end)
    ensures r.Panicked? && begin <= end <= |s| ==>
      r.cause == NotCharBoundary(if IsCharBoundary(s, begin) then end else begin)
  {
    if begin > |s| then Panicked(IndexOutOfBounds(begin))
    else if end > |s| then Panicked(IndexOutOfBounds(end))
    else if begin > end then Panicked(BeginAfterEnd(begin, end))
    else if !IsCharBoundary(s, begin) then Panicked(NotCharBoundary(begin))
    else if !IsCharBoundary(s, end) then Panicked(NotCharBoundary(end))
    else Value(s[begin..end])
  }
}
