/** The pieces of Rust's standard library that the string functions lean on:
    `Option`/`Result`, the `i64` type and its `as usize` cast, and the
    ASCII reading of `char::is_whitespace` and `char::to_lowercase`. */
module RustPrims {

  datatype Option<T> = None | Some(value: T)

  datatype Result<T, E> = Ok(value: T) | Err(error: E)

  const I64_MAX: int := 0x7fff_ffff_ffff_ffff

  /** 2^64, the modulus of `usize` on a 64-bit target. */
  const USIZE_MODULUS: int := 0x1_0000_0000_0000_0000

  /** Rust's `i64`. */
  type Int64 = x: int | -0x8000_0000_0000_0000 <= x <= 0x7fff_ffff_ffff_ffff

  /** `x as usize` on a 64-bit target: two's complement reinterpretation,
      so a negative `x` wraps around to a value above `i64::MAX`. */
  function AsUsize(x: Int64): (u: nat)
    ensures u < USIZE_MODULUS
    ensures u % USIZE_MODULUS == x % USIZE_MODULUS
    ensures x < 0 ==> u > I64_MAX
  {
    if x < 0 then x + USIZE_MODULUS else x
  }

  /** `cmp::min(x as usize, len)` where `len` is the length of a Rust string,
      which never exceeds `isize::MAX`: a negative `x` behaves as `len`. */
  function MinUsize(x: Int64, len: nat): (m: nat)
    requires len <= I64_MAX
    ensures x < 0 ==> m == len
    ensures x >= 0 ==> m <= len && m <= x && (m == len || m == x)
  {
    var u := AsUsize(x);
    if u < len then u else len
  }

  predicate IsAsciiChar(c: char) {
    c as int < 128
  }

  predicate IsAscii(s: string) {
    forall i :: 0 <= i < |s| ==> IsAsciiChar(s[i])
  }

  /** The ASCII characters for which `char::is_whitespace` holds:
      tab, line feed, vertical tab, form feed, carriage return and space. */
  const AsciiWhitespace: set<char> := {'\t', '\n', 11 as char, 12 as char, '\r', ' '}

  predicate IsWhitespace(c: char)
    ensures IsWhitespace(c) <==> c in AsciiWhitespace
  {
    c == '\t' || c == '\n' || c == 11 as char || c == 12 as char || c == '\r' || c == ' '
  }

  predicate IsUpper(c: char) {
    'A' <= c <= 'Z'
  }

  /** `char::to_lowercase` on an ASCII character (where it yields exactly one character). */
  function ToLower(c: char): (l: char)
    ensures !IsUpper(l)
    ensures l != c ==> IsUpper(c) && l as int == c as int + 32
    ensures IsAsciiChar(c) ==> IsAsciiChar(l)
    ensures IsWhitespace(l) <==> IsWhitespace(c)
  {
    if IsUpper(c) then (c as int + 32) as char else c
  }

  lemma ToLowerIdempotent(c: char)
    ensures ToLower(ToLower(c)) == ToLower(c)
  {
  }
}
