# sprig string functions, in Dafny

This project models the string functions of the sprig template-function
library for Rust (`src/strings.rs`) and proves properties of them.
`abbrev`, `abbrevboth`, `initials`, `untitle`, `replace`, `plural`,
`trunc`, `split`, `substring`, `trim`, `trim_all`, `trim_suffix`,
`trim_prefix`, `contains`, `has_suffix` and `has_prefix` are each modelled
by the operation their body performs. The hand-written `join` adapter is
modelled as well. It receives the template engine's type-erased arguments
and reports an error message for each way they can be malformed.

Files:

- `rust_prims.dfy` (module `RustPrims`) holds the parts of Rust's
  standard library that the functions rely on:
  - `Option` and `Result`;
  - the `i64` type and its wrapping `as usize` cast;
  - `cmp::min` against a string length;
  - the ASCII meaning of `char::is_whitespace` and `char::to_lowercase`.
- `gtmpl_value.dfy` (module `GtmplValue`) holds the engine's dynamic
  `Value`, the `Arc<Any>` argument handle, and `from_value::<String>`.
- `strings.dfy` (module `Strings`) holds the functions themselves, a
  reference definition for each where one is needed, and the lemmas
  relating them.
- `strings_tests.dfy` (module `StringsTests`) states the unit tests of
  `src/strings.rs` as lemmas.

Strings are sequences of characters. `abbrev`, `abbrevboth`, `trunc` and
`substring` compare byte lengths (`s.len()`) and slice by byte offset. On
text that is not ASCII they count bytes where the model counts characters,
so their results differ from the model even where nothing panics, and they
panic when an offset falls inside a multi-byte character. `initials` takes
the first byte of each word (`&w[0..1]`): it panics on a word that opens
with a multi-byte character, and otherwise takes that word's first
character as the model does. `initials`, `trim` and `untitle` read
whitespace (and `untitle` case) by Unicode rules, which agree with the
model only on ASCII text. All of these require `IsAscii`. Searching, splitting, replacing and trimming by a set of
characters are exact on characters for any text, so they carry no such
requirement.

Where the documentation and the code disagree, the model follows the code:

- `trim_suffix` and `trim_prefix` are documented as Go's
  `strings.TrimSuffix`/`TrimPrefix`, which remove at most one copy. The
  code calls `trim_right_matches`/`trim_left_matches`, which remove every
  repeated copy. The model removes every copy, and
  `StringsTests.TrimSuffixRemovesRepeatedCopies` shows the difference.
- `substring start len s` takes `len` as an end offset, not a count, as
  the code does.
- `trunc` is documented to turn "Hello World" at length 5 into "hello".
  The code keeps the case, giving "Hello", and so does the model
  (`StringsTests.TruncDocExample`).

## Model

| member | source | states |
|---|---|---|
| RustPrims.AsUsize | src/strings.rs:70-71 | `x as usize` is below 2^64, congruent to `x` modulo 2^64, and above `i64::MAX` when `x` is negative |
| RustPrims.MinUsize | src/strings.rs:70-71 | `cmp::min(x as usize, len)`: a negative `x` gives `len`, otherwise the smaller of `x` and `len` |
| RustPrims.IsWhitespace | src/strings.rs:131 | `char::is_whitespace` on ASCII holds exactly for tab, line feed, vertical tab, form feed, carriage return and space |
| RustPrims.ToLower | src/strings.rs:136 | `to_lowercase` on ASCII yields no upper-case letter, changes only an upper-case letter (by +32), keeps ASCII, and keeps whitespace status |
| RustPrims.ToLowerIdempotent | src/strings.rs:136 | lower-casing twice is lower-casing once |
| GtmplValue.StringFromValue | src/strings.rs:176-178 | `from_value::<String>` succeeds exactly on a string value, and gives its text |
| Strings.HasPrefix | src/strings.rs:265-267 | `has_prefix substr s` is `s.starts_with(substr)`: `s` is at least as long and its first characters are `substr`; HasPrefixMeansConcat states it as a concatenation |
| Strings.HasSuffix | src/strings.rs:258-260 | `has_suffix substr s` is `s.ends_with(substr)`: `s` is at least as long and its last characters are `substr`; HasSuffixMeansConcat states it as a concatenation |
| Strings.HasPrefixMeansConcat | src/strings.rs:265-267 | `has_prefix substr s` holds iff `s` is `substr` followed by something |
| Strings.HasSuffixMeansConcat | src/strings.rs:258-260 | `has_suffix substr s` holds iff `s` is something followed by `substr` |
| Strings.FindFrom | src/strings.rs:252 | the search from position `i` returns an occurrence at or after `i` with no occurrence between `i` and it, or none when there is none from `i` on |
| Strings.Find | src/strings.rs:252 | the search behind `contains`, `split` and `replace` returns an occurrence with no earlier occurrence before it, or none when there is none anywhere |
| Strings.FindIsLeftmost | src/strings.rs:252 | the leftmost occurrence is exactly what the search returns |
| Strings.Contains | src/strings.rs:251-253 | `contains substr s` holds iff `substr` occurs somewhere in `s` |
| Strings.Abbrev | src/strings.rs:58-64 | `abbrev` is unchanged when `width < 4` or `s` is shorter than `width`; otherwise it is exactly `width` long, a prefix of `s` then "...", and never longer than `s` |
| Strings.AbbrevIdempotent | src/strings.rs:58-64 | abbreviating twice to the same width is abbreviating once |
| Strings.AbbrevIsTruncPlusEllipsis | src/strings.rs:58-64 | a shortened `abbrev width s` is `trunc (width - 3) s` followed by "..." |
| Strings.AbbrevShortensFittingString | src/strings.rs:59 | as written, `abbrev 6 "foobar"` shortens a string that already fits, to "foo..." |
| Strings.AbbrevFitting | src/strings.rs:58-64 | corrected `abbrev`: a string that fits in `width` is unchanged, a longer one is cut to exactly `width` characters ending in "..." |
| Strings.AbbrevBoth | src/strings.rs:69-83 | `abbrevboth` gives `s` exactly under the source's three guard conditions; otherwise a shorter result of exactly `maxWidth` characters, which opens with "..." when `offset > 4` |
| Strings.AbbrevBothNearStart | src/strings.rs:72-75 | with `offset <= 4` (and width at least 7 when the offset is positive), `abbrevboth` is the fitting `abbrev` at `maxWidth` |
| Strings.AbbrevBothMiddle | src/strings.rs:76-78 | when the window fits, `abbrevboth` is "..." plus `abbrev (maxWidth - 3)` of the text from `offset` on |
| Strings.AbbrevBothTail | src/strings.rs:79-81 | when the window would run past the end, `abbrevboth` is "..." plus a suffix of `s`, `maxWidth` long in all |
| Strings.Trunc | src/strings.rs:159-165 | `trunc` is unchanged for a negative or too-large `len`, otherwise the prefix of `s` of length `len`; it is always a prefix of `s` |
| Strings.TruncIdempotent | src/strings.rs:159-165 | truncating twice is truncating once |
| Strings.Substring | src/strings.rs:207-215 | `substring` gives back `s` when the clamped offsets are out of order or out of range; otherwise it is the piece of `s` between them, with length `to - from`; always a substring of `s` |
| Strings.SubstringFromStartIsTrunc | src/strings.rs:207-215 | `substring 0 n s` equals `trunc n s` for every `n` |
| Strings.Plural | src/strings.rs:152-154 | `plural` picks `one` when `count` is 1 and `many` for every other count |
| Strings.SkipStart | src/strings.rs:221 | the scan from the front stops at the first character outside the set, or at the end, and skips only characters of the set |
| Strings.SkipEnd | src/strings.rs:221 | the scan from the back stops after the last character outside the set, or at the lower bound, and skips only characters of the set |
| Strings.TrimSet | src/strings.rs:228-231 | `trim_matches` leaves a slice of `s` framed by characters of the set, and that slice neither starts nor ends with one of them |
| Strings.Trim | src/strings.rs:220-222 | `trim` leaves a slice of `s` framed by whitespace that neither starts nor ends with whitespace |
| Strings.TrimSetKeepsAscii | src/strings.rs:221 | trimming ASCII text leaves ASCII text |
| Strings.SliceKeepsAscii | src/strings.rs:221 | a slice of ASCII text is ASCII |
| Strings.TrimAll | src/strings.rs:228-231 | `trim_all chars s` leaves a slice of `s` framed by characters of `chars` that neither starts nor ends with one of them; an empty `chars` removes nothing |
| Strings.TrimSetIdempotent | src/strings.rs:228-231 | trimming twice by the same set is trimming once |
| Strings.TrimIdempotent | src/strings.rs:220-222 | `trim` twice is `trim` once |
| Strings.TrimAllIdempotent | src/strings.rs:228-231 | `trim_all` twice with the same characters is `trim_all` once |
| Strings.Repeat | src/strings.rs:238 | `k` copies of `p` are `k` times as long as `p` |
| Strings.RepeatAppend | src/strings.rs:238 | appending one more copy of `p` gives `k + 1` copies |
| Strings.TrimPrefix | src/strings.rs:244-246 | `trim_prefix p s` is a suffix of `s` that no longer starts with a non-empty `p`; an empty `p` removes nothing |
| Strings.TrimSuffix | src/strings.rs:237-239 | `trim_suffix p s` is a prefix of `s` that no longer ends with a non-empty `p`; an empty `p` removes nothing |
| Strings.TrimPrefixRemovesCopies | src/strings.rs:244-246 | `s` is some number of copies of `p` followed by `trim_prefix p s` |
| Strings.TrimSuffixRemovesCopies | src/strings.rs:237-239 | `s` is `trim_suffix p s` followed by some number of copies of `p` |
| Strings.WordEnd | src/strings.rs:90 | a word runs from its start up to the next whitespace or the end, and holds no whitespace |
| Strings.WordsFrom | src/strings.rs:90 | `split_whitespace` yields only non-empty words |
| Strings.FirstChars | src/strings.rs:91 | the first character of each word, in word order, as `&w[0..1]` takes it; WordsFromStartChars states which characters these are |
| Strings.Initials | src/strings.rs:88-94 | `initials` holds no whitespace, is ASCII, and is no longer than `s` |
| Strings.WordStartsBound | src/strings.rs:88-94 | the word starts of `s` are non-whitespace characters of `s`, at most one per position |
| Strings.NoWordStartInsideWord | src/strings.rs:90-91 | no word starts strictly inside a whitespace-free run |
| Strings.WordsFromStartChars | src/strings.rs:90-92 | the first characters of the words are exactly the characters that start a word |
| Strings.InitialsAreWordStarts | src/strings.rs:88-94 | `initials s` is the sequence of characters of `s` that are not whitespace and follow whitespace or the start |
| Strings.Untitled | src/strings.rs:127-142 | the reference result of `untitle` has the length of `s` |
| Strings.Untitle | src/strings.rs:127-142 | the `ws`-flag loop of `untitle` produces the reference result: each word's first character lower-cased, all else unchanged |
| Strings.UntitledWordStartAt | src/strings.rs:130-138 | a position starts a word of `untitle s` exactly when it starts a word of `s` |
| Strings.UntitledSameWordStarts | src/strings.rs:127-142 | `untitle` keeps word starts where they were |
| Strings.UntitledKeepsAscii | src/strings.rs:127-142 | `untitle` of ASCII text is ASCII |
| Strings.UntitledIdempotent | src/strings.rs:127-142 | `untitle` twice is `untitle` once |
| Strings.LowerAll | src/strings.rs:136 | lower-casing every character keeps the length |
| Strings.WordStartsOfUntitled | src/strings.rs:127-142 | the word starts of an untitled string are the lower-cased word starts |
| Strings.InitialsOfUntitled | src/strings.rs:88-142 | `initials (untitle s)` is `initials s` lower-cased |
| Strings.SplitPieces | src/strings.rs:197 | `orig.split(sep)` yields at least one piece |
| Strings.SplitStep | src/strings.rs:197 | a split emits the text before the leftmost occurrence of `sep`, then splits what follows the occurrence |
| Strings.SplitPiecesAvoidSep | src/strings.rs:197 | no piece of `orig.split(sep)` contains `sep` |
| Strings.NoOccurrenceBefore | src/strings.rs:197 | the text before the leftmost occurrence contains no occurrence |
| Strings.JoinStrings | src/strings.rs:184 | `itertools::join` of no parts is empty and of one part is that part |
| Strings.JoinStep | src/strings.rs:184 | joining a part onto one or more parts puts the separator between them |
| Strings.OccurrenceSplits | src/strings.rs:197 | the leftmost occurrence cuts `s` into the text before it, the separator, and the rest |
| Strings.JoinSplitPieces | src/strings.rs:184-197 | joining the pieces of a split with the same separator gives back the original string |
| Strings.OccurrencesFrom | src/strings.rs:197 | the reference count of non-overlapping occurrences from position `i`, by a scan that skips past each occurrence it meets; OccurrencesFit bounds it |
| Strings.Occurrences | src/strings.rs:197 | the reference count of non-overlapping occurrences in the whole of `s`, in which SplitPiecesCount and ReplaceLength are stated |
| Strings.OccurrencesFit | src/strings.rs:197 | the counted occurrences do not overlap: their number times the length of `p` fits in the scanned text |
| Strings.PrefixAt | src/strings.rs:197 | `p` starts `s[i..]` exactly when the slice of `s` at `i` of the length of `p` is `p` |
| Strings.OccurrencesFromFindFrom | src/strings.rs:197 | counting from `i` counts the occurrence the search from `i` returns, then counts on after it; no occurrence counts zero |
| Strings.OccurrencesShift | src/strings.rs:197 | counting from `j + i` in `s` is counting from `i` in `s[j..]` |
| Strings.OccurrencesFromFind | src/strings.rs:197 | the scan count of non-overlapping occurrences agrees with repeated leftmost search |
| Strings.SplitPiecesCount | src/strings.rs:197 | a split yields one piece more than there are non-overlapping occurrences of `sep` |
| Strings.Replace | src/strings.rs:146-148 | `s.replace(old, new)`: each leftmost non-overlapping occurrence of `old` replaced by `new`; its properties are ReplaceWithoutOccurrence, ReplaceStep, ReplaceIsJoinOfSplit, ReplaceWithItself and ReplaceLength |
| Strings.ReplaceWithoutOccurrence | src/strings.rs:146-148 | `replace` leaves `s` unchanged when `old` does not occur in it |
| Strings.ReplaceStep | src/strings.rs:146-148 | a replacement emits the text before the leftmost occurrence, then `new`, then replaces in what follows the occurrence |
| Strings.ReplaceIsJoinOfSplit | src/strings.rs:146-148 | `replace old new s` is `s` split on `old` and joined with `new` |
| Strings.ReplaceWithItself | src/strings.rs:146-148 | replacing `old` by itself changes nothing |
| Strings.ReplaceLength | src/strings.rs:146-148 | `replace` changes the length, per occurrence, by the length of `new` minus that of `old` |
| Strings.Decimal | src/strings.rs:199 | `format!("{}", n)` is a non-empty string of decimal digits, of at least two digits from 10 on |
| Strings.DigitChar | src/strings.rs:199 | a digit below 10 is written as the character of that value |
| Strings.DecimalValue | src/strings.rs:199 | the digits of `format!("{}", n)`, read most significant first, stand for `n`, and they start with 0 only for `n` = 0 |
| Strings.DecimalInjective | src/strings.rs:199 | different numbers are written differently |
| Strings.Key | src/strings.rs:199 | the key of a piece is `_` followed by digits |
| Strings.KeyDigits | src/strings.rs:199 | after its underscore, the key of piece `i` is the decimal writing of `i` and reads back as `i` |
| Strings.KeyInjective | src/strings.rs:199 | different piece indexes get different keys |
| Strings.Split | src/strings.rs:195-202 | `split` maps `_i` to the `i`-th piece, for each piece, and has no other keys |
| Strings.KeyRangeSize | src/strings.rs:199 | the keys `_0` up to `_{n-1}` are `n` distinct strings |
| Strings.ValuesInKeyOrder | src/strings.rs:195-202 | reading `n` keys in order yields `n` values |
| Strings.SplitJoinRoundTrip | src/strings.rs:195-202 | `split` has one entry per piece (one more than the occurrences of `sep`), and joining its values in key order with `sep` gives back `orig` |
| Strings.Join | src/strings.rs:169-189 | `join` reports each malformed argument list with its own message, in the source's order; it succeeds exactly on a string then an array; the result is a string, the elements' texts joined by the separator |
| Strings.Texts | src/strings.rs:184 | the texts of string values are in the same order and of the same number |
| Strings.StrValues | src/strings.rs:183-184 | a list of strings as values is all strings, and its texts are the list |
| Strings.SplitThenJoin | src/strings.rs:169-202 | passing the values of `split sep orig`, in key order, to `join sep` gives back `orig` |
| StringsTests.AbbrevTest | src/strings.rs:336-338 | `abbrev 4 "foobar"` is "f..." |
| StringsTests.AbbrevBothTest | src/strings.rs:341-346 | the four `abbrevboth` cases of the unit test |
| StringsTests.InitialsTest | src/strings.rs:349-353 | `initials` of "", " " and "Foo Bar" |
| StringsTests.UntitleTest | src/strings.rs:383-389 | the five `untitle` cases of the unit test |
| StringsTests.FindWorld | src/strings.rs:392-396 | "World" is found at 6 in "Hello World!" |
| StringsTests.FindWorldAbsent | src/strings.rs:392-396 | "World" is not found in "!" |
| StringsTests.ReplaceInHello | src/strings.rs:392-396 | the first replacement in "Hello World!" keeps "Hello " and continues on "!" |
| StringsTests.ReplaceInBang | src/strings.rs:392-396 | nothing is replaced in "!" |
| StringsTests.ReplaceTest | src/strings.rs:392-396 | `replace "World" "Doom" "Hello World!"` is "Hello Doom!" |
| StringsTests.PluralTest | src/strings.rs:399-402 | `plural "mouse" "mice"` at counts 1 and 10 |
| StringsTests.TruncTest | src/strings.rs:405-407 | `trunc 5 "foobar"` is "fooba" |
| StringsTests.TruncDocExample | src/strings.rs:158-164 | `trunc 5 "Hello World"` is "Hello", case kept, not the "hello" of the doc comment |
| StringsTests.JoinTest | src/strings.rs:410-412 | `join "_" ["hello", "world"]` is "hello_world" |
| StringsTests.FindSpace | src/strings.rs:415-420 | the space in "foo bar" is found at 3 |
| StringsTests.FindSpaceAbsent | src/strings.rs:415-420 | there is no space in "bar" |
| StringsTests.SplitPiecesFooBar | src/strings.rs:415-420 | "foo bar" split on a space is ["foo", "bar"] |
| StringsTests.KeysZeroOne | src/strings.rs:415-420 | the first two keys are "_0" and "_1" |
| StringsTests.KeyTen | src/strings.rs:199 | the key of piece 10 is "_10" |
| StringsTests.SplitEntriesFooBar | src/strings.rs:415-420 | the split map of "foo bar" maps "_0" to "foo" and "_1" to "bar" |
| StringsTests.SplitKeysFooBar | src/strings.rs:415-420 | the split map of "foo bar" has no keys besides "_0" and "_1" |
| StringsTests.MapOfTwo | src/strings.rs:415-420 | a map with exactly those two entries is the expected map |
| StringsTests.SplitTest | src/strings.rs:415-420 | `split " " "foo bar"` is {"_0": "foo", "_1": "bar"} |
| StringsTests.SubstringTest | src/strings.rs:423-428 | the four `substring` cases of the unit test |
| StringsTests.ContainsTest | src/strings.rs:431-443 | `contains`, `has_suffix` and `has_prefix` on "foobar" |
| StringsTests.TrimStartSpaces | src/strings.rs:446-448 | the leading whitespace of "  foobar " ends at 2 |
| StringsTests.TrimEndSpaces | src/strings.rs:446-448 | the trailing whitespace of "  foobar " starts at 8 |
| StringsTests.TrimTest | src/strings.rs:446-448 | `trim "  foobar "` is "foobar" |
| StringsTests.TrimStartFr | src/strings.rs:451-453 | the leading characters of " fr" in "  foobar " end at 3 |
| StringsTests.TrimEndFr | src/strings.rs:451-453 | the trailing characters of " fr" in "  foobar " start at 7 |
| StringsTests.TrimAllTest | src/strings.rs:451-453 | `trim_all " fr" "  foobar "` is "ooba" |
| StringsTests.TrimSuffixTest | src/strings.rs:456-458 | `trim_suffix "bar" "foobar"` is "foo" |
| StringsTests.TrimPrefixTest | src/strings.rs:461-463 | `trim_prefix "foo" "foobar"` is "bar" |
| StringsTests.TrimSuffixRemovesRepeatedCopies | src/strings.rs:237-239 | `trim_suffix "-" "ends--"` removes both dashes |

## Left out

- `base64encode`, `base64decode`, `base32encode`, `base32decode`: they only call the `data_encoding` crate and `str::from_utf8`, which are not part of this model.
- `rand_alpha_numeric`, `rand_alpha`, `rand_ascii`, `rand_numeric`: their output is random and comes from `src/utils.rs`, which is not part of this model.
- The `gtmpl_fn!` macro: it converts the engine's arguments for every function other than `join`. The modelled functions take their arguments already converted. The macro's own conversion errors are not modelled.
- Strings.Join: `Value::to_string` for values other than strings is a parameter (`display`). It is only required to give a string value's own text. So the joined text is stated only when every element is a string.
- Text that is not ASCII: byte slicing in the middle of a multi-byte character panics in Rust. `char::is_whitespace` and `char::to_lowercase` differ on Unicode. The functions that depend on either require ASCII input.
- Strings.SplitPieces, Strings.Split, Strings.Replace: an empty separator or pattern is not modelled. Rust then splits between every character, and every boundary gets the replacement. These members require a non-empty separator.
- Strings.Split: the result is a map, so the iteration order of `HashMap` has no counterpart. Only the contents are modelled.
- `as usize` is modelled for a 64-bit target (`USIZE_MODULUS` is 2^64). On a 32-bit target the casts in `abbrev`, `abbrevboth`, `trunc` and `substring` truncate an `i64` of 2^32 or more, so `trunc 4294967298 "foobar"` would give "fo" where the model gives "foobar".
- `Float` values are real numbers: IEEE rounding is not modelled. It does not affect any string function.

## Findings

| source | as written | input that shows it | evidently intended | confidence | as-written member | corrected member |
|---|---|---|---|---|---|---|
| src/strings.rs:59 | `abbrev` keeps `s` only when it is strictly shorter than `width` | `abbrev 6 "foobar"` gives "foo..." although "foobar" fits in 6 | a string of at most `width` characters is returned unchanged, as `abbrevboth` does at line 72 | medium, not executed | Strings.AbbrevShortensFittingString | Strings.AbbrevFitting |
