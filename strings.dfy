/** The template string functions of `src/strings.rs`.

    Strings are sequences of characters. Where the Rust code slices by byte
    offset, or reads whitespace and case, the model is exact only on ASCII
    text and says so with an `IsAscii` precondition; substring search,
    splitting, replacing and trimming by a character set are exact on
    characters for any UTF-8 text and carry no such precondition. */
module Strings {
  import opened RustPrims
  import opened GtmplValue

  // ---------------------------------------------------------------------
  // Searching: `starts_with`, `ends_with`, `find`, `contains`
  // ---------------------------------------------------------------------

  /** `needle` occurs in `s` starting at index `i`. */
  ghost predicate OccursAt(needle: string, s: string, i: int) {
    0 <= i && i + |needle| <= |s| && s[i..i + |needle|] == needle
  }

  /** `has_prefix substr s`, i.e. `s.starts_with(substr)`. */
  predicate HasPrefix(substr: string, s: string) {
    |substr| <= |s| && s[..|substr|] == substr
  }

  /** `has_suffix substr s`, i.e. `s.ends_with(substr)`. */
  predicate HasSuffix(substr: string, s: string) {
    |substr| <= |s| && s[|s| - |substr|..] == substr
  }

  /** `s` starts with `substr` exactly when it is `substr` followed by something. */
  lemma HasPrefixMeansConcat(substr: string, s: string)
    ensures HasPrefix(substr, s) <==> exists rest :: s == substr + rest
  {
    if HasPrefix(substr, s) {
      assert s == substr + s[|substr|..];
    }
    if exists rest :: s == substr + rest {
      var rest :| s == substr + rest;
      assert s[..|substr|] == substr;
    }
  }

  /** `s` ends with `substr` exactly when it is something followed by `substr`. */
  lemma HasSuffixMeansConcat(substr: string, s: string)
    ensures HasSuffix(substr, s) <==> exists rest :: s == rest + substr
  {
    if HasSuffix(substr, s) {
      assert s == s[..|s| - |substr|] + substr;
    }
    if exists rest :: s == rest + substr {
      var rest :| s == rest + substr;
      assert s[|s| - |substr|..] == substr;
    }
  }

  /** The leftmost occurrence of `needle` in `s` at or after position `i`. */
  function FindFrom(needle: string, s: string, i: nat): (r: Option<nat>)
    requires i <= |s|
    ensures r.Some? ==> i <= r.value && OccursAt(needle, s, r.value)
    ensures r.Some? ==> forall j :: i <= j < r.value ==> !OccursAt(needle, s, j)
    ensures r.None? ==> forall j :: i <= j ==> !OccursAt(needle, s, j)
    decreases |s| - i
  {
    if i + |needle| > |s| then None
    else if s[i..i + |needle|] == needle then Some(i)
    else FindFrom(needle, s, i + 1)
  }

  /** `s.find(needle)`: the leftmost index at which `needle` occurs in `s`.
      It is the search that `contains`, `split` and `replace` perform. */
  function Find(needle: string, s: string): (r: Option<nat>)
    ensures r.Some? ==> OccursAt(needle, s, r.value)
    ensures r.Some? ==> forall j :: 0 <= j < r.value ==> !OccursAt(needle, s, j)
    ensures r.None? ==> forall j :: !OccursAt(needle, s, j)
  {
    FindFrom(needle, s, 0)
  }

  /** Conversely, the leftmost occurrence is what `Find` returns. */
  lemma FindIsLeftmost(needle: string, s: string, i: nat)
    requires OccursAt(needle, s, i)
    requires forall j :: 0 <= j < i ==> !OccursAt(needle, s, j)
    ensures Find(needle, s) == Some(i)
  {
  }

  /** `contains substr s`, i.e. `s.contains(substr)`. */
  function Contains(substr: string, s: string): (b: bool)
    ensures b <==> exists i :: OccursAt(substr, s, i)
  {
    Find(substr, s).Some?
  }

  // ---------------------------------------------------------------------
  // Truncation: `abbrev`, `abbrevboth`, `trunc`, `substring`, `plural`
  // ---------------------------------------------------------------------

  const Ellipsis: string := "..."

  /** `abbrev width s`: unchanged when `width < 4` or `s` is shorter than
      `width`; otherwise the first `width - 3` characters followed by "...",
      exactly `width` characters in all. */
  function Abbrev(width: Int64, s: string): (r: string)
    requires IsAscii(s)
    ensures width < 4 || |s| < width ==> r == s
    ensures 4 <= width <= |s| ==> |r| == width && HasPrefix(r[..width - 3], s) && HasSuffix(Ellipsis, r)
    ensures |r| <= |s|
    ensures IsAscii(r)
  {
    if width < 4 || |s| < width then s
    else s[..width - 3] + Ellipsis
  }

  /** `abbrevboth left right s`. With `offset` and `maxWidth` the two
      arguments cast to `usize` and capped at `|s|`, the result is `s`
      itself or exactly `maxWidth` characters, never longer than `s`; when
      `offset > 4` a shortened result opens with "...". */
  function AbbrevBoth(left: Int64, right: Int64, s: string): (r: string)
    requires IsAscii(s) && |s| <= I64_MAX
    ensures r == s || (|r| == MinUsize(right, |s|) && |r| < |s|)
    ensures r == s <==> MinUsize(right, |s|) < 4 || (MinUsize(left, |s|) > 0 && MinUsize(right, |s|) < 7)
                        || MinUsize(right, |s|) == |s|
    ensures r != s && MinUsize(left, |s|) > 4 ==> HasPrefix(Ellipsis, r)
    ensures IsAscii(r)
  {
    var offset := MinUsize(left, |s|);
    var maxWidth := MinUsize(right, |s|);
    if maxWidth < 4 || (offset > 0 && maxWidth < 7) || |s| <= maxWidth then s
    else if offset <= 4 then s[..maxWidth - 3] + Ellipsis
    else if offset + maxWidth - 3 < |s| then Ellipsis + s[offset..offset + maxWidth - 6] + Ellipsis
    else Ellipsis + s[|s| - (maxWidth - 3)..]
  }

  /** `trunc len s`: unchanged when `len` is negative or beyond the end of
      `s`; otherwise the prefix of `s` of length `len`. */
  function Trunc(len: Int64, s: string): (r: string)
    requires IsAscii(s)
    ensures len < 0 || len > |s| ==> r == s
    ensures 0 <= len <= |s| ==> |r| == len
    ensures HasPrefix(r, s)
    ensures IsAscii(r)
  {
    if len < 0 || len > |s| then s
    else s[..len]
  }

  /** `substring start len s`. `start` is clamped at 0 and a negative `len`
      means `|s|`; `len` is an end offset, not a count. It never fails:
      out-of-range offsets give back `s`, otherwise the result is the piece
      of `s` from `start` up to `len`. */
  function Substring(start: Int64, len: Int64, s: string): (r: string)
    requires IsAscii(s)
    ensures var from := if start < 0 then 0 else start;
            var to := if len < 0 then |s| else len;
            if from > to || from > |s| || to > |s| then r == s
            else |r| == to - from && OccursAt(r, s, from)
    ensures Contains(r, s)
    ensures IsAscii(r)
  {
    var from := if start < 0 then 0 else start;
    var to := if len < 0 then |s| else len;
    if from > to || from > |s| || to > |s| then
      assert OccursAt(s, s, 0) by { assert s[0..|s|] == s; }
      s
    else
      assert OccursAt(s[from..to], s, from);
      s[from..to]
  }

  /** `plural one many count`: `one` exactly when `count` is 1. */
  function Plural(one: string, many: string, count: Int64): (r: string)
    ensures count == 1 ==> r == one
    ensures count != 1 ==> r == many
  {
    if count == 1 then one else many
  }

  lemma AbbrevIdempotent(width: Int64, s: string)
    requires IsAscii(s)
    ensures Abbrev(width, Abbrev(width, s)) == Abbrev(width, s)
  {
  }

  /** A shortened `abbrev` is `trunc` to `width - 3` followed by "...". */
  lemma AbbrevIsTruncPlusEllipsis(width: Int64, s: string)
    requires IsAscii(s) && 4 <= width <= |s|
    ensures Abbrev(width, s) == Trunc(width - 3, s) + Ellipsis
  {
  }

  lemma TruncIdempotent(len: Int64, s: string)
    requires IsAscii(s)
    ensures Trunc(len, Trunc(len, s)) == Trunc(len, s)
  {
  }

  /** `substring 0 n s` is `trunc n s`, for every `n`. */
  lemma SubstringFromStartIsTrunc(len: Int64, s: string)
    requires IsAscii(s)
    ensures Substring(0, len, s) == Trunc(len, s)
  {
  }

  /** `abbrev` as written shortens a string whose length equals `width`,
      although it already fits. */
  lemma AbbrevShortensFittingString()
    ensures |"foobar"| == 6 && Abbrev(6, "foobar") == "foo..."
  {
  }

  /** `abbrev` with the guard `|s| <= width` that `abbrevboth` uses: a string
      that fits is returned unchanged, a longer one is cut to exactly `width`. */
  function AbbrevFitting(width: Int64, s: string): (r: string)
    requires IsAscii(s)
    ensures width < 4 || |s| <= width ==> r == s
    ensures 4 <= width < |s| ==> |r| == width && HasPrefix(r[..width - 3], s) && HasSuffix(Ellipsis, r)
    ensures |r| <= |s| && |r| <= (if width < 4 then |s| else width)
    ensures IsAscii(r)
  {
    if width < 4 || |s| <= width then s
    else s[..width - 3] + Ellipsis
  }

  /** Near the start (`offset <= 4`), `abbrevboth` is the fitting `abbrev` at
      `maxWidth`, except that a positive offset also leaves `s` unchanged below width 7. */
  lemma AbbrevBothNearStart(left: Int64, right: Int64, s: string)
    requires IsAscii(s) && |s| <= I64_MAX
    requires MinUsize(left, |s|) <= 4
    requires MinUsize(left, |s|) == 0 || MinUsize(right, |s|) >= 7
    ensures AbbrevBoth(left, right, s) == AbbrevFitting(MinUsize(right, |s|), s)
  {
  }

  /** Further in, when the window fits, `abbrevboth` is "..." followed by
      `abbrev (maxWidth - 3)` of the text from `offset` on. */
  lemma AbbrevBothMiddle(left: Int64, right: Int64, s: string)
    requires IsAscii(s) && |s| <= I64_MAX
    requires var offset := MinUsize(left, |s|); var maxWidth := MinUsize(right, |s|);
             offset > 4 && 7 <= maxWidth < |s| && offset + maxWidth - 3 < |s|
    ensures AbbrevBoth(left, right, s) == Ellipsis + Abbrev(MinUsize(right, |s|) - 3, s[MinUsize(left, |s|)..])
  {
  }

  /** When the window would run past the end, `abbrevboth` is "..." followed
      by the last `maxWidth - 3` characters of `s`. */
  lemma AbbrevBothTail(left: Int64, right: Int64, s: string)
    requires IsAscii(s) && |s| <= I64_MAX
    requires var offset := MinUsize(left, |s|); var maxWidth := MinUsize(right, |s|);
             offset > 4 && 7 <= maxWidth < |s| && offset + maxWidth - 3 >= |s|
    ensures var r := AbbrevBoth(left, right, s);
            HasPrefix(Ellipsis, r) && HasSuffix(r[3..], s) && |r| == MinUsize(right, |s|)
  {
  }

  // ---------------------------------------------------------------------
  // Trimming: `trim`, `trim_all`, `trim_prefix`, `trim_suffix`
  // ---------------------------------------------------------------------

  /** The first position at or after `i` whose character is not in `strip`,
      or `|s|`: where `trim_start_matches` stops. */
  function SkipStart(s: string, strip: set<char>, i: nat): (n: nat)
    requires i <= |s|
    ensures i <= n <= |s|
    ensures forall k :: i <= k < n ==> s[k] in strip
    ensures n == |s| || s[n] !in strip
    decreases |s| - i
  {
    if i == |s| || s[i] !in strip then i else SkipStart(s, strip, i + 1)
  }

  /** The position just after the last character before `j`, and not before
      `lo`, that is not in `strip`, or `lo`: where `trim_end_matches` stops. */
  function SkipEnd(s: string, strip: set<char>, lo: nat, j: nat): (m: nat)
    requires lo <= j <= |s|
    ensures lo <= m <= j
    ensures forall k :: m <= k < j ==> s[k] in strip
    ensures m == lo || s[m - 1] !in strip
    decreases j - lo
  {
    if j == lo || s[j - 1] !in strip then j else SkipEnd(s, strip, lo, j - 1)
  }

  /** `s[i..j]` is what is left of `s` once everything before `i` and from
      `j` on, all of it in `strip`, is cut away. */
  ghost predicate Frames(s: string, i: int, j: int, strip: set<char>) {
    && 0 <= i <= j <= |s|
    && (forall k :: 0 <= k < i ==> s[k] in strip)
    && (forall k :: j <= k < |s| ==> s[k] in strip)
  }

  /** `s.trim_matches(strip)`: leading and trailing characters in `strip`
      removed, and nothing else. */
  function TrimSet(s: string, strip: set<char>): (r: string)
    ensures exists i, j :: Frames(s, i, j, strip) && r == s[i..j]
    ensures r == [] || (r[0] !in strip && r[|r| - 1] !in strip)
  {
    var i := SkipStart(s, strip, 0);
    var j := SkipEnd(s, strip, i, |s|);
    assert Frames(s, i, j, strip);
    s[i..j]
  }

  /** `trim s`: `s.trim()`, leading and trailing whitespace removed. */
  function Trim(s: string): (r: string)
    requires IsAscii(s)
    ensures exists i, j :: Frames(s, i, j, AsciiWhitespace) && r == s[i..j]
    ensures r == [] || (!IsWhitespace(r[0]) && !IsWhitespace(r[|r| - 1]))
    ensures IsAscii(r)
  {
    var r := TrimSet(s, AsciiWhitespace);
    TrimSetKeepsAscii(s, AsciiWhitespace);
    assert r != [] ==> r[0] !in AsciiWhitespace && r[|r| - 1] !in AsciiWhitespace;
    r
  }

  lemma TrimSetKeepsAscii(s: string, strip: set<char>)
    requires IsAscii(s)
    ensures IsAscii(TrimSet(s, strip))
  {
    var r := TrimSet(s, strip);
    var i, j :| Frames(s, i, j, strip) && r == s[i..j];
    SliceKeepsAscii(s, i, j);
  }

  lemma SliceKeepsAscii(s: string, i: int, j: int)
    requires IsAscii(s) && 0 <= i <= j <= |s|
    ensures IsAscii(s[i..j])
  {
    forall k | 0 <= k < j - i
      ensures IsAsciiChar(s[i..j][k])
    {
      assert s[i..j][k] == s[i + k];
    }
  }

  /** `trim_all chars s`: leading and trailing characters that occur in `chars` removed. */
  function TrimAll(chars: string, s: string): (r: string)
    ensures exists i, j :: Frames(s, i, j, set c | c in chars) && r == s[i..j]
    ensures r == [] || (r[0] !in chars && r[|r| - 1] !in chars)
    ensures chars == [] ==> r == s
  {
    TrimSet(s, set c | c in chars)
  }

  lemma {:induction false} TrimSetIdempotent(s: string, strip: set<char>)
    ensures TrimSet(TrimSet(s, strip), strip) == TrimSet(s, strip)
  {
    var r := TrimSet(s, strip);
    assert SkipStart(r, strip, 0) == 0;
    assert SkipEnd(r, strip, 0, |r|) == |r|;
    assert r[0..|r|] == r;
  }

  lemma TrimIdempotent(s: string)
    requires IsAscii(s)
    ensures Trim(Trim(s)) == Trim(s)
  {
    TrimSetIdempotent(s, AsciiWhitespace);
  }

  lemma TrimAllIdempotent(chars: string, s: string)
    ensures TrimAll(chars, TrimAll(chars, s)) == TrimAll(chars, s)
  {
    TrimSetIdempotent(s, set c | c in chars);
  }

  /** `p` repeated `k` times. */
  function Repeat(p: string, k: nat): (r: string)
    ensures |r| == k * |p|
  {
    if k == 0 then [] else p + Repeat(p, k - 1)
  }

  lemma {:induction false} RepeatAppend(p: string, k: nat)
    ensures Repeat(p, k) + p == Repeat(p, k + 1)
  {
    if k > 0 {
      RepeatAppend(p, k - 1);
      assert Repeat(p, k) + p == p + (Repeat(p, k - 1) + p);
    }
  }

  /** `trim_prefix p s`, i.e. `s.trim_left_matches(p)`: every leading copy
      of `p` removed, so the result no longer starts with a non-empty `p`.
      An empty `p` removes nothing. */
  function TrimPrefix(p: string, s: string): (r: string)
    ensures |r| <= |s| && r == s[|s| - |r|..]
    ensures p != [] ==> !HasPrefix(p, r)
    ensures p == [] ==> r == s
    decreases |s|
  {
    if p != [] && |p| <= |s| && s[..|p|] == p then TrimPrefix(p, s[|p|..]) else s
  }

  /** `trim_suffix p s`, i.e. `s.trim_right_matches(p)`: every trailing
      copy of `p` removed. */
  function TrimSuffix(p: string, s: string): (r: string)
    ensures |r| <= |s| && r == s[..|r|]
    ensures p != [] ==> !HasSuffix(p, r)
    ensures p == [] ==> r == s
    decreases |s|
  {
    if p != [] && |p| <= |s| && s[|s| - |p|..] == p then TrimSuffix(p, s[..|s| - |p|]) else s
  }

  /** `s` is `p` followed by the rest, when it starts with `p`. */
  lemma PrefixSplit(p: string, s: string)
    requires |p| <= |s| && s[..|p|] == p
    ensures s == p + s[|p|..]
  {
    assert s == s[..|p|] + s[|p|..];
  }

  /** `s` is the rest followed by `p`, when it ends with `p`. */
  lemma SuffixSplit(p: string, s: string)
    requires |p| <= |s| && s[|s| - |p|..] == p
    ensures s == s[..|s| - |p|] + p
  {
    var n := |s| - |p|;
    assert s == s[..n] + s[n..];
  }

  lemma TrimPrefixStep(p: string, s: string)
    requires p != [] && |p| <= |s| && s[..|p|] == p
    ensures s == p + s[|p|..] && TrimPrefix(p, s) == TrimPrefix(p, s[|p|..])
  {
    PrefixSplit(p, s);
  }

  lemma TrimSuffixStep(p: string, s: string)
    requires p != [] && |p| <= |s| && s[|s| - |p|..] == p
    ensures s == s[..|s| - |p|] + p && TrimSuffix(p, s) == TrimSuffix(p, s[..|s| - |p|])
  {
    SuffixSplit(p, s);
  }

  lemma RepeatStep(p: string, k: nat)
    ensures Repeat(p, k + 1) == p + Repeat(p, k)
  {
  }

  lemma ConcatAssoc(a: string, b: string, c: string)
    ensures a + (b + c) == (a + b) + c
  {
  }

  /** What `trim_prefix` removes is a whole number of copies of `p`. */
  lemma {:induction false} TrimPrefixRemovesCopies(p: string, s: string)
    ensures exists k: nat :: s == Repeat(p, k) + TrimPrefix(p, s)
    decreases |s|
  {
    if p != [] && |p| <= |s| && s[..|p|] == p {
      var rest := s[|p|..];
      TrimPrefixRemovesCopies(p, rest);
      var r := TrimPrefix(p, rest);
      var k: nat :| rest == Repeat(p, k) + r;
      TrimPrefixStep(p, s);
      RepeatStep(p, k);
      ConcatAssoc(p, Repeat(p, k), r);
      assert s == Repeat(p, k + 1) + TrimPrefix(p, s);
    } else {
      assert s == Repeat(p, 0) + TrimPrefix(p, s);
    }
  }

  /** What `trim_suffix` removes is a whole number of copies of `p`. */
  lemma {:induction false} TrimSuffixRemovesCopies(p: string, s: string)
    ensures exists k: nat :: s == TrimSuffix(p, s) + Repeat(p, k)
    decreases |s|
  {
    if p != [] && |p| <= |s| && s[|s| - |p|..] == p {
      var rest := s[..|s| - |p|];
      TrimSuffixRemovesCopies(p, rest);
      var r := TrimSuffix(p, rest);
      var k: nat :| rest == r + Repeat(p, k);
      TrimSuffixStep(p, s);
      RepeatAppend(p, k);
      ConcatAssoc(r, Repeat(p, k), p);
      assert s == TrimSuffix(p, s) + Repeat(p, k + 1);
    } else {
      assert s == TrimSuffix(p, s) + Repeat(p, 0);
    }
  }

  // ---------------------------------------------------------------------
  // Words: `initials`, `untitle`
  // ---------------------------------------------------------------------

  /** The end of the word that starts at `i`: the first whitespace
      position at or after `i`, or `|s|`. */
  function WordEnd(s: string, i: nat): (j: nat)
    requires i <= |s|
    ensures i <= j <= |s|
    ensures forall k :: i <= k < j ==> !IsWhitespace(s[k])
    ensures j == |s| || IsWhitespace(s[j])
    decreases |s| - i
  {
    if i == |s| || IsWhitespace(s[i]) then i else WordEnd(s, i + 1)
  }

  /** `s[i..].split_whitespace()`: the maximal whitespace-free runs, in order. */
  function WordsFrom(s: string, i: nat): (words: seq<string>)
    requires i <= |s|
    ensures forall k :: 0 <= k < |words| ==> words[k] != []
    decreases |s| - i
  {
    if i == |s| then []
    else if IsWhitespace(s[i]) then WordsFrom(s, i + 1)
    else
      var j := WordEnd(s, i);
      [s[i..j]] + WordsFrom(s, j)
  }

  /** The first character of each word, as `.map(|w| &w[0..1])` takes it. */
  function FirstChars(words: seq<string>): (r: string)
    requires forall k :: 0 <= k < |words| ==> words[k] != []
  {
    seq(|words|, k requires 0 <= k < |words| => words[k][0])
  }

  /** `initials s`: the first character of every whitespace-separated word.
      It holds no whitespace and is no longer than `s`. */
  function Initials(s: string): (r: string)
    requires IsAscii(s)
    ensures |r| <= |s|
    ensures forall k :: 0 <= k < |r| ==> !IsWhitespace(r[k])
    ensures IsAscii(r)
  {
    WordsFromStartChars(s, 0);
    WordStartsBound(s, 0);
    FirstChars(WordsFrom(s, 0))
  }

  /** Position `i` holds a non-whitespace character at the start of `s` or
      right after whitespace: the first character of a word. */
  predicate IsWordStart(s: string, i: int) {
    0 <= i < |s| && !IsWhitespace(s[i]) && (i == 0 || IsWhitespace(s[i - 1]))
  }

  /** The characters of `s` from position `i` on that start a word, in order:
      a character-by-character reference for `initials`. */
  function WordStartsFrom(s: string, i: nat): (r: string)
    decreases |s| - i
  {
    if i >= |s| then []
    else (if IsWordStart(s, i) then [s[i]] else []) + WordStartsFrom(s, i + 1)
  }

  /** Each word start is a non-whitespace character of `s`, and there are
      no more of them than positions. */
  lemma {:induction false} WordStartsBound(s: string, i: nat)
    requires i <= |s|
    ensures |WordStartsFrom(s, i)| <= |s| - i
    ensures forall k :: 0 <= k < |WordStartsFrom(s, i)| ==>
              !IsWhitespace(WordStartsFrom(s, i)[k]) && WordStartsFrom(s, i)[k] in s
    decreases |s| - i
  {
    if i < |s| {
      WordStartsBound(s, i + 1);
    }
  }

  lemma {:induction false} NoWordStartInsideWord(s: string, i: nat, j: nat)
    requires i < j <= |s|
    requires forall k :: i <= k < j ==> !IsWhitespace(s[k])
    ensures WordStartsFrom(s, i + 1) == WordStartsFrom(s, j)
    decreases j - i
  {
    if i + 1 < j {
      assert !IsWordStart(s, i + 1);
      NoWordStartInsideWord(s, i + 1, j);
    }
  }

  lemma {:induction false} WordsFromStartChars(s: string, i: nat)
    requires i <= |s|
    requires i == 0 || i == |s| || IsWhitespace(s[i - 1]) || IsWhitespace(s[i])
    ensures FirstChars(WordsFrom(s, i)) == WordStartsFrom(s, i)
    decreases |s| - i
  {
    if i == |s| {
    } else if IsWhitespace(s[i]) {
      assert !IsWordStart(s, i);
      WordsFromStartChars(s, i + 1);
    } else {
      var j := WordEnd(s, i);
      var rest := WordsFrom(s, j);
      assert WordsFrom(s, i) == [s[i..j]] + rest;
      assert IsWordStart(s, i);
      assert WordStartsFrom(s, i) == [s[i]] + WordStartsFrom(s, i + 1);
      NoWordStartInsideWord(s, i, j);
      WordsFromStartChars(s, j);
      assert FirstChars([s[i..j]] + rest) == [s[i]] + FirstChars(rest);
    }
  }

  /** `initials` keeps exactly the characters that start a word: one per
      maximal whitespace-free run, namely its first character. */
  lemma InitialsAreWordStarts(s: string)
    requires IsAscii(s)
    ensures Initials(s) == WordStartsFrom(s, 0)
  {
    WordsFromStartChars(s, 0);
  }

  /** The reference behaviour of `untitle`: the first character of every
      word lower-cased, every other character unchanged. */
  function Untitled(s: string): (r: string)
    ensures |r| == |s|
  {
    seq(|s|, i requires 0 <= i < |s| => if IsWordStart(s, i) then ToLower(s[i]) else s[i])
  }

  /** `untitle s`: walks `s` with the flag `ws` (the previous character was
      whitespace, or there is none) and lower-cases a non-whitespace
      character when the flag is set. */
  method Untitle(s: string) returns (r: string)
    requires IsAscii(s)
    ensures r == Untitled(s)
  {
    var ws := true;
    r := [];
    for i := 0 to |s|
      invariant |r| == i
      invariant ws <==> (i == 0 || IsWhitespace(s[i - 1]))
      invariant forall k :: 0 <= k < i ==> r[k] == Untitled(s)[k]
    {
      var c := s[i];
      if IsWhitespace(c) {
        ws := true;
        r := r + [c];
      } else if ws {
        ws := false;
        r := r + [ToLower(c)];
      } else {
        r := r + [c];
      }
    }
  }

  /** Lower-casing a character keeps it whitespace or not, so the word
      starts of `Untitled(s)` are those of `s`. */
  lemma UntitledWordStartAt(s: string, i: int)
    ensures IsWordStart(Untitled(s), i) <==> IsWordStart(s, i)
  {
    var u := Untitled(s);
    if 0 <= i < |s| {
      assert IsWhitespace(u[i]) <==> IsWhitespace(s[i]);
      if i > 0 {
        assert IsWhitespace(u[i - 1]) <==> IsWhitespace(s[i - 1]);
      }
    }
  }

  lemma UntitledSameWordStarts(s: string)
    ensures forall i :: IsWordStart(Untitled(s), i) <==> IsWordStart(s, i)
  {
    forall i
      ensures IsWordStart(Untitled(s), i) <==> IsWordStart(s, i)
    {
      UntitledWordStartAt(s, i);
    }
  }

  lemma UntitledKeepsAscii(s: string)
    requires IsAscii(s)
    ensures IsAscii(Untitled(s))
  {
  }

  /** Removing title case twice is removing it once. */
  lemma UntitledIdempotent(s: string)
    ensures Untitled(Untitled(s)) == Untitled(s)
  {
    var u := Untitled(s);
    UntitledSameWordStarts(s);
    forall i | 0 <= i < |s|
      ensures Untitled(u)[i] == u[i]
    {
      if IsWordStart(s, i) {
        ToLowerIdempotent(s[i]);
      }
    }
  }

  /** The lower-case version of every character of `t`. */
  function LowerAll(t: string): (r: string)
    ensures |r| == |t|
  {
    seq(|t|, k requires 0 <= k < |t| => ToLower(t[k]))
  }

  lemma {:induction false} WordStartsOfUntitled(s: string, i: nat)
    ensures WordStartsFrom(Untitled(s), i) == LowerAll(WordStartsFrom(s, i))
    decreases |s| - i
  {
    if i < |s| {
      UntitledWordStartAt(s, i);
      WordStartsOfUntitled(s, i + 1);
      var head := if IsWordStart(s, i) then [s[i]] else [];
      LowerAllAppend(head, WordStartsFrom(s, i + 1));
    }
  }

  lemma LowerAllAppend(a: string, b: string)
    ensures LowerAll(a + b) == LowerAll(a) + LowerAll(b)
  {
  }

  /** The initials of an untitled string are the lower-cased initials. */
  lemma InitialsOfUntitled(s: string)
    requires IsAscii(s)
    ensures IsAscii(Untitled(s)) && Initials(Untitled(s)) == LowerAll(Initials(s))
  {
    UntitledKeepsAscii(s);
    InitialsAreWordStarts(s);
    InitialsAreWordStarts(Untitled(s));
    WordStartsOfUntitled(s, 0);
  }

  // ---------------------------------------------------------------------
  // Splitting, replacing and joining: `split`, `replace`, `join`
  // ---------------------------------------------------------------------

  /** `s.split(sep)` for a non-empty `sep`: the pieces between successive
      leftmost non-overlapping occurrences of `sep`. */
  function SplitPieces(sep: string, s: string): (parts: seq<string>)
    requires sep != []
    ensures |parts| >= 1
    decreases |s|
  {
    match Find(sep, s)
    case None => [s]
    case Some(i) => [s[..i]] + SplitPieces(sep, s[i + |sep|..])
  }

  /** One step of a split: the piece before the leftmost occurrence, then
      the pieces of what follows it. */
  lemma SplitStep(sep: string, s: string, i: nat)
    requires sep != [] && Find(sep, s) == Some(i)
    ensures i + |sep| <= |s|
    ensures SplitPieces(sep, s) == [s[..i]] + SplitPieces(sep, s[i + |sep|..])
  {
    assert OccursAt(sep, s, i);
  }

  /** No piece of a split contains the separator. */
  lemma {:induction false} SplitPiecesAvoidSep(sep: string, s: string)
    requires sep != []
    ensures forall k :: 0 <= k < |SplitPieces(sep, s)| ==> !Contains(sep, SplitPieces(sep, s)[k])
    decreases |s|
  {
    match Find(sep, s)
    case None =>
    case Some(i) =>
      var rest := s[i + |sep|..];
      SplitStep(sep, s, i);
      NoOccurrenceBefore(sep, s, i);
      SplitPiecesAvoidSep(sep, rest);
  }

  lemma NoOccurrenceBefore(sep: string, s: string, i: nat)
    requires sep != [] && Find(sep, s) == Some(i)
    ensures !Contains(sep, s[..i])
  {
    forall j | OccursAt(sep, s[..i], j)
      ensures false
    {
      assert s[..i][j..j + |sep|] == s[j..j + |sep|];
      assert OccursAt(sep, s, j);
    }
  }

  /** `itertools::join(parts, sep)`: the parts with `sep` between neighbours. */
  function JoinStrings(parts: seq<string>, sep: string): (r: string)
    ensures parts == [] ==> r == []
    ensures |parts| == 1 ==> r == parts[0]
    decreases |parts|
  {
    if |parts| == 0 then []
    else if |parts| == 1 then parts[0]
    else parts[0] + sep + JoinStrings(parts[1..], sep)
  }

  /** Joining the pieces of a split with the same separator gives back the input. */
  lemma {:induction false} JoinSplitPieces(sep: string, s: string)
    requires sep != []
    ensures JoinStrings(SplitPieces(sep, s), sep) == s
    decreases |s|
  {
    match Find(sep, s)
    case None =>
    case Some(i) =>
      var rest := s[i + |sep|..];
      SplitStep(sep, s, i);
      JoinSplitPieces(sep, rest);
      JoinStep(s[..i], SplitPieces(sep, rest), sep);
      OccurrenceSplits(sep, s, i);
  }

  /** Joining a head part onto at least one more part puts `sep` between them. */
  lemma JoinStep(head: string, tail: seq<string>, sep: string)
    requires |tail| >= 1
    ensures JoinStrings([head] + tail, sep) == head + sep + JoinStrings(tail, sep)
  {
    assert ([head] + tail)[1..] == tail;
  }

  /** The leftmost occurrence cuts `s` into the text before it, `sep` and the rest. */
  lemma OccurrenceSplits(sep: string, s: string, i: nat)
    requires Find(sep, s) == Some(i)
    ensures s == s[..i] + sep + s[i + |sep|..]
  {
    assert OccursAt(sep, s, i);
    assert s == s[..i] + s[i..i + |sep|] + s[i + |sep|..];
  }

  /** Number of non-overlapping occurrences of `p` in `s` at or after `i`,
      counted by a left-to-right scan that skips past each occurrence it meets. */
  function OccurrencesFrom(p: string, s: string, i: nat): nat
    requires p != [] && i <= |s|
    decreases |s| - i
  {
    if i + |p| > |s| then 0
    else if p <= s[i..] then 1 + OccurrencesFrom(p, s, i + |p|)
    else OccurrencesFrom(p, s, i + 1)
  }

  function Occurrences(p: string, s: string): nat
    requires p != []
  {
    OccurrencesFrom(p, s, 0)
  }

  /** The counted occurrences do not overlap: together they fit in what is scanned. */
  lemma {:induction false} OccurrencesFit(p: string, s: string, i: nat)
    requires p != [] && i <= |s|
    ensures OccurrencesFrom(p, s, i) * |p| <= |s| - i
    decreases |s| - i
  {
    if i + |p| <= |s| {
      if p <= s[i..] {
        OccurrencesFit(p, s, i + |p|);
        MulStep(OccurrencesFrom(p, s, i + |p|), |p|);
      } else {
        OccurrencesFit(p, s, i + 1);
      }
    }
  }

  /** The scan from `i` counts the leftmost occurrence at or after `i`, then
      goes on after it. */
  lemma {:induction false} OccurrencesFromFindFrom(p: string, s: string, i: nat)
    requires p != [] && i <= |s|
    ensures FindFrom(p, s, i).None? ==> OccurrencesFrom(p, s, i) == 0
    ensures FindFrom(p, s, i).Some? ==>
      OccurrencesFrom(p, s, i) == 1 + OccurrencesFrom(p, s, FindFrom(p, s, i).value + |p|)
    decreases |s| - i
  {
    if i + |p| <= |s| {
      PrefixAt(p, s, i);
      if !(p <= s[i..]) {
        OccurrencesFromFindFrom(p, s, i + 1);
      }
    }
  }

  /** `p` is a prefix of `s[i..]` exactly when it is the slice of `s` at `i`. */
  lemma PrefixAt(p: string, s: string, i: nat)
    requires i + |p| <= |s|
    ensures p <= s[i..] <==> s[i..i + |p|] == p
  {
    assert s[i..][..|p|] == s[i..i + |p|];
  }

  /** Counting from `j` in `s` is counting from 0 in `s[j..]`. */
  lemma {:induction false} OccurrencesShift(p: string, s: string, j: nat, i: nat)
    requires p != [] && j + i <= |s|
    ensures OccurrencesFrom(p, s, j + i) == OccurrencesFrom(p, s[j..], i)
    decreases |s| - j - i
  {
    if j + i + |p| <= |s| {
      assert s[j..][i..] == s[j + i..];
      if p <= s[j + i..] {
        OccurrencesShift(p, s, j, i + |p|);
      } else {
        OccurrencesShift(p, s, j, i + 1);
      }
    }
  }

  lemma OccurrencesFromFind(p: string, s: string)
    requires p != []
    ensures Find(p, s).None? ==> Occurrences(p, s) == 0
    ensures Find(p, s).Some? ==> Occurrences(p, s) == 1 + Occurrences(p, s[Find(p, s).value + |p|..])
  {
    OccurrencesFromFindFrom(p, s, 0);
    match FindFrom(p, s, 0)
    case None =>
    case Some(i) =>
      OccurrencesShift(p, s, i + |p|, 0);
  }

  /** `split` yields one piece more than there are occurrences of `sep`. */
  lemma {:induction false} SplitPiecesCount(sep: string, s: string)
    requires sep != []
    ensures |SplitPieces(sep, s)| == Occurrences(sep, s) + 1
    decreases |s|
  {
    match Find(sep, s)
    case None =>
      OccurrencesFromFind(sep, s);
    case Some(i) =>
      var rest := s[i + |sep|..];
      OccurrencesFromFind(sep, s);
      SplitStep(sep, s, i);
      SplitPiecesCount(sep, rest);
  }

  /** `replace old new s`, i.e. `s.replace(old, new)` for a non-empty `old`:
      every leftmost non-overlapping occurrence of `old` replaced by `new`. */
  function Replace(oldStr: string, newStr: string, s: string): (r: string)
    requires oldStr != []
    decreases |s|
  {
    match Find(oldStr, s)
    case None => s
    case Some(i) => s[..i] + newStr + Replace(oldStr, newStr, s[i + |oldStr|..])
  }

  /** A string in which `oldStr` does not occur is left as it is. */
  lemma ReplaceWithoutOccurrence(oldStr: string, newStr: string, s: string)
    requires oldStr != [] && !Contains(oldStr, s)
    ensures Replace(oldStr, newStr, s) == s
  {
  }

  /** One step of a replacement: the text before the leftmost occurrence,
      `newStr`, then the replacement in what follows the occurrence. */
  lemma ReplaceStep(oldStr: string, newStr: string, s: string, i: nat)
    requires oldStr != [] && Find(oldStr, s) == Some(i)
    ensures i + |oldStr| <= |s|
    ensures Replace(oldStr, newStr, s) == s[..i] + newStr + Replace(oldStr, newStr, s[i + |oldStr|..])
  {
    assert OccursAt(oldStr, s, i);
  }

  /** Replacing is splitting on `oldStr` and joining with `newStr`. */
  lemma {:induction false} ReplaceIsJoinOfSplit(oldStr: string, newStr: string, s: string)
    requires oldStr != []
    ensures Replace(oldStr, newStr, s) == JoinStrings(SplitPieces(oldStr, s), newStr)
    decreases |s|
  {
    match Find(oldStr, s)
    case None =>
    case Some(i) =>
      var rest := s[i + |oldStr|..];
      ReplaceStep(oldStr, newStr, s, i);
      SplitStep(oldStr, s, i);
      ReplaceIsJoinOfSplit(oldStr, newStr, rest);
      JoinStep(s[..i], SplitPieces(oldStr, rest), newStr);
  }

  /** Replacing a pattern by itself changes nothing. */
  lemma ReplaceWithItself(oldStr: string, s: string)
    requires oldStr != []
    ensures Replace(oldStr, oldStr, s) == s
  {
    ReplaceIsJoinOfSplit(oldStr, oldStr, s);
    JoinSplitPieces(oldStr, s);
  }

  /** Each replacement changes the length by `|newStr| - |oldStr|`. */
  lemma {:induction false} ReplaceLength(oldStr: string, newStr: string, s: string)
    requires oldStr != []
    ensures |Replace(oldStr, newStr, s)| == |s| + Occurrences(oldStr, s) * (|newStr| - |oldStr|)
    decreases |s|
  {
    OccurrencesFromFind(oldStr, s);
    var f := Find(oldStr, s);
    if f.Some? {
      var i := f.value;
      var rest := s[i + |oldStr|..];
      ReplaceStep(oldStr, newStr, s, i);
      ReplaceLength(oldStr, newStr, rest);
      MulStep(Occurrences(oldStr, rest), |newStr| - |oldStr|);
    }
  }

  lemma MulStep(n: int, d: int)
    ensures (1 + n) * d == d + n * d
  {
  }

  /** The decimal digits of `n`, as `format!("{}", n)` writes them. */
  function Decimal(n: nat): (r: string)
    ensures |r| >= 1
    ensures n >= 10 ==> |r| >= 2
    ensures forall k :: 0 <= k < |r| ==> '0' <= r[k] <= '9'
  {
    if n < 10 then [DigitChar(n)] else Decimal(n / 10) + [DigitChar(n % 10)]
  }

  function DigitChar(d: nat): (c: char)
    requires d < 10
    ensures '0' <= c <= '9' && c as int - '0' as int == d
  {
    ('0' as int + d) as char
  }

  lemma {:induction false} DecimalInjective(a: nat, b: nat)
    requires Decimal(a) == Decimal(b)
    ensures a == b
    decreases a
  {
    if a >= 10 && b >= 10 {
      var da, db := Decimal(a / 10), Decimal(b / 10);
      assert Decimal(a)[..|da|] == da;
      assert Decimal(b)[..|db|] == db;
      assert |da| == |db|;
      DecimalInjective(a / 10, b / 10);
      assert Decimal(a)[|da|] == DigitChar(a % 10);
      assert Decimal(b)[|db|] == DigitChar(b % 10);
    } else if a < 10 && b < 10 {
      assert Decimal(a)[0] == DigitChar(a);
    }
  }

  /** The number that a string of decimal digits stands for, most
      significant digit first. */
  function DigitsValue(d: string): nat
    requires forall k :: 0 <= k < |d| ==> '0' <= d[k] <= '9'
    decreases |d|
  {
    if d == [] then 0
    else 10 * DigitsValue(d[..|d| - 1]) + (d[|d| - 1] as int - '0' as int)
  }

  /** `Decimal(n)` reads back as `n`, and has no leading zero unless `n` is 0. */
  lemma {:induction false} DecimalValue(n: nat)
    ensures DigitsValue(Decimal(n)) == n
    ensures Decimal(n)[0] == '0' ==> n == 0
    decreases n
  {
    if n >= 10 {
      DecimalValue(n / 10);
      var d := Decimal(n);
      assert d[..|d| - 1] == Decimal(n / 10);
      assert d[0] == Decimal(n / 10)[0];
    }
  }

  /** The map key of the `i`-th piece of a split: `format!("_{}", i)`. */
  function Key(i: nat): (key: string)
    ensures |key| >= 2 && key[0] == '_'
  {
    "_" + Decimal(i)
  }

  /** The digits of a key, after its underscore, read back as the index. */
  lemma KeyDigits(i: nat)
    ensures Key(i)[1..] == Decimal(i)
    ensures DigitsValue(Key(i)[1..]) == i
  {
    assert Key(i)[1..] == Decimal(i);
    DecimalValue(i);
  }

  lemma KeyInjective(i: nat, j: nat)
    ensures Key(i) == Key(j) ==> i == j
  {
    if Key(i) == Key(j) {
      assert Key(i)[1..] == Decimal(i);
      assert Key(j)[1..] == Decimal(j);
      DecimalInjective(i, j);
    }
  }

  /** `split sep orig`: the pieces of `orig` in a map keyed `_0`, `_1`, ...
      in split order. */
  function Split(sep: string, orig: string): (m: map<string, string>)
    requires sep != []
    ensures forall i :: 0 <= i < |SplitPieces(sep, orig)| ==>
              Key(i) in m && m[Key(i)] == SplitPieces(sep, orig)[i]
    ensures forall key :: key in m ==> exists i :: 0 <= i < |SplitPieces(sep, orig)| && key == Key(i)
  {
    var parts := SplitPieces(sep, orig);
    assert forall i: nat, j: nat :: Key(i) == Key(j) ==> i == j by {
      forall i: nat, j: nat ensures Key(i) == Key(j) ==> i == j { KeyInjective(i, j); }
    }
    map i | 0 <= i < |parts| :: Key(i) := parts[i]
  }

  /** The keys `_0` to `_{n-1}` are `n` distinct keys. */
  lemma {:induction false} KeyRangeSize(n: nat)
    ensures |set i | 0 <= i < n :: Key(i)| == n
  {
    if n > 0 {
      KeyRangeSize(n - 1);
      var below := set i | 0 <= i < n - 1 :: Key(i);
      assert (set i | 0 <= i < n :: Key(i)) == below + {Key(n - 1)};
      if Key(n - 1) in below {
        var i :| 0 <= i < n - 1 && Key(i) == Key(n - 1);
        KeyInjective(i, n - 1);
      }
    }
  }

  /** The values of `m` read in key order `_0`, ..., `_{n-1}`. */
  function ValuesInKeyOrder(m: map<string, string>, n: nat): (vals: seq<string>)
    requires forall i :: 0 <= i < n ==> Key(i) in m
    ensures |vals| == n
  {
    seq(n, i requires 0 <= i < n => m[Key(i)])
  }

  /** `split` has exactly one entry per piece, one more than there are
      occurrences of `sep`, and joining its values in key order with `sep`
      rebuilds `orig`. */
  lemma SplitJoinRoundTrip(sep: string, orig: string)
    requires sep != []
    ensures |Split(sep, orig)| == |SplitPieces(sep, orig)| == Occurrences(sep, orig) + 1
    ensures JoinStrings(ValuesInKeyOrder(Split(sep, orig), |Split(sep, orig)|), sep) == orig
  {
    var parts := SplitPieces(sep, orig);
    var m := Split(sep, orig);
    assert m.Keys == set i | 0 <= i < |parts| :: Key(i);
    KeyRangeSize(|parts|);
    SplitPiecesCount(sep, orig);
    assert ValuesInKeyOrder(m, |m|) == parts;
    JoinSplitPieces(sep, orig);
  }

  // ---------------------------------------------------------------------
  // The hand-written argument adapter of `join`
  // ---------------------------------------------------------------------

  const ErrArity: string := "two arguments required"
  const ErrDowncast: string := "unable to downcast"
  const ErrConvert: string := "unable to convert from Value"
  const ErrNotArray: string := "second argument must be of type Array"

  /** `join` on the engine's opaque arguments: `join SEP LIST`. The first
      argument must downcast to a `Value` that converts to a string, the
      second must downcast to an `Array`; the checks run in that order and
      each failure has its own message. On success the elements, rendered
      by `display` (`Value::to_string`, which gives a string value's own
      text), are joined with the separator. */
  function Join(args: seq<Arg>, display: Value -> string): (r: Result<Value, string>)
    requires forall t :: display(Str(t)) == t
    ensures |args| != 2 ==> r == Err(ErrArity)
    ensures |args| == 2 && args[0].Foreign? ==> r == Err(ErrDowncast)
    ensures |args| == 2 && args[0].Boxed? && !args[0].value.Str? ==> r == Err(ErrConvert)
    ensures |args| == 2 && args[0].Boxed? && args[0].value.Str? && args[1].Foreign? ==> r == Err(ErrDowncast)
    ensures |args| == 2 && args[0].Boxed? && args[0].value.Str? && args[1].Boxed? && !args[1].value.Array? ==>
              r == Err(ErrNotArray)
    ensures r.Ok? <==> |args| == 2 && args[0].Boxed? && args[0].value.Str? && args[1].Boxed? && args[1].value.Array?
    ensures r.Ok? ==> r.value.Str?
    ensures r.Ok? && AllStrings(args[1].value.items) ==>
              r.value == Str(JoinStrings(Texts(args[1].value.items), args[0].value.s))
  {
    if |args| != 2 then Err(ErrArity)
    else if args[0].Foreign? then Err(ErrDowncast)
    else
      match StringFromValue(args[0].value)
      case None => Err(ErrConvert)
      case Some(sep) =>
        if args[1].Foreign? then Err(ErrDowncast)
        else
          match args[1].value
          case Array(list) =>
            var shown := seq(|list|, k requires 0 <= k < |list| => display(list[k]));
            assert AllStrings(list) ==> shown == Texts(list);
            Ok(Str(JoinStrings(shown, sep)))
          case _ => Err(ErrNotArray)
  }

  predicate AllStrings(items: seq<Value>) {
    forall k :: 0 <= k < |items| ==> items[k].Str?
  }

  /** The texts of a list of string values. */
  function Texts(items: seq<Value>): (texts: seq<string>)
    requires AllStrings(items)
    ensures |texts| == |items| && forall k :: 0 <= k < |items| ==> items[k] == Str(texts[k])
  {
    seq(|items|, k requires 0 <= k < |items| => items[k].s)
  }

  /** A list of strings as an array of string values. */
  function StrValues(texts: seq<string>): (items: seq<Value>)
    ensures AllStrings(items) && Texts(items) == texts
  {
    var items := seq(|texts|, k requires 0 <= k < |texts| => Str(texts[k]));
    assert Texts(items) == texts;
    items
  }

  /** Joining the values of `split sep orig`, taken in key order, through
      the `join` adapter gives back `orig`. */
  lemma SplitThenJoin(sep: string, orig: string, display: Value -> string)
    requires sep != []
    requires forall t :: display(Str(t)) == t
    ensures var vals := ValuesInKeyOrder(Split(sep, orig), |SplitPieces(sep, orig)|);
            Join([Boxed(Str(sep)), Boxed(Array(StrValues(vals)))], display) == Ok(Str(orig))
  {
    SplitJoinRoundTrip(sep, orig);
  }
}
