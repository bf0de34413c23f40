/** Strings as JavaScript sees them: the character classes its regular
    expressions use, `trim`, ASCII `toLowerCase`, `includes`, and the
    leftmost-match searches that the controllers' regular expressions reduce to. */
module Text {
  import opened Wrappers

  /** JavaScript's WhiteSpace and LineTerminator code points: what `\s`
      matches and what `String.prototype.trim` removes. */
  predicate IsJsSpace(c: char) {
    || c == '\t' || c == '\n' || c == '\U{000B}' || c == '\U{000C}' || c == '\r' || c == ' '
    || c == '\U{00A0}' || c == '\U{1680}' || ('\U{2000}' <= c <= '\U{200A}')
    || c == '\U{2028}' || c == '\U{2029}' || c == '\U{202F}' || c == '\U{205F}'
    || c == '\U{3000}' || c == '\U{FEFF}'
  }

  /** The characters a regular-expression `.` does not match. */
  predicate IsLineTerminator(c: char) {
    c == '\n' || c == '\r' || c == '\U{2028}' || c == '\U{2029}'
  }

  /** `\d` */
  predicate IsDigit(c: char) { '0' <= c <= '9' }

  /** `\w`, the characters that decide where `\b` falls. */
  predicate IsWordChar(c: char) {
    ('a' <= c <= 'z') || ('A' <= c <= 'Z') || IsDigit(c) || c == '_'
  }

  predicate IsUpperAscii(c: char) { 'A' <= c <= 'Z' }

  predicate AllSpace(s: string) {
    forall i :: 0 <= i < |s| ==> IsJsSpace(s[i])
  }

  /** Lower-casing of one character, restricted to ASCII letters. */
  function LowerAscii(c: char): (r: char)
    ensures !IsUpperAscii(r)
    ensures IsJsSpace(r) <==> IsJsSpace(c)
    ensures !IsUpperAscii(c) ==> r == c
  {
    if IsUpperAscii(c) then (c as int + 32) as char else c
  }

  /** `toLowerCase`, restricted to ASCII letters. */
  function ToLowerAscii(s: string): (r: string)
    ensures |r| == |s|
    ensures forall i :: 0 <= i < |s| ==> r[i] == LowerAscii(s[i])
  {
    seq(|s|, i requires 0 <= i < |s| => LowerAscii(s[i]))
  }

  /** Lower-casing twice is lower-casing once. */
  lemma ToLowerIdempotent(s: string)
    ensures ToLowerAscii(ToLowerAscii(s)) == ToLowerAscii(s)
  {
  }

  /** Lower-casing commutes with slicing. */
  lemma ToLowerSlice(s: string, a: nat, b: nat)
    requires a <= b <= |s|
    ensures ToLowerAscii(s[a..b]) == ToLowerAscii(s)[a..b]
  {
  }

  // ---------------------------------------------------------------- trim

  /** The end of the run of white space starting at `i`. */
  function SpaceRunEnd(s: string, i: nat): (r: nat)
    requires i <= |s|
    decreases |s| - i
    ensures i <= r <= |s|
    ensures forall k :: i <= k < r ==> IsJsSpace(s[k])
    ensures r < |s| ==> !IsJsSpace(s[r])
  {
    if i < |s| && IsJsSpace(s[i]) then SpaceRunEnd(s, i + 1) else i
  }

  /** The start of the run of white space that ends just before `j`. */
  function SpaceRunStart(s: string, j: nat): (r: nat)
    requires j <= |s|
    ensures r <= j
    ensures forall k :: r <= k < j ==> IsJsSpace(s[k])
    ensures r > 0 ==> !IsJsSpace(s[r - 1])
  {
    if j > 0 && IsJsSpace(s[j - 1]) then SpaceRunStart(s, j - 1) else j
  }

  /** `String.prototype.trim`: `s` without its leading and trailing white space. */
  function Trim(s: string): (r: string)
    ensures r != [] ==> !IsJsSpace(r[0]) && !IsJsSpace(r[|r| - 1])
    ensures r == [] <==> AllSpace(s)
  {
    var a := SpaceRunEnd(s, 0);
    var b := SpaceRunStart(s, |s|);
    if b <= a then [] else s[a..b]
  }

  /** The white-space run from `i` ends at `n` when `s[i..n]` is white space
      and `s[n]` is not. */
  lemma SpaceRunEndIs(s: string, i: nat, n: nat)
    requires i <= n <= |s|
    requires forall k :: i <= k < n ==> IsJsSpace(s[k])
    requires n < |s| ==> !IsJsSpace(s[n])
    ensures SpaceRunEnd(s, i) == n
  {
  }

  /** The white-space run ending before `j` starts at `n` when `s[n..j]` is
      white space and `s[n - 1]` is not. */
  lemma SpaceRunStartIs(s: string, j: nat, n: nat)
    requires n <= j <= |s|
    requires forall k :: n <= k < j ==> IsJsSpace(s[k])
    requires n > 0 ==> !IsJsSpace(s[n - 1])
    ensures SpaceRunStart(s, j) == n
  {
  }

  /** `trim` cuts exactly at the first and last characters that are not white space. */
  lemma TrimBetween(s: string, a: nat, b: nat)
    requires a < b <= |s|
    requires forall k :: 0 <= k < a ==> IsJsSpace(s[k])
    requires forall k :: b <= k < |s| ==> IsJsSpace(s[k])
    requires !IsJsSpace(s[a]) && !IsJsSpace(s[b - 1])
    ensures Trim(s) == s[a..b]
  {
    SpaceRunEndIs(s, 0, a);
    SpaceRunStartIs(s, |s|, b);
  }

  /** A slice of the middle operand of a concatenation. */
  lemma SliceMiddle(pre: string, s: string, post: string, x: nat, y: nat)
    requires x <= y <= |s|
    ensures (pre + s + post)[|pre| + x..|pre| + y] == s[x..y]
  {
    var t := pre + s + post;
    assert forall k :: 0 <= k < y - x ==> t[|pre| + x..|pre| + y][k] == s[x..y][k];
  }

  /** Padding an all-white-space string leaves it all white space. */
  lemma PaddedAllSpace(pre: string, s: string, post: string)
    requires AllSpace(pre) && AllSpace(s) && AllSpace(post)
    ensures AllSpace(pre + s + post)
  {
    var t := pre + s + post;
    forall k | 0 <= k < |t| ensures IsJsSpace(t[k]) {
      if k < |pre| { assert t[k] == pre[k]; }
      else if k < |pre| + |s| { assert t[k] == s[k - |pre|]; }
      else { assert t[k] == post[k - |pre| - |s|]; }
    }
  }

  /** The first and last non-white-space characters of `s`, seen inside the
      padded string. */
  lemma PaddedBounds(pre: string, s: string, post: string, a: nat, b: nat)
    requires AllSpace(pre) && AllSpace(post)
    requires a < b <= |s|
    requires forall k :: 0 <= k < a ==> IsJsSpace(s[k])
    requires forall k :: b <= k < |s| ==> IsJsSpace(s[k])
    requires !IsJsSpace(s[a]) && !IsJsSpace(s[b - 1])
    ensures Trim(pre + s + post) == (pre + s + post)[|pre| + a..|pre| + b]
  {
    var t := pre + s + post;
    forall k | 0 <= k < |pre| + a ensures IsJsSpace(t[k]) {
      if k < |pre| { assert t[k] == pre[k]; } else { assert t[k] == s[k - |pre|]; }
    }
    forall k | |pre| + b <= k < |t| ensures IsJsSpace(t[k]) {
      if k < |pre| + |s| { assert t[k] == s[k - |pre|]; } else { assert t[k] == post[k - |pre| - |s|]; }
    }
    assert t[|pre| + a] == s[a] && t[|pre| + b - 1] == s[b - 1];
    TrimBetween(t, |pre| + a, |pre| + b);
  }

  /** Leading and trailing white space never changes what `trim` returns. */
  lemma TrimIgnoresPadding(pre: string, s: string, post: string)
    requires AllSpace(pre) && AllSpace(post)
    ensures Trim(pre + s + post) == Trim(s)
  {
    if AllSpace(s) {
      PaddedAllSpace(pre, s, post);
    } else {
      var a := SpaceRunEnd(s, 0);
      var b := SpaceRunStart(s, |s|);
      TrimBetween(s, a, b);
      PaddedBounds(pre, s, post, a, b);
      SliceMiddle(pre, s, post, a, b);
    }
  }

  /** `trim` and ASCII lower-casing commute. */
  lemma TrimLower(s: string)
    ensures Trim(ToLowerAscii(s)) == ToLowerAscii(Trim(s))
  {
    var l := ToLowerAscii(s);
    var a := SpaceRunEnd(s, 0);
    var b := SpaceRunStart(s, |s|);
    SpaceRunEndIs(l, 0, a);
    SpaceRunStartIs(l, |l|, b);
    if a < b {
      ToLowerSlice(s, a, b);
    }
  }

  // ------------------------------------------------------------- searching

  /** `p` occurs in `s` at index `i`. */
  predicate PrefixAt(s: string, i: nat, p: string) {
    i + |p| <= |s| && s[i..i + |p|] == p
  }

  /** `p` occurs in `s` at index `i`, ignoring ASCII case (a regular
      expression's `i` flag restricted to ASCII). */
  predicate FoldPrefixAt(s: string, i: nat, p: string) {
    i + |p| <= |s| && ToLowerAscii(s[i..i + |p|]) == ToLowerAscii(p)
  }

  /** Occurrences seen in a suffix are occurrences in the whole text. */
  lemma PrefixAtShift(s: string, m: nat, j: nat, p: string)
    requires m <= |s|
    ensures PrefixAt(s, m + j, p) <==> PrefixAt(s[m..], j, p)
    ensures FoldPrefixAt(s, m + j, p) <==> FoldPrefixAt(s[m..], j, p)
  {
    if m + j + |p| <= |s| {
      assert s[m..][j..j + |p|] == s[m + j..m + j + |p|];
    }
  }

  /** The first index at or after `from` holding `c` (`indexOf(c, from)`). */
  function NextIndexOf(s: string, c: char, from: nat): (r: Option<nat>)
    decreases |s| - from
    ensures r.Some? ==> from <= r.value < |s| && s[r.value] == c
    ensures r.Some? ==> forall k :: from <= k < r.value ==> s[k] != c
    ensures r.None? ==> forall k :: from <= k < |s| ==> s[k] != c
  {
    if from >= |s| then None
    else if s[from] == c then Some(from)
    else NextIndexOf(s, c, from + 1)
  }

  /** The first index at or after `from` where `p` occurs (`indexOf(p, from)`). */
  function NextOccurrence(s: string, p: string, from: nat): (r: Option<nat>)
    decreases |s| - from
    ensures r.Some? ==> from <= r.value && PrefixAt(s, r.value, p)
    ensures r.Some? ==> forall k :: from <= k < r.value ==> !PrefixAt(s, k, p)
    ensures r.None? ==> forall k :: from <= k ==> !PrefixAt(s, k, p)
  {
    if from + |p| > |s| then None
    else if PrefixAt(s, from, p) then Some(from)
    else NextOccurrence(s, p, from + 1)
  }

  /** `NextOccurrence` finds `u` when `p` first occurs there from `from` on. */
  lemma NextOccurrenceIs(s: string, p: string, from: nat, u: nat)
    requires from <= u && PrefixAt(s, u, p)
    requires forall k :: from <= k < u ==> !PrefixAt(s, k, p)
    ensures NextOccurrence(s, p, from) == Some(u)
  {
    var r := NextOccurrence(s, p, from);
    assert r.Some?;
    assert !(r.value < u) && !(u < r.value);
  }

  /** `s.includes(p)` */
  function Includes(s: string, p: string): (r: bool)
    ensures r <==> exists k: nat :: PrefixAt(s, k, p)
  {
    NextOccurrence(s, p, 0).Some?
  }

  /** The end of the run of word characters starting at `i`. */
  function WordRunEnd(s: string, i: nat): (r: nat)
    requires i <= |s|
    decreases |s| - i
    ensures i <= r <= |s|
    ensures forall k :: i <= k < r ==> IsWordChar(s[k])
    ensures r < |s| ==> !IsWordChar(s[r])
  {
    if i < |s| && IsWordChar(s[i]) then WordRunEnd(s, i + 1) else i
  }

  /** `WordRunEnd` is the end of the word-character run. */
  lemma {:induction false} WordRunEndIs(s: string, i: nat, n: nat)
    requires i <= n <= |s|
    requires forall k :: i <= k < n ==> IsWordChar(s[k])
    requires n < |s| ==> !IsWordChar(s[n])
    ensures WordRunEnd(s, i) == n
    decreases n - i
  {
    if i < n {
      WordRunEndIs(s, i + 1, n);
    }
  }

  /** The end of the run of digits starting at `i`. */
  function DigitRunEnd(s: string, i: nat): (r: nat)
    requires i <= |s|
    decreases |s| - i
    ensures i <= r <= |s|
    ensures forall k :: i <= k < r ==> IsDigit(s[k])
    ensures r < |s| ==> !IsDigit(s[r])
  {
    if i < |s| && IsDigit(s[i]) then DigitRunEnd(s, i + 1) else i
  }

  /** `DigitRunEnd` is the end of the digit run. */
  lemma {:induction false} DigitRunEndIs(s: string, i: nat, n: nat)
    requires i <= n <= |s|
    requires forall k :: i <= k < n ==> IsDigit(s[k])
    requires n < |s| ==> !IsDigit(s[n])
    ensures DigitRunEnd(s, i) == n
    decreases n - i
  {
    if i < n {
      DigitRunEndIs(s, i + 1, n);
    }
  }

  /** A digit run reaches at least as far as the digits do. */
  lemma {:induction false} DigitRunCovers(s: string, i: nat, n: nat)
    requires i <= n <= |s|
    requires forall k :: i <= k < n ==> IsDigit(s[k])
    ensures DigitRunEnd(s, i) >= n
    decreases n - i
  {
    if i < n {
      DigitRunCovers(s, i + 1, n);
    }
  }

  // -------------------------------------------------------------- captures

  /** Where a match of `open([^close]+)close` that starts at `i` ends: the
      index of the closing character. The `[^close]+` run is greedy and cannot
      cross `close`, so the closing character is the first one after `open`,
      and at least one character must come before it. */
  function CaptureEnd(s: string, i: nat, open: string, close: char): (r: Option<nat>)
    ensures r.Some? ==> PrefixAt(s, i, open) && i + |open| < r.value < |s| && s[r.value] == close
    ensures r.Some? ==> forall k :: i + |open| <= k < r.value ==> s[k] != close
    ensures r.None? && PrefixAt(s, i, open) ==>
      forall j :: i + |open| < j < |s| && s[j] == close ==> exists k :: i + |open| <= k < j && s[k] == close
  {
    if PrefixAt(s, i, open) then
      match NextIndexOf(s, close, i + |open|)
      case Some(j) => if j > i + |open| then Some(j) else None
      case None => None
    else None
  }

  /** The leftmost index at or after `from` where a capture match starts. */
  function FirstCaptureFrom(s: string, open: string, close: char, from: nat): (r: Option<nat>)
    decreases |s| - from
    ensures r.Some? ==> from <= r.value < |s| && CaptureEnd(s, r.value, open, close).Some?
    ensures r.Some? ==> forall k :: from <= k < r.value ==> CaptureEnd(s, k, open, close).None?
    ensures r.None? ==> forall k :: from <= k ==> CaptureEnd(s, k, open, close).None?
  {
    if from >= |s| then None
    else if CaptureEnd(s, from, open, close).Some? then Some(from)
    else FirstCaptureFrom(s, open, close, from + 1)
  }

  /** The leftmost match of the capture is at `k` when no earlier index matches. */
  lemma {:induction false} FirstCaptureAt(s: string, open: string, close: char, from: nat, k: nat)
    requires from <= k && CaptureEnd(s, k, open, close).Some?
    requires forall j :: from <= j < k ==> CaptureEnd(s, j, open, close).None?
    ensures FirstCaptureFrom(s, open, close, from) == Some(k)
    decreases k - from
  {
    if from < k {
      FirstCaptureAt(s, open, close, from + 1, k);
    }
  }

  /** Group 1 of the first match of `open([^close]+)close` (`s.match(re)?.[1]`). */
  function Capture(s: string, open: string, close: char): (r: Option<string>)
    ensures r.Some? ==> r.value != [] && close !in r.value
    ensures r.Some? ==> exists i :: 0 <= i < |s| && CaptureEnd(s, i, open, close).Some? &&
                                    (forall j :: 0 <= j < i ==> CaptureEnd(s, j, open, close).None?) &&
                                    r.value == s[i + |open|..CaptureEnd(s, i, open, close).value]
    ensures r.None? <==> forall k :: CaptureEnd(s, k, open, close).None?
  {
    match FirstCaptureFrom(s, open, close, 0)
    case None => None
    case Some(i) =>
      var j := CaptureEnd(s, i, open, close).value;
      Some(s[i + |open|..j])
  }
}
