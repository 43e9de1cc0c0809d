/** The few operations of Rust's `str` that the stream reader relies on:
    `find`, `split(..).nth(..)`, `trim`, `trim_end_matches`, and the
    `char::is_whitespace` table that `trim` uses. Text is a sequence of
    Unicode scalar values; a `&str` slice is modelled by the characters it
    covers. The functions carry only their bounds; what they compute is
    stated by the lemma next to each. */
module Text {

  datatype Option<+T> = None | Some(value: T) {
    /** `Option::unwrap_or` */
    function GetOr(default: T): T {
      match this
      case Some(v) => v
      case None => default
    }
  }

  /** `char::is_whitespace`: the characters with the Unicode White_Space
      property (U+0009 to U+000D, U+0020, U+0085, U+00A0, U+1680, U+2000 to
      U+200A, U+2028, U+2029, U+202F, U+205F and U+3000). */
  predicate IsWhitespace(c: char) {
    ('\t' <= c <= '\r') || c == ' ' || c == '\U{0085}' || c == '\U{00A0}'
    || c == '\U{1680}' || ('\U{2000}' <= c <= '\U{200A}') || c == '\U{2028}'
    || c == '\U{2029}' || c == '\U{202F}' || c == '\U{205F}' || c == '\U{3000}'
  }

  // ---------------------------------------------------------------------
  // find
  // ---------------------------------------------------------------------

  /** `str::find(c)`: the index of the first occurrence of `c`, if any. */
  function Find(s: string, c: char): (r: Option<nat>)
    ensures r.Some? ==> r.value < |s| && s[r.value] == c
  {
    FindFrom(s, c, 0)
  }

  /** The first occurrence of `c` at or after position `i`. */
  function FindFrom(s: string, c: char, i: nat): (r: Option<nat>)
    requires i <= |s|
    ensures r.Some? ==> i <= r.value < |s| && s[r.value] == c
    decreases |s| - i
  {
    if i == |s| then None
    else if s[i] == c then Some(i)
    else FindFrom(s, c, i + 1)
  }

  /** `find` reports nothing exactly when `c` does not occur, and otherwise
      its first occurrence. */
  lemma FindFirst(s: string, c: char)
    ensures var r := Find(s, c);
      (r.None? <==> c !in s)
      && (r.Some? ==> forall k :: 0 <= k < r.value ==> s[k] != c)
  {
    FindFromFirst(s, c, 0);
  }

  lemma {:induction false} FindFromFirst(s: string, c: char, i: nat)
    requires i <= |s|
    ensures var r := FindFrom(s, c, i);
      (r.None? ==> forall k :: i <= k < |s| ==> s[k] != c)
      && (r.Some? ==> forall k :: i <= k < r.value ==> s[k] != c)
    decreases |s| - i
  {
    if i < |s| && s[i] != c {
      FindFromFirst(s, c, i + 1);
    }
  }

  /** An occurrence with none before it is the one `find` reports. */
  lemma FindAt(s: string, c: char, i: nat)
    requires i < |s| && s[i] == c
    requires forall k :: 0 <= k < i ==> s[k] != c
    ensures Find(s, c) == Some(i)
  {
    FindFirst(s, c);
    assert s[i] in s;
  }

  // ---------------------------------------------------------------------
  // split
  // ---------------------------------------------------------------------

  /** `str::split(sep)` collected into a sequence: the pieces between
      separators, in order. */
  function Split(s: string, sep: char): (pieces: seq<string>)
    ensures |pieces| >= 1
    decreases |s|
  {
    match Find(s, sep)
    case None => [s]
    case Some(i) => [s[..i]] + Split(s[i + 1..], sep)
  }

  /** The pieces with one separator between each two of them. */
  function Join(pieces: seq<string>, sep: char): string
    requires |pieces| >= 1
  {
    if |pieces| == 1 then pieces[0] else pieces[0] + [sep] + Join(pieces[1..], sep)
  }

  /** Number of occurrences of `c` in `s`. */
  function Count(s: string, c: char): nat {
    if s == [] then 0 else (if s[0] == c then 1 else 0) + Count(s[1..], c)
  }

  /** Splitting loses nothing: there is one more piece than separators, no
      piece holds a separator, and joining the pieces gives the text back. */
  lemma {:induction false} SplitJoin(s: string, sep: char)
    ensures var pieces := Split(s, sep);
      |pieces| == 1 + Count(s, sep)
      && (forall k :: 0 <= k < |pieces| ==> sep !in pieces[k])
      && Join(pieces, sep) == s
    decreases |s|
  {
    FindFirst(s, sep);
    match Find(s, sep)
    case None =>
      CountAbsent(s, sep);
    case Some(i) =>
      SplitJoin(s[i + 1..], sep);
      SplitStep(s, sep, i, Split(s[i + 1..], sep));
  }

  lemma SplitStep(s: string, sep: char, i: nat, tail: seq<string>)
    requires i < |s| && s[i] == sep && forall k :: 0 <= k < i ==> s[k] != sep
    requires |tail| == 1 + Count(s[i + 1..], sep) && Join(tail, sep) == s[i + 1..]
    requires forall k :: 0 <= k < |tail| ==> sep !in tail[k]
    ensures var pieces := [s[..i]] + tail;
      |pieces| == 1 + Count(s, sep)
      && (forall k :: 0 <= k < |pieces| ==> sep !in pieces[k])
      && Join(pieces, sep) == s
  {
    var pieces := [s[..i]] + tail;
    CountSplit(s, sep, i);
    assert pieces[1..] == tail;
    assert s == s[..i] + [sep] + s[i + 1..];
    forall k | 0 <= k < |pieces| ensures sep !in pieces[k] {
      if k > 0 {
        assert pieces[k] == tail[k - 1];
      }
    }
  }

  lemma {:induction false} CountAbsent(s: string, c: char)
    ensures Count(s, c) == 0 <==> c !in s
  {
    if s != [] {
      CountAbsent(s[1..], c);
      assert s == [s[0]] + s[1..];
    }
  }

  lemma {:induction false} CountAppend(a: string, b: string, c: char)
    ensures Count(a + b, c) == Count(a, c) + Count(b, c)
  {
    if a == [] {
      assert a + b == b;
    } else {
      assert (a + b)[1..] == a[1..] + b;
      CountAppend(a[1..], b, c);
    }
  }

  /** Cutting `s` at an occurrence of `c` that is the first one accounts for
      exactly one of its occurrences. */
  lemma CountSplit(s: string, c: char, i: nat)
    requires i < |s| && s[i] == c && forall k :: 0 <= k < i ==> s[k] != c
    ensures Count(s, c) == 1 + Count(s[i + 1..], c)
  {
    assert c !in s[..i] by {
      forall k | 0 <= k < i ensures s[..i][k] != c {
        assert s[..i][k] == s[k];
      }
    }
    assert s == s[..i] + ([c] + s[i + 1..]);
    CountAppend(s[..i], [c] + s[i + 1..], c);
    CountAbsent(s[..i], c);
    assert ([c] + s[i + 1..])[1..] == s[i + 1..];
  }

  /** `Iterator::nth`: the element at position `n`, if there is one. */
  function Nth<T>(xs: seq<T>, n: nat): (r: Option<T>)
    ensures r.Some? <==> n < |xs|
    ensures r.Some? ==> r.value == xs[n]
  {
    if n < |xs| then Some(xs[n]) else None
  }

  // ---------------------------------------------------------------------
  // trim
  // ---------------------------------------------------------------------

  /** A `&str` slice of a text `s`: the characters `s[lo..hi]`. Trimming
      only narrows a slice, so it is modelled on the bounds. */
  datatype Span = Span(lo: nat, hi: nat) {
    predicate Within(s: string) {
      lo <= hi <= |s|
    }
  }

  /** The characters a slice covers. */
  function Slice(s: string, sp: Span): (r: string)
    requires sp.Within(s)
    ensures |r| == sp.hi - sp.lo
  {
    s[sp.lo..sp.hi]
  }

  /** `str::trim_start_matches(p)`: drops the leading characters that
      satisfy `p`. */
  function TrimStartMatches(s: string, sp: Span, p: char -> bool): (r: Span)
    requires sp.Within(s)
    ensures sp.lo <= r.lo <= r.hi == sp.hi
    decreases sp.hi - sp.lo
  {
    if sp.lo < sp.hi && p(s[sp.lo]) then TrimStartMatches(s, Span(sp.lo + 1, sp.hi), p) else sp
  }

  /** `str::trim_end_matches(p)`: drops the trailing characters that
      satisfy `p`. */
  function TrimEndMatches(s: string, sp: Span, p: char -> bool): (r: Span)
    requires sp.Within(s)
    ensures sp.lo == r.lo <= r.hi <= sp.hi
    decreases sp.hi - sp.lo
  {
    if sp.lo < sp.hi && p(s[sp.hi - 1]) then TrimEndMatches(s, Span(sp.lo, sp.hi - 1), p) else sp
  }

  /** Every character dropped at the front satisfies `p`, and the first one
      kept does not. */
  lemma {:induction false} TrimStartDrops(s: string, sp: Span, p: char -> bool)
    requires sp.Within(s)
    ensures var r := TrimStartMatches(s, sp, p);
      (forall k :: sp.lo <= k < r.lo ==> p(s[k]))
      && (r.lo == r.hi || !p(s[r.lo]))
    decreases sp.hi - sp.lo
  {
    if sp.lo < sp.hi && p(s[sp.lo]) {
      TrimStartDrops(s, Span(sp.lo + 1, sp.hi), p);
    }
  }

  /** Every character dropped at the back satisfies `p`, and the last one
      kept does not. */
  lemma {:induction false} TrimEndDrops(s: string, sp: Span, p: char -> bool)
    requires sp.Within(s)
    ensures var r := TrimEndMatches(s, sp, p);
      (forall k :: r.hi <= k < sp.hi ==> p(s[k]))
      && (r.lo == r.hi || !p(s[r.hi - 1]))
    decreases sp.hi - sp.lo
  {
    if sp.lo < sp.hi && p(s[sp.hi - 1]) {
      TrimEndDrops(s, Span(sp.lo, sp.hi - 1), p);
    }
  }

  /** `str::trim`, which is `trim_matches(char::is_whitespace)`: trims the
      front, then the back. */
  function Trim(s: string, sp: Span): (r: Span)
    requires sp.Within(s)
    ensures sp.lo <= r.lo <= r.hi <= sp.hi
  {
    TrimEndMatches(s, TrimStartMatches(s, sp, IsWhitespace), IsWhitespace)
  }

  /** `trim` drops whitespace only, and keeps a slice that neither begins
      nor ends in whitespace. */
  lemma TrimDrops(s: string, sp: Span)
    requires sp.Within(s)
    ensures var r := Trim(s, sp);
      (forall k :: sp.lo <= k < r.lo ==> IsWhitespace(s[k]))
      && (forall k :: r.hi <= k < sp.hi ==> IsWhitespace(s[k]))
      && (r.lo == r.hi || (!IsWhitespace(s[r.lo]) && !IsWhitespace(s[r.hi - 1])))
  {
    var a := TrimStartMatches(s, sp, IsWhitespace);
    TrimStartDrops(s, sp, IsWhitespace);
    TrimEndDrops(s, a, IsWhitespace);
  }
}
