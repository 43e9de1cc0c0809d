/** The stream decoder: record framing on `%` and extraction of the value
    from one record (the body of the `while let` loop in the reader thread).
    As in `Text`, the functions carry only their bounds and the lemmas next
    to them state what they compute. */
module Decoder {
  import opened Text

  /** Ends a record on the wire. */
  const Delimiter: char := '%'
  /** Separates the label from the value inside a record. */
  const Separator: char := ':'

  predicate IsDelimiter(c: char) {
    c == Delimiter
  }

  /** What may surround a value once it is cut out of its record. */
  predicate IsPadding(c: char) {
    IsWhitespace(c) || c == Delimiter
  }

  /** A complete record: it ends in the delimiter, and that is its only one. */
  ghost predicate IsRecord(r: string) {
    |r| > 0 && r[|r| - 1] == Delimiter && DelimiterOnlyLast(r)
  }

  /** The delimiter occurs in `s` at most as its last character. */
  ghost predicate DelimiterOnlyLast(s: string) {
    forall k :: 0 <= k < |s| - 1 ==> s[k] != Delimiter
  }

  // ---------------------------------------------------------------------
  // Field extraction
  // ---------------------------------------------------------------------

  /** `split(':').nth(1).unwrap_or("")`, computed with `find`: the text
      between the first and the second separator, or from the first
      separator to the end when there is only one, or empty when there is
      none. `FieldIsSecondPiece` ties it to the split. */
  function Field(record: string): (f: string)
    ensures |f| <= |record|
  {
    match Find(record, Separator)
    case None => []
    case Some(i) =>
      match Find(record[i + 1..], Separator)
      case None => record[i + 1..]
      case Some(j) => record[i + 1..i + 1 + j]
  }

  /** The field holds no separator, is empty when the record has none, and
      otherwise starts right after the first separator and runs up to the
      next one or to the end. */
  lemma FieldAt(record: string)
    ensures var f := Field(record);
      Separator !in f
      && (Separator !in record ==> f == [])
      && (Find(record, Separator).Some? ==>
            var i := Find(record, Separator).value;
            i + 1 + |f| <= |record| && f == record[i + 1..i + 1 + |f|]
            && (i + 1 + |f| == |record| || record[i + 1 + |f|] == Separator))
  {
    FindFirst(record, Separator);
    if Find(record, Separator).Some? {
      var i := Find(record, Separator).value;
      var rest := record[i + 1..];
      FindFirst(rest, Separator);
      match Find(rest, Separator)
      case None =>
        assert Field(record) == rest;
      case Some(j) =>
        var f := record[i + 1..i + 1 + j];
        forall k | 0 <= k < j ensures f[k] != Separator {
          assert f[k] == rest[k];
        }
        assert record[i + 1 + j] == rest[j];
    }
  }

  /** The field is the second of the pieces that splitting the record at
      every separator gives, or empty when there is no second piece. */
  lemma FieldIsSecondPiece(record: string)
    ensures Field(record) == Nth(Split(record, Separator), 1).GetOr([])
  {
    var pieces := Split(record, Separator);
    SplitJoin(record, Separator);
    CountAbsent(record, Separator);
    if Separator in record {
      SecondPiece(record, Separator, pieces);
      FieldIsPiece(record, |pieces[0]|, pieces[1]);
    } else {
      FieldAt(record);
    }
  }

  /** A separator-free run that starts after the first separator and ends
      at the next one, or at the end, is the field. */
  lemma FieldIsPiece(record: string, i: nat, piece: string)
    requires Find(record, Separator) == Some(i) && Separator !in piece
    requires i + 1 + |piece| <= |record| && piece == record[i + 1..i + 1 + |piece|]
    requires i + 1 + |piece| == |record| || record[i + 1 + |piece|] == Separator
    ensures Field(record) == piece
  {
    FieldAt(record);
    SameRun(record, i + 1, piece, Field(record));
  }

  /** Joining the pieces puts the second piece right after the first
      separator, followed by nothing or by a separator. */
  lemma SecondPiece(s: string, sep: char, pieces: seq<string>)
    requires |pieces| >= 2 && Join(pieces, sep) == s
    requires forall k :: 0 <= k < |pieces| ==> sep !in pieces[k]
    ensures Find(s, sep) == Some(|pieces[0]|)
    ensures var i := |pieces[0]|; var f := pieces[1];
      i + 1 + |f| <= |s| && f == s[i + 1..i + 1 + |f|]
      && (i + 1 + |f| == |s| || s[i + 1 + |f|] == sep)
  {
    var i := |pieces[0]|;
    var tail := Join(pieces[1..], sep);
    assert s == pieces[0] + [sep] + tail;
    assert pieces[1..][0] == pieces[1];
    assert tail[..|pieces[1]|] == pieces[1];
    forall k | 0 <= k < i ensures s[k] != sep {
      assert s[k] == pieces[0][k];
    }
    FindAt(s, sep, i);
    assert s[i + 1..] == tail;
    assert i + 1 + |pieces[1]| < |s| ==> |pieces[1..]| > 1;
  }

  /** A field is the second piece of any record that reads as a label, a
      separator, the field, and then nothing or another separator. */
  lemma FieldIsSecond(record: string, name: string, field: string, more: string)
    requires record == name + [Separator] + field + more
    requires Separator !in name && Separator !in field
    requires more == [] || more[0] == Separator
    ensures Field(record) == field
  {
    var o := |name| + 1;
    FirstSeparator(record, name, field, more);
    assert field == record[o..o + |field|];
    assert more != [] ==> record[o + |field|] == more[0];
    FieldIsPiece(record, |name|, field);
  }

  lemma FirstSeparator(record: string, name: string, field: string, more: string)
    requires record == name + [Separator] + field + more && Separator !in name
    ensures Find(record, Separator) == Some(|name|)
  {
    forall k | 0 <= k < |name| ensures record[k] != Separator {
      assert record[k] == name[k];
    }
    FindAt(record, Separator, |name|);
  }

  /** Two separator-free runs of a text from the same offset, each ending
      where the text ends or at a separator, are the same. */
  lemma SameRun(s: string, o: nat, a: string, b: string)
    requires o + |a| <= |s| && a == s[o..o + |a|] && Separator !in a
    requires o + |a| == |s| || s[o + |a|] == Separator
    requires o + |b| <= |s| && b == s[o..o + |b|] && Separator !in b
    requires o + |b| == |s| || s[o + |b|] == Separator
    ensures a == b
  {
    forall j | o <= j < o + |a| ensures s[j] != Separator {
      assert s[j] == a[j - o] && a[j - o] in a;
    }
    forall j | o <= j < o + |b| ensures s[j] != Separator {
      assert s[j] == b[j - o] && b[j - o] in b;
    }
    assert |a| == |b|;
  }

  /** What the expression keeps of a field: `trim()`, then
      `trim_end_matches('%')`, then `trim()` again, each narrowing the same
      slice. */
  function ValueSpan(f: string): (sp: Span)
    ensures sp.Within(f)
  {
    var a := Trim(f, Span(0, |f|));
    var b := TrimEndMatches(f, a, IsDelimiter);
    Trim(f, b)
  }

  /** The slice kept is stripped of whitespace in front and of whitespace
      and delimiters behind, neither begins nor ends in whitespace, and
      holds no delimiter when the field has one at most at its end. */
  lemma ValueSpanStrips(f: string)
    ensures var sp := ValueSpan(f);
      StrippedAt(f, sp.lo, sp.hi)
      && (sp.lo == sp.hi || (!IsWhitespace(f[sp.lo]) && !IsWhitespace(f[sp.hi - 1])))
      && (DelimiterOnlyLast(f) ==> forall k :: sp.lo <= k < sp.hi ==> f[k] != Delimiter)
  {
    var a := Trim(f, Span(0, |f|));
    StripsAt(f, a, TrimEndMatches(f, a, IsDelimiter), ValueSpan(f));
  }

  lemma StripsAt(f: string, a: Span, b: Span, c: Span)
    requires a == Trim(f, Span(0, |f|)) && b == TrimEndMatches(f, a, IsDelimiter) && c == Trim(f, b)
    ensures StrippedAt(f, c.lo, c.hi)
    ensures c.lo == c.hi || (!IsWhitespace(f[c.lo]) && !IsWhitespace(f[c.hi - 1]))
    ensures DelimiterOnlyLast(f) ==> forall k :: c.lo <= k < c.hi ==> f[k] != Delimiter
  {
    TrimDrops(f, Span(0, |f|));
    TrimEndDrops(f, a, IsDelimiter);
    TrimDrops(f, b);
    StripChain(f, a, b, c);
  }

  /** The three trims of `ValueSpan`, stated on their bounds alone. */
  lemma StripChain(f: string, a: Span, b: Span, c: Span)
    requires 0 <= a.lo <= b.lo <= c.lo <= c.hi <= b.hi <= a.hi <= |f| && a.lo == b.lo
    requires forall k :: 0 <= k < a.lo ==> IsWhitespace(f[k])
    requires forall k :: a.hi <= k < |f| ==> IsWhitespace(f[k])
    requires a.lo == a.hi || (!IsWhitespace(f[a.lo]) && !IsWhitespace(f[a.hi - 1]))
    requires forall k :: b.hi <= k < a.hi ==> IsDelimiter(f[k])
    requires b.lo == b.hi || !IsDelimiter(f[b.hi - 1])
    requires forall k :: b.lo <= k < c.lo ==> IsWhitespace(f[k])
    requires forall k :: c.hi <= k < b.hi ==> IsWhitespace(f[k])
    requires c.lo == c.hi || (!IsWhitespace(f[c.lo]) && !IsWhitespace(f[c.hi - 1]))
    ensures StrippedAt(f, c.lo, c.hi)
    ensures DelimiterOnlyLast(f) ==> forall k :: c.lo <= k < c.hi ==> f[k] != Delimiter
  {
    forall k | c.hi <= k < |f| ensures IsPadding(f[k]) {
    }
    if DelimiterOnlyLast(f) {
      forall k | c.lo <= k < c.hi ensures f[k] != Delimiter {
        if k == |f| - 1 {
          assert b.hi == a.hi;
        }
      }
    }
  }

  /** `f[lo..hi]` is `f` with whitespace removed on the left and whitespace
      and delimiters removed on the right. */
  ghost predicate StrippedAt(f: string, lo: int, hi: int) {
    0 <= lo <= hi <= |f|
    && (forall k :: 0 <= k < lo ==> IsWhitespace(f[k]))
    && (forall k :: hi <= k < |f| ==> IsPadding(f[k]))
  }

  /** `f[lo..hi]` holds no delimiter and neither begins nor ends in
      whitespace. */
  ghost predicate CleanAt(f: string, lo: int, hi: int)
    requires 0 <= lo <= hi <= |f|
  {
    (lo == hi || (!IsWhitespace(f[lo]) && !IsWhitespace(f[hi - 1])))
    && forall k :: lo <= k < hi ==> f[k] != Delimiter
  }

  /** A field determines its clean stripped value: whatever slice is
      stripped and clean holds the same text as the one `ValueSpan` picks. */
  lemma StrippedUnique(f: string, lo1: int, hi1: int, lo2: int, hi2: int)
    requires StrippedAt(f, lo1, hi1) && CleanAt(f, lo1, hi1)
    requires StrippedAt(f, lo2, hi2) && CleanAt(f, lo2, hi2)
    ensures f[lo1..hi1] == f[lo2..hi2]
  {
    EmptyMeansAllPadding(f, lo1, hi1, lo2, hi2);
    EmptyMeansAllPadding(f, lo2, hi2, lo1, hi1);
  }

  /** An empty stripped slice leaves only padding, so every clean stripped
      slice is empty too; two nonempty ones have the same bounds. */
  lemma EmptyMeansAllPadding(f: string, lo1: int, hi1: int, lo2: int, hi2: int)
    requires StrippedAt(f, lo1, hi1) && CleanAt(f, lo1, hi1)
    requires StrippedAt(f, lo2, hi2) && CleanAt(f, lo2, hi2)
    ensures lo1 == hi1 ==> lo2 == hi2
    ensures lo1 < hi1 && lo2 < hi2 ==> lo1 == lo2 && hi1 == hi2
  {
    if lo1 == hi1 {
      forall k | 0 <= k < |f| ensures IsPadding(f[k]) {
      }
    }
  }

  /** The value a record carries: the expression whose result the reader
      stores in the shared slot. */
  function Extract(record: string): string {
    var f := Field(record);
    Slice(f, ValueSpan(f))
  }

  /** The value of a record is empty when the record has no separator,
      holds no separator, neither begins nor ends in whitespace, and does
      not hold the delimiter that closes the record. */
  lemma ExtractClean(record: string)
    ensures var v := Extract(record);
      (Separator !in record ==> v == [])
      && Separator !in v
      && (v == [] || (!IsWhitespace(v[0]) && !IsWhitespace(v[|v| - 1])))
      && (IsRecord(record) ==> Delimiter !in v)
  {
    FieldAt(record);
    ValueOfField(Field(record));
    FieldOfRecord(record);
  }

  /** What the value keeps from the field it is cut from. */
  lemma ValueOfField(f: string)
    ensures var v := Slice(f, ValueSpan(f));
      (f == [] ==> v == [])
      && (Separator !in f ==> Separator !in v)
      && (v == [] || (!IsWhitespace(v[0]) && !IsWhitespace(v[|v| - 1])))
      && (DelimiterOnlyLast(f) ==> Delimiter !in v)
  {
    var sp := ValueSpan(f);
    ValueSpanStrips(f);
    SliceKeeps(f, sp.lo, sp.hi, Slice(f, sp));
  }

  /** What a slice inherits from the text it is cut from. */
  lemma SliceKeeps(f: string, lo: int, hi: int, v: string)
    requires 0 <= lo <= hi <= |f| && v == f[lo..hi]
    ensures Separator !in f ==> Separator !in v
    ensures (forall k :: lo <= k < hi ==> f[k] != Delimiter) ==> Delimiter !in v
    ensures (lo == hi || (!IsWhitespace(f[lo]) && !IsWhitespace(f[hi - 1]))) ==>
      v == [] || (!IsWhitespace(v[0]) && !IsWhitespace(v[|v| - 1]))
  {
    forall k | 0 <= k < |v| ensures v[k] == f[lo + k] && v[k] in f {
    }
  }

  /** Inside a record, the second field can hold the delimiter only as its
      last character. */
  lemma FieldOfRecord(record: string)
    ensures IsRecord(record) ==> DelimiterOnlyLast(Field(record))
  {
    var f := Field(record);
    FieldAt(record);
    if IsRecord(record) && Find(record, Separator).Some? {
      var j := Find(record, Separator).value;
      forall k | 0 <= k < |f| - 1 ensures f[k] != Delimiter {
        assert f[k] == record[j + 1 + k];
      }
    }
  }

  /** The value of a record is the second field stripped clean, and no other
      clean stripping of that field gives a different text. */
  lemma ExtractSecondField(record: string, name: string, field: string, more: string)
    requires record == name + [Separator] + field + more
    requires Separator !in name && Separator !in field
    requires more == [] || more[0] == Separator
    requires IsRecord(record)
    ensures var sp := ValueSpan(field);
      StrippedAt(field, sp.lo, sp.hi) && CleanAt(field, sp.lo, sp.hi)
      && Extract(record) == field[sp.lo..sp.hi]
  {
    FieldIsSecond(record, name, field, more);
    FieldOfRecord(record);
    ValueSpanStrips(field);
  }

  /** The record `name:` followed by a value with whitespace around it and
      the delimiter carries exactly that value. */
  lemma ExtractPadded(name: string, lead: string, value: string, trail: string)
    requires Separator !in name && Delimiter !in name
    requires forall k :: 0 <= k < |lead| ==> IsWhitespace(lead[k])
    requires forall k :: 0 <= k < |trail| ==> IsWhitespace(trail[k])
    requires Separator !in value && Delimiter !in value
    requires value == [] || (!IsWhitespace(value[0]) && !IsWhitespace(value[|value| - 1]))
    ensures Extract(name + [Separator] + lead + value + trail + [Delimiter]) == value
  {
    var field := lead + value + trail + [Delimiter];
    var record := name + [Separator] + field;
    // `ExtractSecondField` reads a record as `name:field` followed by a
    // tail `more`; here the tail is empty, and naming the record as
    // `record + []` gives its requires that shape verbatim, which keeps the
    // solver from re-deriving the sequence equation.
    assert name + [Separator] + lead + value + trail + [Delimiter] == record + [];
    PaddedField(lead, value, trail);
    PaddedRecord(name, field);
    ExtractSecondField(record + [], name, field, []);
    var sp := ValueSpan(field);
    StrippedUnique(field, sp.lo, sp.hi, |lead|, |lead| + |value|);
  }

  lemma PaddedField(lead: string, value: string, trail: string)
    requires forall k :: 0 <= k < |lead| ==> IsWhitespace(lead[k])
    requires forall k :: 0 <= k < |trail| ==> IsWhitespace(trail[k])
    requires Separator !in value && Delimiter !in value
    requires value == [] || (!IsWhitespace(value[0]) && !IsWhitespace(value[|value| - 1]))
    ensures var field := lead + value + trail + [Delimiter];
      var lo, hi := |lead|, |lead| + |value|;
      Separator !in field && DelimiterOnlyLast(field) && field[|field| - 1] == Delimiter
      && StrippedAt(field, lo, hi) && CleanAt(field, lo, hi) && field[lo..hi] == value
  {
    var field := lead + value + trail + [Delimiter];
    var lo, hi := |lead|, |lead| + |value|;
    forall k | 0 <= k < |field|
      ensures field[k] != Separator
      ensures k < |field| - 1 ==> field[k] != Delimiter
      ensures k < lo ==> IsWhitespace(field[k])
      ensures hi <= k ==> IsPadding(field[k])
    {
      if k < lo {
        assert field[k] == lead[k];
      } else if k < hi {
        assert field[k] == value[k - lo];
      } else if k < |field| - 1 {
        assert field[k] == trail[k - hi];
      }
    }
    assert field[lo..hi] == value;
  }

  lemma PaddedRecord(name: string, field: string)
    requires Separator !in name && Delimiter !in name
    requires |field| > 0 && field[|field| - 1] == Delimiter && DelimiterOnlyLast(field)
    ensures IsRecord(name + [Separator] + field)
  {
    var record := name + [Separator] + field;
    forall k | 0 <= k < |record| - 1 ensures record[k] != Delimiter {
      if k < |name| {
        assert record[k] == name[k];
      } else if k > |name| {
        assert record[k] == field[k - |name| - 1];
      }
    }
  }

  // ---------------------------------------------------------------------
  // Framing
  // ---------------------------------------------------------------------

  /** The records cut from a buffer, in order, and what is left over. */
  datatype Framing = Framing(records: seq<string>, rest: string)

  /** The strings of `ss` one after another. */
  function Concat(ss: seq<string>): string {
    if ss == [] then [] else ss[0] + Concat(ss[1..])
  }

  lemma {:induction false} ConcatAppend(a: seq<string>, b: seq<string>)
    ensures Concat(a + b) == Concat(a) + Concat(b)
  {
    if a == [] {
      assert a + b == b;
    } else {
      assert (a + b)[1..] == a[1..] + b;
      ConcatAppend(a[1..], b);
    }
  }

  /** The `while let Some(end_idx) = find('%')` loop as a function: each
      round cuts the prefix up to and including the first delimiter. */
  function Cut(buffer: string): (f: Framing)
    ensures |f.rest| <= |buffer|
    decreases |buffer|
  {
    match Find(buffer, Delimiter)
    case None => Framing([], buffer)
    case Some(i) =>
      var tail := Cut(buffer[i + 1..]);
      Framing([buffer[..i + 1]] + tail.records, tail.rest)
  }

  /** Framing loses and invents nothing: the records, then the rest, give
      the buffer back; every record ends in its only delimiter; the rest
      holds none; and there is one record per delimiter. */
  lemma {:induction false} CutFrames(buffer: string)
    ensures var f := Cut(buffer);
      Delimiter !in f.rest
      && Concat(f.records) + f.rest == buffer
      && (forall k :: 0 <= k < |f.records| ==> IsRecord(f.records[k]))
      && |f.records| == Count(buffer, Delimiter)
    decreases |buffer|
  {
    FindFirst(buffer, Delimiter);
    match Find(buffer, Delimiter)
    case None =>
      CountAbsent(buffer, Delimiter);
    case Some(i) =>
      CutFrames(buffer[i + 1..]);
      var tail := Cut(buffer[i + 1..]);
      CutStep(buffer, i, tail.records, tail.rest);
  }

  /** One round of framing: the first record, then what the remainder
      frames into. */
  lemma CutStep(buffer: string, i: nat, records: seq<string>, rest: string)
    requires i < |buffer| && buffer[i] == Delimiter
    requires forall k :: 0 <= k < i ==> buffer[k] != Delimiter
    requires Concat(records) + rest == buffer[i + 1..]
    requires forall k :: 0 <= k < |records| ==> IsRecord(records[k])
    requires |records| == Count(buffer[i + 1..], Delimiter)
    ensures var all := [buffer[..i + 1]] + records;
      Concat(all) + rest == buffer
      && (forall k :: 0 <= k < |all| ==> IsRecord(all[k]))
      && |all| == Count(buffer, Delimiter)
  {
    var record := buffer[..i + 1];
    var all := [record] + records;
    forall k | 0 <= k < |record| - 1 ensures record[k] != Delimiter {
      assert record[k] == buffer[k];
    }
    assert all[1..] == records;
    assert Concat(all) == record + Concat(records);
    assert buffer == record + buffer[i + 1..];
    CountSplit(buffer, Delimiter, i);
    forall k | 0 <= k < |all| ensures IsRecord(all[k]) {
      if k > 0 {
        assert all[k] == records[k - 1];
      }
    }
  }

  /** A record is recognised at the front of any text that follows it. */
  lemma FindRecordEnd(r: string, t: string)
    requires IsRecord(r)
    ensures Find(r + t, Delimiter) == Some(|r| - 1)
  {
    forall k | 0 <= k < |r| - 1 ensures (r + t)[k] != Delimiter {
      assert (r + t)[k] == r[k];
    }
    FindAt(r + t, Delimiter, |r| - 1);
  }

  /** Framing is the only way to read a buffer as complete records followed
      by a delimiter-free rest. */
  lemma {:induction false} CutUnique(buffer: string, records: seq<string>, rest: string)
    requires forall k :: 0 <= k < |records| ==> IsRecord(records[k])
    requires Delimiter !in rest
    requires Concat(records) + rest == buffer
    ensures Cut(buffer) == Framing(records, rest)
    decreases |records|
  {
    if records == [] {
      assert buffer == rest;
      CutNone(buffer);
    } else {
      var r := records[0];
      var t := Concat(records[1..]) + rest;
      assert buffer == r + t;
      CutCons(buffer, r, t);
      CutUnique(t, records[1..], rest);
      assert [r] + records[1..] == records;
    }
  }

  /** A buffer without a delimiter is all rest. */
  lemma CutNone(buffer: string)
    requires Delimiter !in buffer
    ensures Cut(buffer) == Framing([], buffer)
  {
    FindFirst(buffer, Delimiter);
  }

  /** A buffer that starts with a record frames into that record, then
      whatever the text after it frames into. */
  lemma CutCons(buffer: string, r: string, t: string)
    requires IsRecord(r) && buffer == r + t
    ensures Cut(buffer) == Framing([r] + Cut(t).records, Cut(t).rest)
  {
    FindRecordEnd(r, t);
    assert buffer[..|r|] == r && buffer[|r|..] == t;
  }

  /** Records are taken left to right: the first is the shortest prefix
      ending in a delimiter, and the others are what framing the remainder
      yields. */
  lemma CutFirst(buffer: string)
    requires Delimiter in buffer
    ensures var f := Cut(buffer);
      |f.records| > 0
      && var n := |f.records[0]|;
      0 < n <= |buffer| && f.records[0] == buffer[..n]
      && buffer[n - 1] == Delimiter
      && (forall k :: 0 <= k < n - 1 ==> buffer[k] != Delimiter)
      && Cut(buffer[n..]) == Framing(f.records[1..], f.rest)
  {
    var f := Cut(buffer);
    CutFrames(buffer);
    CountAbsent(buffer, Delimiter);
    assert |f.records| == Count(buffer, Delimiter) > 0;
    FirstOfFraming(buffer, f.records, f.rest);
    CutUnique(buffer[|f.records[0]|..], f.records[1..], f.rest);
  }

  /** The first of the records that read a buffer is a prefix of it, and
      the others read the remainder. */
  lemma FirstOfFraming(buffer: string, records: seq<string>, rest: string)
    requires |records| > 0 && Concat(records) + rest == buffer
    requires forall k :: 0 <= k < |records| ==> IsRecord(records[k])
    ensures var n := |records[0]|;
      0 < n <= |buffer| && records[0] == buffer[..n]
      && buffer[n - 1] == Delimiter
      && (forall k :: 0 <= k < n - 1 ==> buffer[k] != Delimiter)
      && Concat(records[1..]) + rest == buffer[n..]
  {
    var r := records[0];
    var t := Concat(records[1..]) + rest;
    assert IsRecord(r);
    assert buffer == r + t;
    assert buffer[..|r|] == r && buffer[|r|..] == t;
    forall k | 0 <= k < |r| - 1 ensures buffer[k] != Delimiter {
      assert buffer[k] == r[k];
    }
  }

  /** Framing does not depend on where the text was split between reads. */
  lemma CutSplitPoint(a: string, b: string)
    ensures var f1 := Cut(a); var f2 := Cut(f1.rest + b);
      Cut(a + b) == Framing(f1.records + f2.records, f2.rest)
  {
    var f1 := Cut(a);
    var f2 := Cut(f1.rest + b);
    CutFrames(a);
    CutFrames(f1.rest + b);
    Chain(a, b, f1.records, f1.rest, f2.records, f2.rest);
    CutUnique(a + b, f1.records + f2.records, f2.rest);
  }

  /** Records framed from `a`, then from its rest followed by `b`, frame
      `a + b`. */
  lemma Chain(a: string, b: string, r1: seq<string>, s1: string, r2: seq<string>, s2: string)
    requires Concat(r1) + s1 == a && Concat(r2) + s2 == s1 + b
    requires forall k :: 0 <= k < |r1| ==> IsRecord(r1[k])
    requires forall k :: 0 <= k < |r2| ==> IsRecord(r2[k])
    ensures Concat(r1 + r2) + s2 == a + b
    ensures forall k :: 0 <= k < |r1 + r2| ==> IsRecord((r1 + r2)[k])
  {
    ChainText(a, b, r1, s1, r2, s2);
    forall k | 0 <= k < |r1 + r2| ensures IsRecord((r1 + r2)[k]) {
      if k < |r1| {
        assert (r1 + r2)[k] == r1[k];
      } else {
        assert (r1 + r2)[k] == r2[k - |r1|];
      }
    }
  }

  lemma ChainText(a: string, b: string, r1: seq<string>, s1: string, r2: seq<string>, s2: string)
    requires Concat(r1) + s1 == a && Concat(r2) + s2 == s1 + b
    ensures Concat(r1 + r2) + s2 == a + b
  {
    ConcatAppend(r1, r2);
    var x, y := Concat(r1), Concat(r2);
    assert x + y + s2 == x + (y + s2);
    assert x + (s1 + b) == (x + s1) + b;
  }

  // ---------------------------------------------------------------------
  // One decode pass
  // ---------------------------------------------------------------------

  /** The residual after a pass and the values of its records, in order. */
  datatype Decoded = Decoded(rest: string, values: seq<string>)

  /** `f` applied to each element, in order. */
  function Map<T, U>(f: T -> U, xs: seq<T>): (ys: seq<U>)
    ensures |ys| == |xs|
  {
    if xs == [] then [] else [f(xs[0])] + Map(f, xs[1..])
  }

  lemma {:induction false} MapAppend<T, U>(f: T -> U, a: seq<T>, b: seq<T>)
    ensures Map(f, a + b) == Map(f, a) + Map(f, b)
  {
    if a == [] {
      assert a + b == b;
    } else {
      assert (a + b)[1..] == a[1..] + b;
      MapAppend(f, a[1..], b);
    }
  }

  lemma {:induction false} MapAt<T, U>(f: T -> U, xs: seq<T>)
    ensures forall k :: 0 <= k < |xs| ==> Map(f, xs)[k] == f(xs[k])
  {
    if xs != [] {
      MapAt(f, xs[1..]);
      forall k | 0 < k < |xs| ensures Map(f, xs)[k] == f(xs[k]) {
        assert xs[1..][k - 1] == xs[k];
      }
    }
  }

  lemma MapSnoc<T, U>(f: T -> U, xs: seq<T>, x: T)
    ensures Map(f, xs + [x]) == Map(f, xs) + [f(x)]
  {
    MapAppend(f, xs, [x]);
    assert [x][1..] == [];
  }

  /** The value of each record, in order. */
  function Values(records: seq<string>): (vs: seq<string>)
    ensures |vs| == |records|
  {
    Map(Extract, records)
  }

  /** One more record adds its value at the end. */
  lemma ValuesSnoc(records: seq<string>, r: string)
    ensures Values(records + [r]) == Values(records) + [Extract(r)]
  {
    MapSnoc(Extract, records, r);
  }

  /** Appending a chunk to the residual and cutting every complete record. */
  function Frame(residual: string, chunk: string): Decoded {
    var f := Cut(residual + chunk);
    Decoded(f.rest, Values(f.records))
  }

  /** After a pass no delimiter is left waiting; what is left is the end of
      the text, after every complete record; and there is one value per
      delimiter in the text. */
  lemma FrameKeeps(residual: string, chunk: string)
    ensures var d := Frame(residual, chunk); var f := Cut(residual + chunk);
      Delimiter !in d.rest
      && Concat(f.records) + d.rest == residual + chunk
      && |d.values| == Count(residual + chunk, Delimiter)
  {
    CutFrames(residual + chunk);
  }

  /** A chunk without a delimiter, after a residual without one, completes
      no record and is kept whole. */
  lemma FrameNoDelimiter(residual: string, chunk: string)
    requires Delimiter !in residual && Delimiter !in chunk
    ensures Frame(residual, chunk) == Decoded(residual + chunk, [])
  {
    CutUnique(residual + chunk, [], residual + chunk);
  }

  /** Decoding two chunks one after the other gives the same residual and
      the same values as decoding their concatenation. */
  lemma FrameSplitPoint(residual: string, c1: string, c2: string)
    ensures var d1 := Frame(residual, c1); var d2 := Frame(d1.rest, c2);
      Frame(residual, c1 + c2) == Decoded(d2.rest, d1.values + d2.values)
  {
    assert residual + (c1 + c2) == (residual + c1) + c2;
    var f1 := Cut(residual + c1);
    CutSplitPoint(residual + c1, c2);
    MapAppend(Extract, f1.records, Cut(f1.rest + c2).records);
  }

  /** Every value a pass yields is the value of the record at the same
      position, carries neither separator nor delimiter, and neither begins
      nor ends in whitespace. */
  lemma FrameValues(residual: string, chunk: string)
    ensures var f := Cut(residual + chunk); var d := Frame(residual, chunk);
      forall k :: 0 <= k < |d.values| ==>
        d.values[k] == Extract(f.records[k])
        && Separator !in d.values[k] && Delimiter !in d.values[k]
        && (d.values[k] == [] || (!IsWhitespace(d.values[k][0]) && !IsWhitespace(d.values[k][|d.values[k]| - 1])))
  {
    var f := Cut(residual + chunk);
    CutFrames(residual + chunk);
    MapAt(Extract, f.records);
    forall k | 0 <= k < |f.records|
      ensures var v := Extract(f.records[k]);
        Separator !in v && Delimiter !in v
        && (v == [] || (!IsWhitespace(v[0]) && !IsWhitespace(v[|v| - 1])))
    {
      ExtractClean(f.records[k]);
    }
  }

  /** A buffer that is exactly one record frames into that record. */
  lemma SingleRecord(residual: string, chunk: string)
    requires IsRecord(residual + chunk)
    ensures Frame(residual, chunk) == Decoded([], [Extract(residual + chunk)])
  {
    var record := residual + chunk;
    assert Concat([record]) == record;
    CutUnique(record, [record], []);
    MapAt(Extract, [record]);
  }

  /** A pass whose text is one record `name:value%`, with whitespace
      around the value, yields that value and leaves nothing behind. */
  lemma FramePadded(residual: string, chunk: string, name: string, lead: string, value: string, trail: string)
    requires residual + chunk == name + [Separator] + lead + value + trail + [Delimiter]
    requires Separator !in name && Delimiter !in name
    requires forall k :: 0 <= k < |lead| ==> IsWhitespace(lead[k])
    requires forall k :: 0 <= k < |trail| ==> IsWhitespace(trail[k])
    requires Separator !in value && Delimiter !in value
    requires value == [] || (!IsWhitespace(value[0]) && !IsWhitespace(value[|value| - 1]))
    ensures Frame(residual, chunk) == Decoded([], [value])
  {
    var field := lead + value + trail + [Delimiter];
    assert residual + chunk == name + [Separator] + field;
    PaddedField(lead, value, trail);
    PaddedRecord(name, field);
    SingleRecord(residual, chunk);
    ExtractPadded(name, lead, value, trail);
  }

  /** A pass whose text is one record without a separator yields the
      empty value. */
  lemma FrameNoSeparator(residual: string, chunk: string)
    requires IsRecord(residual + chunk) && Separator !in residual + chunk
    ensures Frame(residual, chunk) == Decoded([], [[]])
  {
    SingleRecord(residual, chunk);
    ExtractClean(residual + chunk);
  }

  /** Two records `name1:value1%name2:value2%` in one pass, with nothing
      waiting before them, yield both values in order and leave nothing
      behind. */
  lemma FrameTwoRecords(name1: string, value1: string, name2: string, value2: string)
    requires Separator !in name1 && Delimiter !in name1 && Separator !in name2 && Delimiter !in name2
    requires Separator !in value1 && Delimiter !in value1 && Separator !in value2 && Delimiter !in value2
    requires value1 == [] || (!IsWhitespace(value1[0]) && !IsWhitespace(value1[|value1| - 1]))
    requires value2 == [] || (!IsWhitespace(value2[0]) && !IsWhitespace(value2[|value2| - 1]))
    ensures Frame([], name1 + [Separator] + value1 + [Delimiter] + name2 + [Separator] + value2 + [Delimiter])
      == Decoded([], [value1, value2])
  {
    var c1 := name1 + [Separator] + value1 + [Delimiter];
    var c2 := name2 + [Separator] + value2 + [Delimiter];
    assert name1 + [Separator] + value1 + [Delimiter] + name2 + [Separator] + value2 + [Delimiter] == c1 + c2;
    assert [] + c1 == name1 + [Separator] + [] + value1 + [] + [Delimiter];
    assert [] + c2 == name2 + [Separator] + [] + value2 + [] + [Delimiter];
    FramePadded([], c1, name1, [], value1, []);
    FramePadded([], c2, name2, [], value2, []);
    FrameSplitPoint([], c1, c2);
  }
}
