/** Character classes and the few Rust `str` operations the tool relies on:
    `split` on one character, `split_whitespace` and `contains`. */
module Text {

  datatype Option<+T> = None | Some(value: T) {
    /** Rust's `unwrap_or`: the value, or `default` when there is none. */
    function GetOr(default: T): T {
      match this
      case Some(v) => v
      case None => default
    }

    /** The value as a sequence of at most one element. */
    function ToSeq(): (s: seq<T>)
      ensures |s| <= 1 && (Some? <==> |s| == 1) && (Some? ==> s[0] == value)
    {
      match this
      case Some(v) => [v]
      case None => []
    }
  }

  function Min(a: nat, b: nat): nat { if a <= b then a else b }

  predicate IsDigit(c: char) { '0' <= c <= '9' }
  predicate IsLower(c: char) { 'a' <= c <= 'z' }
  predicate IsUpper(c: char) { 'A' <= c <= 'Z' }
  predicate IsAlnum(c: char) { IsDigit(c) || IsLower(c) || IsUpper(c) }
  /** The ASCII word class `[0-9A-Za-z_]`. */
  predicate IsWordChar(c: char) { IsAlnum(c) || c == '_' }

  /** Rust's `char::is_whitespace`: the characters with the Unicode White_Space property. */
  predicate IsWhitespace(c: char) {
    || c == ' '
    || '\t' <= c <= '\r'
    || c == '\U{85}' || c == '\U{A0}' || c == '\U{1680}'
    || '\U{2000}' <= c <= '\U{200A}'
    || c == '\U{2028}' || c == '\U{2029}' || c == '\U{202F}' || c == '\U{205F}' || c == '\U{3000}'
  }

  /** `[a-zA-Z0-9.-]` */
  predicate IsHostChar(c: char) { IsAlnum(c) || c == '.' || c == '-' }
  /** `[a-z0-9]` */
  predicate IsNameChar(c: char) { IsLower(c) || IsDigit(c) }

  /** The character classes the tool's patterns scan over. */
  datatype CharClass = Digit | Word | NonSpace | HostChar | NameChar

  predicate In(c: char, cls: CharClass) {
    match cls
    case Digit => IsDigit(c)
    case Word => IsWordChar(c)
    case NonSpace => !IsWhitespace(c)
    case HostChar => IsHostChar(c)
    case NameChar => IsNameChar(c)
  }

  /** Length of the longest prefix of `s` whose characters all satisfy `p`. */
  function Span(s: string, p: CharClass): (n: nat)
    ensures n <= |s|
    ensures forall i :: 0 <= i < n ==> In(s[i], p)
    ensures n < |s| ==> !In(s[n], p)
  {
    if |s| == 0 || !In(s[0], p) then 0 else 1 + Span(s[1..], p)
  }

  /** Length of the longest suffix of `s` whose characters all satisfy `p`. */
  function SuffixSpan(s: string, p: CharClass): (n: nat)
    ensures n <= |s|
  {
    if |s| == 0 || !In(s[|s| - 1], p) then 0 else 1 + SuffixSpan(s[..|s| - 1], p)
  }

  /** The suffix is maximal: all of it is in `p`, and the character before it is not. */
  lemma {:induction false} SuffixSpanIsMaximal(s: string, p: CharClass)
    ensures forall i :: |s| - SuffixSpan(s, p) <= i < |s| ==> In(s[i], p)
    ensures SuffixSpan(s, p) < |s| ==> !In(s[|s| - 1 - SuffixSpan(s, p)], p)
  {
    if |s| > 0 && In(s[|s| - 1], p) {
      var init := s[..|s| - 1];
      SuffixSpanIsMaximal(init, p);
      assert forall i :: 0 <= i < |init| ==> init[i] == s[i];
    }
  }

  /** Where the longest run of `p` characters that starts at `i` ends. */
  function RunEnd(s: string, i: nat, p: CharClass): (e: nat)
    requires i <= |s|
    ensures i <= e <= |s|
    decreases |s| - i
  {
    if i == |s| || !In(s[i], p) then i else RunEnd(s, i + 1, p)
  }

  /** The run is maximal: all of it is in `p`, and the character after it is not. */
  lemma {:induction false} RunEndIsMaximal(s: string, i: nat, p: CharClass)
    requires i <= |s|
    ensures forall j :: i <= j < RunEnd(s, i, p) ==> In(s[j], p)
    ensures RunEnd(s, i, p) == |s| || !In(s[RunEnd(s, i, p)], p)
    decreases |s| - i
  {
    if i < |s| && In(s[i], p) {
      RunEndIsMaximal(s, i + 1, p);
    }
  }

  /** A run of `p` characters from `i` to `e` that cannot be extended ends where `RunEnd` says. */
  lemma {:induction false} RunEndAt(s: string, i: nat, e: nat, p: CharClass)
    requires i <= e <= |s|
    requires forall j :: i <= j < e ==> In(s[j], p)
    requires e == |s| || !In(s[e], p)
    ensures RunEnd(s, i, p) == e
    decreases e - i
  {
    if i < e {
      RunEndAt(s, i + 1, e, p);
    }
  }

  lemma SliceConcat(s: string, i: nat, j: nat, k: nat)
    requires i <= j <= k <= |s|
    ensures s[i..k] == s[i..j] + s[j..k]
  {
  }

  lemma ConcatAssoc(a: string, b: string, c: string, d: string)
    ensures a + b + c + d == a + b + (c + d)
  {
  }

  /** A slice of a run of `p` characters is all in `p`. */
  lemma SliceIn(s: string, i: nat, e: nat, p: CharClass)
    requires i <= e <= |s|
    requires forall j :: i <= j < e ==> In(s[j], p)
    ensures forall j :: 0 <= j < e - i ==> In(s[i..e][j], p)
  {
    forall j | 0 <= j < e - i ensures In(s[i..e][j], p) {
      assert s[i..e][j] == s[i + j];
    }
  }

  /** A prefix of characters satisfying `p` that is followed by the end or by a character
      outside `p` is exactly the span. */
  lemma {:induction false} SpanOfPrefix(a: string, b: string, p: CharClass)
    requires forall i :: 0 <= i < |a| ==> In(a[i], p)
    requires b == [] || !In(b[0], p)
    ensures Span(a + b, p) == |a|
  {
    if |a| > 0 {
      assert (a + b)[1..] == a[1..] + b;
      SpanOfPrefix(a[1..], b, p);
    }
  }

  /** A suffix of characters satisfying `p` after the start or after a character outside
      `p` is exactly the suffix span. */
  lemma {:induction false} SuffixSpanOf(a: string, b: string, p: CharClass)
    requires forall i :: 0 <= i < |b| ==> In(b[i], p)
    requires a == [] || !In(a[|a| - 1], p)
    ensures SuffixSpan(a + b, p) == |b|
    decreases |b|
  {
    if |b| > 0 {
      var b' := b[..|b| - 1];
      assert (a + b)[..|a + b| - 1] == a + b';
      SuffixSpanOf(a, b', p);
    } else {
      assert a + b == a;
    }
  }

  /** Position of the first occurrence of `c` in `s`. */
  function IndexOf(s: string, c: char): (i: nat)
    requires c in s
    ensures i < |s| && s[i] == c && c !in s[..i]
  {
    if s[0] == c then 0 else 1 + IndexOf(s[1..], c)
  }

  /** Rust's `str::split` on one character: the pieces between the separators, empty ones included. */
  function Split(s: string, sep: char): (parts: seq<string>)
    ensures |parts| >= 1
    decreases |s|
  {
    if sep !in s then [s]
    else
      var i := IndexOf(s, sep);
      [s[..i]] + Split(s[i + 1..], sep)
  }

  /** The pieces hold no separator, and joining them gives the string back. */
  lemma {:induction false} SplitPieces(s: string, sep: char)
    ensures forall i :: 0 <= i < |Split(s, sep)| ==> sep !in Split(s, sep)[i]
    ensures Join(Split(s, sep), sep) == s
    decreases |s|
  {
    if sep in s {
      var i := IndexOf(s, sep);
      var rest := Split(s[i + 1..], sep);
      SplitPieces(s[i + 1..], sep);
      var parts := [s[..i]] + rest;
      assert parts[1..] == rest;
      assert s == s[..i] + [sep] + s[i + 1..];
    }
  }

  /** The inverse of `Split`: the pieces with one separator between neighbours. */
  function Join(parts: seq<string>, sep: char): string
    requires |parts| >= 1
  {
    if |parts| == 1 then parts[0] else parts[0] + [sep] + Join(parts[1..], sep)
  }

  /** Splitting the joined pieces gives the pieces back, as long as none holds the separator. */
  lemma {:induction false} SplitJoin(parts: seq<string>, sep: char)
    requires |parts| >= 1
    requires forall i :: 0 <= i < |parts| ==> sep !in parts[i]
    ensures Split(Join(parts, sep), sep) == parts
  {
    if |parts| > 1 {
      var s := Join(parts, sep);
      var tail := Join(parts[1..], sep);
      IndexOfAfter(parts[0], tail, sep);
      assert s[..|parts[0]|] == parts[0];
      assert s[|parts[0]| + 1..] == tail;
      SplitJoin(parts[1..], sep);
      assert parts == [parts[0]] + parts[1..];
    }
  }

  /** Splitting at a separator splits both sides. */
  lemma {:induction false} SplitAppend(a: string, b: string, sep: char)
    ensures Split(a + [sep] + b, sep) == Split(a, sep) + Split(b, sep)
    decreases |a|, 1
  {
    if sep !in a {
      SplitAtFirst(a, b, sep);
    } else {
      var i := IndexOf(a, sep);
      assert a == a[..i] + [sep] + a[i + 1..];
      SplitAppendAfter(a[..i], a[i + 1..], b, sep);
    }
  }

  /** `SplitAppend` for a left side `a1 + [sep] + a2` whose first piece is `a1`. */
  lemma {:induction false} SplitAppendAfter(a1: string, a2: string, b: string, sep: char)
    requires sep !in a1
    ensures Split(a1 + [sep] + a2 + [sep] + b, sep) == Split(a1 + [sep] + a2, sep) + Split(b, sep)
    decreases |a1| + |a2| + 1, 0
  {
    var rest := a2 + [sep] + b;
    assert a1 + [sep] + a2 + [sep] + b == a1 + [sep] + rest;
    calc {
      Split(a1 + [sep] + rest, sep);
      { SplitAtFirst(a1, rest, sep); }
      [a1] + Split(rest, sep);
      { SplitAppend(a2, b, sep); }
      [a1] + (Split(a2, sep) + Split(b, sep));
      ([a1] + Split(a2, sep)) + Split(b, sep);
      { SplitAtFirst(a1, a2, sep); }
      Split(a1 + [sep] + a2, sep) + Split(b, sep);
    }
  }

  /** Splitting at the first separator. */
  lemma SplitAtFirst(a: string, b: string, sep: char)
    requires sep !in a
    ensures Split(a + [sep] + b, sep) == [a] + Split(b, sep)
  {
    var s := a + [sep] + b;
    IndexOfAfter(a, b, sep);
    assert s[..|a|] == a;
    assert s[|a| + 1..] == b;
  }

  lemma {:induction false} IndexOfAfter(a: string, b: string, sep: char)
    requires sep !in a
    ensures sep in a + [sep] + b && IndexOf(a + [sep] + b, sep) == |a|
  {
    var s := a + [sep] + b;
    assert s[|a|] == sep;
  }

  predicate NoWhitespace(s: string) { forall i :: 0 <= i < |s| ==> !IsWhitespace(s[i]) }

  /** Rust's `str::split_whitespace`: the maximal runs of non-whitespace characters, in order. */
  function Fields(s: string): (fields: seq<string>)
    ensures forall i :: 0 <= i < |fields| ==> fields[i] != [] && NoWhitespace(fields[i])
    decreases |s|
  {
    if |s| == 0 then []
    else if IsWhitespace(s[0]) then Fields(s[1..])
    else
      var n := Span(s, NonSpace);
      [s[..n]] + Fields(s[n..])
  }

  /** Fields are recovered from their single-space join: `Fields` inverts `Join(_, ' ')`. */
  lemma {:induction false} FieldsOfJoin(fields: seq<string>)
    requires |fields| >= 1
    requires forall i :: 0 <= i < |fields| ==> fields[i] != [] && NoWhitespace(fields[i])
    ensures Fields(Join(fields, ' ')) == fields
  {
    var s := Join(fields, ' ');
    var f := fields[0];
    if |fields| == 1 {
      SpanOfPrefix(f, [], NonSpace);
      assert f + [] == f;
      assert s[|f|..] == [];
    } else {
      var tail := Join(fields[1..], ' ');
      assert s == f + ([' '] + tail);
      SpanOfPrefix(f, [' '] + tail, NonSpace);
      assert s[..|f|] == f;
      assert s[|f|..] == [' '] + tail;
      assert ([' '] + tail)[1..] == tail;
      FieldsOfJoin(fields[1..]);
    }
  }

  predicate AllWhitespace(s: string) { forall i :: 0 <= i < |s| ==> IsWhitespace(s[i]) }

  /** Whitespace before the fields is skipped, however long the run. */
  lemma {:induction false} FieldsSkipWhitespace(w: string, r: string)
    requires AllWhitespace(w)
    ensures Fields(w + r) == Fields(r)
    decreases |w|
  {
    if w == [] {
      assert w + r == r;
    } else {
      assert (w + r)[0] == w[0];
      assert (w + r)[1..] == w[1..] + r;
      FieldsSkipWhitespace(w[1..], r);
    }
  }

  /** A field that ends at the end of the text or at whitespace is taken whole. */
  lemma FieldsTakeField(f: string, r: string)
    requires f != [] && NoWhitespace(f)
    requires r == [] || IsWhitespace(r[0])
    ensures Fields(f + r) == [f] + Fields(r)
  {
    var s := f + r;
    SpanOfPrefix(f, r, NonSpace);
    assert s[0] == f[0];
    assert s[..|f|] == f;
    assert s[|f|..] == r;
  }

  /** A column padded with a run of whitespace of any length, as `ss` and `ip` print them:
      the field is the next one, and the fields of the rest follow. */
  lemma FieldsOfPadded(w: string, f: string, r: string)
    requires AllWhitespace(w)
    requires f != [] && NoWhitespace(f)
    requires r == [] || IsWhitespace(r[0])
    ensures Fields(w + f + r) == [f] + Fields(r)
  {
    assert w + f + r == w + (f + r);
    FieldsSkipWhitespace(w, f + r);
    FieldsTakeField(f, r);
  }

  /** A character of a prefix is a character of the whole. */
  lemma PrefixChars(a: string, b: string)
    requires a <= b
    ensures forall x :: x in a ==> x in b
  {
    forall x | x in a ensures x in b {
      var i :| 0 <= i < |a| && a[i] == x;
      assert b[i] == x;
    }
  }

  /** Cutting a slice out of a text adds no character. */
  lemma CutChars(s: string, i: nat, e: nat)
    requires i <= e <= |s|
    ensures forall x :: x in s[..i] + s[e..] ==> x in s
  {
    forall x | x in s[..i] + s[e..] ensures x in s {
      if x in s[..i] {
        var k :| 0 <= k < i && s[..i][k] == x;
        assert s[k] == x;
      } else {
        var k :| 0 <= k < |s| - e && s[e..][k] == x;
        assert s[e + k] == x;
      }
    }
  }

  /** Rust's `str::contains` with a string pattern. */
  predicate Contains(s: string, pattern: string) {
    exists i :: 0 <= i <= |s| - |pattern| && OccursAt(s, pattern, i)
  }

  predicate OccursAt(s: string, pattern: string, i: nat)
    requires i <= |s| - |pattern|
  {
    s[i..i + |pattern|] == pattern
  }
}
