/**
  The string handling the application borrows from JavaScript: decimal rendering of a
  number inside a template literal, `parseInt` on a decimal segment, `String.prototype.split`
  with a one-character separator, and `String.prototype.trim`.
 */
module Text {

  import opened Seqs

  predicate IsDigit(c: char) {
    '0' <= c <= '9'
  }

  predicate AllDigits(s: string) {
    forall i :: 0 <= i < |s| ==> IsDigit(s[i])
  }

  /** The number a non-empty run of decimal digits denotes (most significant digit first). */
  function DecimalValue(s: string): nat
    requires AllDigits(s)
    decreases |s|
  {
    if |s| == 0 then 0
    else DecimalValue(s[..|s| - 1]) * 10 + (s[|s| - 1] as int - '0' as int)
  }

  /** How `${n}` renders a non-negative integer: its shortest decimal spelling. */
  function NatToString(n: nat): (r: string)
    ensures |r| >= 1
    ensures AllDigits(r)
    ensures DecimalValue(r) == n
    ensures n > 0 ==> r[0] != '0'
    decreases n
  {
    var digit := ('0' as int + n % 10) as char;
    if n < 10 then [digit]
    else
      var prefix := NatToString(n / 10);
      var r := prefix + [digit];
      assert r[..|r| - 1] == prefix;
      r
  }

  /** Rendering is injective: different numbers never print alike. */
  lemma NatToStringInjective(m: nat, n: nat)
    requires NatToString(m) == NatToString(n)
    ensures m == n
  {
    assert DecimalValue(NatToString(m)) == m;
  }

  /** The longest prefix of `s` made of decimal digits. */
  function LeadingDigits(s: string): (r: string)
    ensures |r| <= |s| && r == s[..|r|]
    ensures AllDigits(r)
    ensures |r| < |s| ==> !IsDigit(s[|r|])
  {
    if |s| == 0 || !IsDigit(s[0]) then []
    else
      var rest := LeadingDigits(s[1..]);
      [s[0]] + rest
  }

  /**
    `parseInt(s)` for a segment that starts with its digits: the value of the leading digits,
    or `None` (JavaScript's `NaN`, which equals nothing) when there are none.
   */
  function ParseLeadingInt(s: string): (r: Option<nat>)
    ensures r.None? <==> (|s| == 0 || !IsDigit(s[0]))
    ensures AllDigits(s) && |s| > 0 ==> r == Some(DecimalValue(s))
  {
    var digits := LeadingDigits(s);
    if |digits| == 0 then None
    else
      assert AllDigits(s) ==> digits == s;
      Some(DecimalValue(digits))
  }

  /** `s.split(sep)`: the pieces between occurrences of `sep`, always at least one. */
  function Split(s: string, sep: char): (r: seq<string>)
    ensures |r| >= 1
    decreases |s|
  {
    if |s| == 0 then [""]
    else if s[|s| - 1] == sep then Split(s[..|s| - 1], sep) + [""]
    else
      var pieces := Split(s[..|s| - 1], sep);
      pieces[..|pieces| - 1] + [pieces[|pieces| - 1] + [s[|s| - 1]]]
  }

  /** Text after the last separator is the last piece, and the pieces before it are unchanged. */
  lemma {:induction false} SplitLastPiece(a: string, sep: char, b: string)
    requires sep !in b
    ensures Split(a + [sep] + b, sep) == Split(a, sep) + [b]
    decreases |b|
  {
    var s := a + [sep] + b;
    if |b| == 0 {
      assert s[..|s| - 1] == a;
    } else {
      var b' := b[..|b| - 1];
      assert s[..|s| - 1] == a + [sep] + b';
      assert b' + [b[|b| - 1]] == b;
      SplitLastPiece(a, sep, b');
    }
  }

  /** Position of the first `c` in `s`, if any (`s.indexOf(c)`, with -1 as `None`). */
  function IndexOf(s: string, c: char): (r: Option<nat>)
    ensures r.Some? ==> r.value < |s| && s[r.value] == c && c !in s[..r.value]
    ensures r.None? <==> c !in s
  {
    if |s| == 0 then None
    else if s[0] == c then Some(0)
    else match IndexOf(s[1..], c)
      case None => None
      case Some(k) =>
        assert s[..k + 1] == [s[0]] + s[1..][..k];
        Some(k + 1)
  }

  /** In a separator-free head followed by the separator, the separator is found right after the head. */
  lemma {:induction false} IndexOfAfterHead(a: string, b: string, sep: char)
    requires sep !in a
    ensures IndexOf(a + [sep] + b, sep) == Some(|a|)
  {
    if |a| > 0 {
      assert (a + [sep] + b)[1..] == a[1..] + [sep] + b;
      IndexOfAfterHead(a[1..], b, sep);
    }
  }

  /**
    Two strings each made of a separator-free head, the separator, and a tail are equal only
    when heads and tails are: the first separator marks the boundary.
   */
  lemma SeparatedInjective(a1: string, b1: string, a2: string, b2: string, sep: char)
    requires sep !in a1 && sep !in a2
    requires a1 + [sep] + b1 == a2 + [sep] + b2
    ensures a1 == a2 && b1 == b2
  {
    var s := a1 + [sep] + b1;
    IndexOfAfterHead(a1, b1, sep);
    IndexOfAfterHead(a2, b2, sep);
    assert a1 == s[..|a1|] == a2;
    assert b1 == s[|a1| + 1..] == b2;
  }

  /**
    The characters `trim` removes: ECMAScript's WhiteSpace (tab, vertical tab, form feed,
    space, no-break space, byte-order mark and the other space separators) and
    LineTerminator (line feed, carriage return, line and paragraph separators).
   */
  predicate IsWhitespace(c: char) {
    || c == '\t' || c == '\n' || c == '\U{000B}' || c == '\U{000C}' || c == '\r' || c == ' '
    || c == '\U{00A0}' || c == '\U{1680}' || ('\U{2000}' <= c <= '\U{200A}')
    || c == '\U{2028}' || c == '\U{2029}' || c == '\U{202F}' || c == '\U{205F}' || c == '\U{3000}'
    || c == '\U{FEFF}'
  }

  /** Every character of `s` is whitespace (the empty string included). */
  predicate IsBlank(s: string) {
    forall i :: 0 <= i < |s| ==> IsWhitespace(s[i])
  }

  /** `s` without its leading whitespace: a suffix of `s`, starting at a non-blank character. */
  function TrimStart(s: string): (r: string)
    ensures |r| <= |s| && r == s[|s| - |r|..]
    ensures IsBlank(s[..|s| - |r|])
    ensures |r| > 0 ==> !IsWhitespace(r[0])
  {
    if |s| > 0 && IsWhitespace(s[0]) then
      var r := TrimStart(s[1..]);
      assert s[..|s| - |r|] == [s[0]] + s[1..][..|s[1..]| - |r|];
      r
    else s
  }

  /** `s` without its trailing whitespace: a prefix of `s`, ending at a non-blank character. */
  function TrimEnd(s: string): (r: string)
    ensures |r| <= |s| && r == s[..|r|]
    ensures IsBlank(s[|r|..])
    ensures |r| > 0 ==> !IsWhitespace(r[|r| - 1])
    decreases |s|
  {
    if |s| > 0 && IsWhitespace(s[|s| - 1]) then
      var r := TrimEnd(s[..|s| - 1]);
      assert s[|r|..] == s[..|s| - 1][|r|..] + [s[|s| - 1]];
      r
    else s
  }

  /**
    `s.trim()`: the slice of `s` left after removing a blank prefix and a blank suffix; empty
    exactly when `s` is blank, otherwise bounded by non-blank characters.
   */
  function Trim(s: string): (r: string)
    ensures exists a :: StripsAt(s, a, r)
    ensures r == "" <==> IsBlank(s)
    ensures |r| > 0 ==> !IsWhitespace(r[0]) && !IsWhitespace(r[|r| - 1])
  {
    TrimStrips(s);
    TrimEmptyIffBlank(s);
    TrimEnd(TrimStart(s))
  }

  /** Trimming the start and then the end strips a blank prefix and a blank suffix of `s`. */
  lemma TrimStrips(s: string)
    ensures StripsAt(s, |s| - |TrimStart(s)|, TrimEnd(TrimStart(s)))
  {
    var start := TrimStart(s);
    var r := TrimEnd(start);
    var a := |s| - |start|;
    assert start == s[a..];
    assert r == s[a..a + |r|];
    assert s[a + |r|..] == start[|r|..];
  }

  /** Both trims together leave nothing exactly when `s` is blank. */
  lemma TrimEmptyIffBlank(s: string)
    ensures TrimEnd(TrimStart(s)) == "" <==> IsBlank(s)
  {
    var start := TrimStart(s);
    var r := TrimEnd(start);
    assert r == "" && |start| > 0 ==> IsBlank(start);
    assert s == s[..|s| - |start|] + start;
  }

  /** `r` is `s` with the blank prefix `s[..a]` and a blank suffix removed. */
  predicate StripsAt(s: string, a: int, r: string) {
    0 <= a <= |s| - |r| && r == s[a..a + |r|] && IsBlank(s[..a]) && IsBlank(s[a + |r|..])
  }
}
