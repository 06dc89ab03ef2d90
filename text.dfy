/** The string functions of Rust's standard library that the interpreter relies on, written
    out: `char::is_whitespace` and `str::trim`, `i64::from_str` and `i64::to_string`,
    `str::len` (a UTF-8 byte count), `str::replace`, and the line handling of `read_line`. */
module Text {
  import opened Values

  /** Rust's `char::is_whitespace`: the Unicode White_Space property. */
  predicate IsWhitespace(c: char) {
    ('\U{9}' <= c <= '\U{D}') || c == ' ' || c == '\U{85}' || c == '\U{A0}' ||
    c == '\U{1680}' || ('\U{2000}' <= c <= '\U{200A}') || c == '\U{2028}' ||
    c == '\U{2029}' || c == '\U{202F}' || c == '\U{205F}' || c == '\U{3000}'
  }

  /** `str::trim_start`: drops the leading whitespace and nothing else. */
  function TrimStart(s: string): (r: string)
    ensures |r| <= |s| && r == s[|s| - |r|..]
    ensures r == [] || !IsWhitespace(r[0])
    ensures forall i :: 0 <= i < |s| - |r| ==> IsWhitespace(s[i])
  {
    if s != [] && IsWhitespace(s[0]) then TrimStart(s[1..]) else s
  }

  /** `str::trim_end`: drops the trailing whitespace and nothing else. */
  function TrimEnd(s: string): (r: string)
    ensures |r| <= |s| && r == s[..|r|]
    ensures r == [] || !IsWhitespace(r[|r| - 1])
    ensures forall i :: |r| <= i < |s| ==> IsWhitespace(s[i])
  {
    if s != [] && IsWhitespace(s[|s| - 1]) then TrimEnd(s[..|s| - 1]) else s
  }

  /** `str::trim`. */
  function Trim(s: string): (r: string)
    ensures r == [] || (!IsWhitespace(r[0]) && !IsWhitespace(r[|r| - 1]))
  {
    TrimEnd(TrimStart(s))
  }

  /** Trimming is idempotent: a trimmed string is its own trim. */
  lemma {:induction false} TrimIdempotent(s: string)
    ensures Trim(Trim(s)) == Trim(s)
  {
    var t := Trim(s);
    assert TrimStart(t) == t;
    if t != [] {
      assert !IsWhitespace(t[|t| - 1]);
    }
    assert TrimEnd(t) == t;
  }

  /** A string with no whitespace at either end survives any whitespace padding:
      `Trim(pre + s + post) == s`. */
  lemma {:induction false} TrimPadded(pre: string, s: string, post: string)
    requires forall i :: 0 <= i < |pre| ==> IsWhitespace(pre[i])
    requires forall i :: 0 <= i < |post| ==> IsWhitespace(post[i])
    requires s != [] && !IsWhitespace(s[0]) && !IsWhitespace(s[|s| - 1])
    ensures Trim(pre + s + post) == s
  {
    TrimStartPadded(pre, s + post);
    assert pre + s + post == pre + (s + post);
    TrimEndPadded(s, post);
  }

  /** A string with no whitespace at either end is its own trim. */
  lemma TrimUnpadded(s: string)
    requires s != [] && !IsWhitespace(s[0]) && !IsWhitespace(s[|s| - 1])
    ensures Trim(s) == s
  {
    TrimPadded("", s, "");
    assert "" + s + "" == s;
  }

  lemma {:induction false} TrimStartPadded(pre: string, t: string)
    requires forall i :: 0 <= i < |pre| ==> IsWhitespace(pre[i])
    requires t != [] && !IsWhitespace(t[0])
    ensures TrimStart(pre + t) == t
  {
    if pre != [] {
      assert (pre + t)[1..] == pre[1..] + t;
      TrimStartPadded(pre[1..], t);
    }
  }

  lemma {:induction false} TrimEndPadded(t: string, post: string)
    requires forall i :: 0 <= i < |post| ==> IsWhitespace(post[i])
    requires t != [] && !IsWhitespace(t[|t| - 1])
    ensures TrimEnd(t + post) == t
  {
    if post != [] {
      assert (t + post)[..|t + post| - 1] == t + post[..|post| - 1];
      TrimEndPadded(t, post[..|post| - 1]);
    } else {
      assert t + post == t;
    }
  }

  predicate IsDigit(c: char) {
    '0' <= c <= '9'
  }

  predicate AllDigits(s: string) {
    forall i :: 0 <= i < |s| ==> IsDigit(s[i])
  }

  /** The number a string of decimal digits denotes, most significant digit first. */
  function DigitsValue(s: string): nat
    requires AllDigits(s)
  {
    if s == [] then 0 else DigitsValue(s[..|s| - 1]) * 10 + (s[|s| - 1] as int - '0' as int)
  }

  /** `s.parse::<i64>()`: an optional `+` or `-`, then at least one ASCII digit and nothing
      else; a value outside the i64 range is an error (`None`), as is a lone sign. */
  function ParseI64(s: string): (r: Option<int>)
    ensures r.Some? ==> IsI64(r.value)
    ensures r.Some? ==> s != [] && (s[0] == '-' || s[0] == '+' || IsDigit(s[0]))
    ensures s == [] || s == "-" || s == "+" ==> r.None?
  {
    if s == [] then None
    else
      var negative := s[0] == '-';
      var digits := if s[0] == '-' || s[0] == '+' then s[1..] else s;
      if digits == [] || !AllDigits(digits) then None
      else
        var v: int := if negative then -(DigitsValue(digits) as int) else DigitsValue(digits);
        if IsI64(v) then Some(v) else None
  }

  /** A sign (`+`, `-` or none) followed by decimal digits is read as the number they denote,
      negated after `-`, when that number fits in an i64, and is rejected otherwise. */
  lemma ParseI64Signed(sign: string, d: string)
    requires sign == "" || sign == "-" || sign == "+"
    requires d != [] && AllDigits(d)
    ensures var n := if sign == "-" then -(DigitsValue(d) as int) else DigitsValue(d) as int;
            ParseI64(sign + d) == if IsI64(n) then Some(n) else None
  {
    var s := sign + d;
    if sign == "" {
      assert s == d;
      assert IsDigit(d[0]);
    } else {
      assert s[1..] == d;
    }
  }

  /** Any character that is not a digit, other than a sign in front, makes the parse fail:
      `"1x"`, `"12abc"`, `"--1"` and `" 1"` are all rejected. */
  lemma ParseI64Rejects(s: string, i: nat)
    requires i < |s| && !IsDigit(s[i])
    requires i > 0 || (s[0] != '-' && s[0] != '+')
    ensures ParseI64(s) == None
  {
    if s[0] == '-' || s[0] == '+' {
      assert s[1..][i - 1] == s[i];
    }
  }

  function DigitChar(d: nat): (c: char)
    requires d < 10
    ensures IsDigit(c) && c as int - '0' as int == d
  {
    ('0' as int + d) as char
  }

  /** The decimal digits of a natural number, without leading zeros. */
  function NatDigits(n: nat): (r: string)
    ensures r != [] && AllDigits(r)
    ensures DigitsValue(r) == n
  {
    if n < 10 then [DigitChar(n)]
    else
      var r := NatDigits(n / 10) + [DigitChar(n % 10)];
      assert r[..|r| - 1] == NatDigits(n / 10);
      r
  }

  /** `i64::to_string`: an optional minus sign and the decimal digits. */
  function DecimalString(n: int): (r: string)
    ensures r != []
    ensures r[0] == '-' <==> n < 0
  {
    if n < 0 then "-" + NatDigits(-n) else NatDigits(n)
  }

  /** Rendering an i64 in decimal and parsing it back gives the same number. */
  lemma {:induction false} ParseDecimalRoundTrip(n: int)
    requires IsI64(n)
    ensures ParseI64(DecimalString(n)) == Some(n)
  {
    var s := DecimalString(n);
    if n < 0 {
      assert s[1..] == NatDigits(-n);
    } else {
      assert !(s[0] == '-' || s[0] == '+') by {
        assert IsDigit(NatDigits(n)[0]);
      }
    }
  }

  /** Bytes of the UTF-8 encoding of one Unicode scalar value. */
  function Utf8Width(c: char): (w: nat)
    ensures 1 <= w <= 4
    ensures w == 1 <==> c as int < 0x80
  {
    if c as int < 0x80 then 1
    else if c as int < 0x800 then 2
    else if c as int < 0x1_0000 then 3
    else 4
  }

  /** `str::len`: the length in bytes of the UTF-8 encoding, not the number of characters. */
  function Utf8Len(s: string): (n: nat)
    ensures |s| <= n <= 4 * |s|
    ensures n == |s| <==> forall i :: 0 <= i < |s| ==> s[i] as int < 0x80
  {
    if s == [] then 0
    else
      var rest := Utf8Len(s[1..]);
      assert forall i :: 1 <= i < |s| ==> s[i] == s[1..][i - 1];
      Utf8Width(s[0]) + rest
  }

  /** `pat` occurs in `s` starting at position `i`. */
  predicate OccursAt(s: string, pat: string, i: nat) {
    i + |pat| <= |s| && s[i..i + |pat|] == pat
  }

  /** `str::replace(pat, rep)`: every non-overlapping occurrence of `pat`, leftmost first,
      replaced by `rep`. */
  function ReplaceAll(s: string, pat: string, rep: string): (r: string)
    requires pat != []
    ensures (forall i :: 0 <= i < |s| ==> !OccursAt(s, pat, i)) ==> r == s
    decreases |s|
  {
    if |s| < |pat| then s
    else if s[..|pat|] == pat then
      assert OccursAt(s, pat, 0);
      rep + ReplaceAll(s[|pat|..], pat, rep)
    else
      assert forall i :: 0 <= i < |s| - 1 && OccursAt(s[1..], pat, i) ==> OccursAt(s, pat, i + 1) by {
        forall i | 0 <= i < |s| - 1 && OccursAt(s[1..], pat, i) ensures OccursAt(s, pat, i + 1) {
          assert s[1..][i..i + |pat|] == s[i + 1..i + 1 + |pat|];
        }
      }
      [s[0]] + ReplaceAll(s[1..], pat, rep)
  }

  /** One step of the scan: an occurrence at the front is replaced and skipped; otherwise the
      first character is kept. */
  lemma ReplaceAllStep(s: string, pat: string, rep: string)
    requires pat != [] && s != []
    ensures OccursAt(s, pat, 0) ==> ReplaceAll(s, pat, rep) == rep + ReplaceAll(s[|pat|..], pat, rep)
    ensures !OccursAt(s, pat, 0) ==> ReplaceAll(s, pat, rep) == [s[0]] + ReplaceAll(s[1..], pat, rep)
  {
  }

  /** Dropping the first character of `u` keeps `pat` from occurring before the `pat` that
      follows `u`. */
  lemma NoEarlierOccurrence(u: string, w: string, pat: string)
    requires u != []
    requires forall i :: 0 <= i < |u| ==> !OccursAt(u + pat + w, pat, i)
    ensures (u + pat + w)[1..] == u[1..] + pat + w
    ensures !OccursAt(u + pat + w, pat, 0)
    ensures forall i :: 0 <= i < |u[1..]| ==> !OccursAt(u[1..] + pat + w, pat, i)
  {
    var s := u + pat + w;
    var s1 := u[1..] + pat + w;
    assert s[1..] == s1;
    forall i | 0 <= i < |u[1..]| ensures !OccursAt(s1, pat, i) {
      assert !OccursAt(s, pat, i + 1);
      assert s[i + 1..i + 1 + |pat|] == s1[i..i + |pat|];
    }
  }

  /** The leftmost occurrence is replaced first, and the scan resumes after it: when `pat`
      first occurs in `u + pat + w` right after `u`, the result is `u`, then `rep`, then `w`
      with its own occurrences replaced. With the identity on text without an occurrence,
      this pins down every result. */
  lemma {:induction false} ReplaceAllLeftmost(u: string, w: string, pat: string, rep: string)
    requires pat != []
    requires forall i :: 0 <= i < |u| ==> !OccursAt(u + pat + w, pat, i)
    ensures ReplaceAll(u + pat + w, pat, rep) == u + rep + ReplaceAll(w, pat, rep)
    decreases |u|
  {
    var s := u + pat + w;
    ReplaceAllStep(s, pat, rep);
    if u == [] {
      assert s == pat + w && s[..|pat|] == pat && s[|pat|..] == w;
    } else {
      var s1 := u[1..] + pat + w;
      NoEarlierOccurrence(u, w, pat);
      ReplaceAllLeftmost(u[1..], w, pat, rep);
      var tail := ReplaceAll(w, pat, rep);
      calc {
        ReplaceAll(s, pat, rep);
        [u[0]] + ReplaceAll(s1, pat, rep);
        [u[0]] + (u[1..] + rep + tail);
        { assert u == [u[0]] + u[1..]; }
        u + rep + tail;
      }
    }
  }

  predicate NoBackslash(s: string) {
    forall i :: 0 <= i < |s| ==> s[i] != '\\'
  }

  /** Text without a backslash holds no two-character escape. */
  lemma NoBackslashNoEscape(s: string, x: char)
    requires NoBackslash(s)
    ensures forall i :: 0 <= i < |s| ==> !OccursAt(s, ['\\', x], i)
  {
    forall i | 0 <= i < |s| ensures !OccursAt(s, ['\\', x], i) {
      if i + 2 <= |s| {
        assert s[i..i + 2][0] == s[i];
      }
    }
  }

  /** A suffix of text without a given two-character string has none either. */
  lemma AbsentInSuffix(s: string, esc: string, k: nat)
    requires |esc| == 2 && k <= |s|
    requires forall i :: 0 <= i < |s| ==> !OccursAt(s, esc, i)
    ensures forall i :: 0 <= i < |s[k..]| ==> !OccursAt(s[k..], esc, i)
  {
    forall i | 0 <= i < |s[k..]| ensures !OccursAt(s[k..], esc, i) {
      assert !OccursAt(s, esc, i + k);
      if i + 2 <= |s[k..]| { assert s[k..][i..i + 2] == s[i + k..i + k + 2]; }
    }
  }

  /** Putting a character `h` in front of text without `esc` creates no `esc` unless `h` and
      the text's first character form it. */
  lemma AbsentAfterCons(h: char, t: string, esc: string)
    requires |esc| == 2
    requires forall i :: 0 <= i < |t| ==> !OccursAt(t, esc, i)
    requires !(h == esc[0] && t != [] && t[0] == esc[1])
    ensures forall i :: 0 <= i < |[h] + t| ==> !OccursAt([h] + t, esc, i)
  {
    var r := [h] + t;
    forall i | 0 <= i < |r| ensures !OccursAt(r, esc, i) {
      if i > 0 {
        assert !OccursAt(t, esc, i - 1);
        if i + 2 <= |r| { assert r[i..i + 2] == t[i - 1..i + 1]; }
      } else if 2 <= |r| {
        assert r[..2] == [h, t[0]];
      }
    }
  }

  /** Joining text without backslashes around a character that is not one gives text without
      backslashes. */
  lemma NoBackslashJoin(a: string, c: char, b: string)
    requires NoBackslash(a) && NoBackslash(b) && c != '\\'
    ensures NoBackslash(a + [c] + b)
  {
    var s := a + [c] + b;
    forall i | 0 <= i < |s| ensures s[i] != '\\' {
      if i < |a| { assert s[i] == a[i]; }
      else if i > |a| { assert s[i] == b[i - |a| - 1]; }
    }
  }

  /** In `a + \x + b`, with no backslash in `a` or `b`, the one escape is the `\x` after `a`. */
  lemma OneEscape(a: string, b: string, x: char, y: char)
    requires NoBackslash(a) && NoBackslash(b) && x != '\\' && x != y
    ensures forall i :: 0 <= i < |a| ==> !OccursAt(a + ['\\', x] + b, ['\\', x], i)
    ensures forall i :: 0 <= i < |a + ['\\', x] + b| ==> !OccursAt(a + ['\\', x] + b, ['\\', y], i)
  {
    var s := a + ['\\', x] + b;
    forall i | 0 <= i < |s| && i != |a| ensures s[i] != '\\' {
      if i < |a| { assert s[i] == a[i]; }
      else if i > |a| + 1 { assert s[i] == b[i - |a| - 2]; }
    }
    assert s[|a| + 1] == x;
    forall i | 0 <= i < |s| ensures !OccursAt(s, ['\\', y], i) && (i < |a| ==> !OccursAt(s, ['\\', x], i)) {
      if i + 2 <= |s| {
        assert s[i..i + 2] == [s[i], s[i + 1]];
      }
    }
  }

  /** Replacing the escape `\x` by a character `c` that is neither a backslash nor `y` creates
      no `\y` escape where there was none. */
  lemma {:induction false} ReplaceKeepsEscapeFree(s: string, x: char, y: char, c: char)
    requires x != '\\' && c != '\\' && c != y
    requires forall i :: 0 <= i < |s| ==> !OccursAt(s, ['\\', y], i)
    ensures forall i :: 0 <= i < |ReplaceAll(s, ['\\', x], [c])| ==> !OccursAt(ReplaceAll(s, ['\\', x], [c]), ['\\', y], i)
    decreases |s|
  {
    var pat := ['\\', x];
    var esc := ['\\', y];
    if |s| >= 2 {
      var k := if s[..2] == pat then 2 else 1;
      AbsentInSuffix(s, esc, k);
      ReplaceKeepsEscapeFree(s[k..], x, y, c);
      var t := ReplaceAll(s[k..], pat, [c]);
      var h := if k == 2 then c else s[0];
      assert ReplaceAll(s, pat, [c]) == [h] + t;
      if k == 1 && s[0] == '\\' {
        ReplaceHead(s[1..], pat, c);
        assert !OccursAt(s, esc, 0);
        assert s[..2] == [s[0], s[1]];
      }
      AbsentAfterCons(h, t, esc);
    }
  }

  /** Replacing the two-character escape `\x` by a single character `c` that is neither a
      backslash nor `x` leaves no `\x` behind. */
  lemma {:induction false} ReplaceEscapeComplete(s: string, x: char, c: char)
    requires x != '\\' && c != '\\' && c != x
    ensures forall i :: 0 <= i < |ReplaceAll(s, ['\\', x], [c])| ==> !OccursAt(ReplaceAll(s, ['\\', x], [c]), ['\\', x], i)
    decreases |s|
  {
    var pat := ['\\', x];
    var r := ReplaceAll(s, pat, [c]);
    if |s| < 2 {
    } else if s[..2] == pat {
      var t := ReplaceAll(s[2..], pat, [c]);
      ReplaceEscapeComplete(s[2..], x, c);
      assert r == [c] + t;
      forall i | 0 <= i < |r| ensures !OccursAt(r, pat, i) {
        if i > 0 {
          assert OccursAt(r, pat, i) ==> OccursAt(t, pat, i - 1) by {
            if OccursAt(r, pat, i) { assert r[i..i + 2] == t[i - 1..i + 1]; }
          }
        } else {
          assert r[0] == c;
        }
      }
    } else {
      var t := ReplaceAll(s[1..], pat, [c]);
      ReplaceEscapeComplete(s[1..], x, c);
      assert r == [s[0]] + t;
      forall i | 0 <= i < |r| ensures !OccursAt(r, pat, i) {
        if i > 0 {
          assert OccursAt(r, pat, i) ==> OccursAt(t, pat, i - 1) by {
            if OccursAt(r, pat, i) { assert r[i..i + 2] == t[i - 1..i + 1]; }
          }
        } else {
          // When s[0] is a backslash, s[1] is not x; t starts with s[1] or with c.
          ReplaceHead(s[1..], pat, c);
        }
      }
    }
  }

  /** The first character of `ReplaceAll(s, pat, [c])` is `c` or `s[0]`. */
  lemma ReplaceHead(s: string, pat: string, c: char)
    requires |pat| == 2 && s != []
    ensures ReplaceAll(s, pat, [c]) != []
    ensures ReplaceAll(s, pat, [c])[0] == (if OccursAt(s, pat, 0) then c else s[0])
  {
  }

  /** `s.ends_with(c)`. */
  predicate EndsWith(s: string, c: char) {
    s != [] && s[|s| - 1] == c
  }

  /** `trim_end_matches(|c| c == '\n' || c == '\r')`: every trailing CR and LF removed. */
  function TrimLineEnd(s: string): (r: string)
    ensures |r| <= |s| && r == s[..|r|]
    ensures !EndsWith(r, '\n') && !EndsWith(r, '\r')
    ensures forall i :: |r| <= i < |s| ==> s[i] == '\n' || s[i] == '\r'
  {
    if EndsWith(s, '\n') || EndsWith(s, '\r') then TrimLineEnd(s[..|s| - 1]) else s
  }

  /** `BufRead::read_line` on the remaining input: everything up to and including the first
      newline, or all of it when there is none; the rest stays unread. */
  function ReadLine(input: string): (r: (string, string))
    ensures r.0 + r.1 == input
    ensures forall i :: 0 <= i < |r.0| - 1 ==> r.0[i] != '\n'
    ensures EndsWith(r.0, '\n') || r.1 == []
  {
    if input == [] then ([], [])
    else if input[0] == '\n' then ([input[0]], input[1..])
    else
      var (line, rest) := ReadLine(input[1..]);
      ([input[0]] + line, rest)
  }

  /** The trimming of `shell` output: one trailing `\n`, then one `\r` before it. */
  function TrimShellOutput(out: string): (r: string)
    ensures |r| <= |out| && r == out[..|r|]
    ensures !EndsWith(out, '\n') ==> r == out
    ensures EndsWith(out, '\n') ==>
              (r == out[..|out| - 1] && !EndsWith(r, '\r')) ||
              (|out| >= 2 && r == out[..|out| - 2] && out[|out| - 2] == '\r')
  {
    if EndsWith(out, '\n') then
      var once := out[..|out| - 1];
      if EndsWith(once, '\r') then once[..|once| - 1] else once
    else out
  }

  /** A line ending of either kind after the output is what the trimming takes off. */
  lemma TrimShellOutputLineEnd(t: string)
    ensures TrimShellOutput(t + "\r\n") == t
    ensures !EndsWith(t, '\r') ==> TrimShellOutput(t + "\n") == t
  {
    assert (t + "\r\n")[..|t| + 1] == t + "\r";
    assert (t + "\r")[..|t|] == t;
    assert (t + "\n")[..|t|] == t;
  }
}
