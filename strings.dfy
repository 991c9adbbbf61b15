/** Text primitives of the two layers. Strings are sequences of Unicode scalar values, so a
    string's length is PHP's `mb_strlen` of its UTF-8 encoding. PHP and JavaScript disagree on
    what whitespace is, so each layer has its own whitespace predicate and its own trim. */
module Strings {

  import opened Wrappers

  /** The characters PHP's `trim` strips when given no character list: space, tab, line
      feed, carriage return, NUL and vertical tab. */
  predicate IsPhpSpace(c: char) {
    c == ' ' || c == '\t' || c == '\n' || c == '\r' || c == '\U{0}' || c == '\U{B}'
  }

  /** ECMAScript WhiteSpace and LineTerminator code points: what `String.prototype.trim`
      strips and what the regular-expression class `\s` matches. */
  predicate IsJsSpace(c: char) {
    || c == '\t' || c == '\n' || c == '\U{B}' || c == '\U{C}' || c == '\r' || c == ' '
    || c == '\U{A0}' || c == '\U{1680}' || ('\U{2000}' <= c <= '\U{200A}')
    || c == '\U{2028}' || c == '\U{2029}' || c == '\U{202F}' || c == '\U{205F}'
    || c == '\U{3000}' || c == '\U{FEFF}'
  }

  /** `s` without its leading characters in `ws`. */
  function TrimStart(s: string, ws: char -> bool): (r: string)
    ensures |r| <= |s|
  {
    if s != [] && ws(s[0]) then TrimStart(s[1..], ws) else s
  }

  /** `s` without its trailing characters in `ws`. */
  function TrimEnd(s: string, ws: char -> bool): (r: string)
    ensures |r| <= |s|
  {
    if s != [] && ws(s[|s| - 1]) then TrimEnd(s[..|s| - 1], ws) else s
  }

  /** `s` without leading and trailing characters in `ws`. */
  function Trim(s: string, ws: char -> bool): (r: string)
    ensures |r| <= |s|
  {
    TrimEnd(TrimStart(s, ws), ws)
  }

  /** `TrimStart` removes a prefix made only of characters in `ws` and stops at the first
      character outside it. */
  lemma {:induction false} TrimStartFacts(s: string, ws: char -> bool)
    ensures TrimStart(s, ws) == s[|s| - |TrimStart(s, ws)|..]
    ensures AllIn(s[..|s| - |TrimStart(s, ws)|], ws)
    ensures TrimStart(s, ws) == [] || !ws(TrimStart(s, ws)[0])
  {
    if s != [] && ws(s[0]) {
      TrimStartFacts(s[1..], ws);
      var n := |s| - |TrimStart(s, ws)|;
      assert s[..n] == [s[0]] + s[1..][..n - 1];
    }
  }

  /** `TrimEnd` removes a suffix made only of characters in `ws` and stops at the last
      character outside it. */
  lemma {:induction false} TrimEndFacts(s: string, ws: char -> bool)
    ensures TrimEnd(s, ws) == s[..|TrimEnd(s, ws)|]
    ensures AllIn(s[|TrimEnd(s, ws)|..], ws)
    ensures TrimEnd(s, ws) == [] || !ws(TrimEnd(s, ws)[|TrimEnd(s, ws)| - 1])
  {
    if s != [] && ws(s[|s| - 1]) {
      var t := s[..|s| - 1];
      TrimEndFacts(t, ws);
      var n := |TrimEnd(s, ws)|;
      assert s[n..] == t[n..] + [s[|s| - 1]];
    }
  }

  /** A trimmed string is empty or begins and ends outside `ws`. */
  lemma TrimEnds(s: string, ws: char -> bool)
    ensures IsTrimmed(Trim(s, ws), ws)
  {
    var a := TrimStart(s, ws);
    TrimStartFacts(s, ws);
    TrimEndFacts(a, ws);
    var r := TrimEnd(a, ws);
    if r != [] {
      assert r[0] == a[0];
    }
  }

  /** PHP's `trim($s)`. */
  function PhpTrim(s: string): string {
    Trim(s, IsPhpSpace)
  }

  /** JavaScript's `s.trim()`. */
  function JsTrim(s: string): string {
    Trim(s, IsJsSpace)
  }

  predicate AllIn(s: string, ws: char -> bool) {
    forall k :: 0 <= k < |s| ==> ws(s[k])
  }

  /** A string that trimming leaves alone: empty, or neither end in `ws`. */
  predicate IsTrimmed(s: string, ws: char -> bool) {
    s == [] || (!ws(s[0]) && !ws(s[|s| - 1]))
  }

  /** `Trim` cuts out a contiguous piece of `s`, and everything it cuts away is whitespace. */
  lemma TrimSlice(s: string, ws: char -> bool) returns (i: nat)
    ensures i + |Trim(s, ws)| <= |s| && Trim(s, ws) == s[i..i + |Trim(s, ws)|]
    ensures AllIn(s[..i], ws) && AllIn(s[i + |Trim(s, ws)|..], ws)
  {
    var a := TrimStart(s, ws);
    var r := TrimEnd(a, ws);
    TrimStartFacts(s, ws);
    TrimEndFacts(a, ws);
    i := |s| - |a|;
    assert a == s[i..];
    assert r == s[i..i + |r|];
    var tail := s[i + |r|..];
    assert tail == a[|r|..];
  }

  /** Trimming yields the empty string exactly when `s` is all whitespace. */
  lemma TrimEmpty(s: string, ws: char -> bool)
    ensures Trim(s, ws) == [] <==> AllIn(s, ws)
  {
    var i := TrimSlice(s, ws);
    if Trim(s, ws) == [] {
      forall k | 0 <= k < |s| ensures ws(s[k]) {
        if k < i {
          assert s[k] == s[..i][k];
        } else {
          assert s[k] == s[i..][k - i];
        }
      }
    } else {
      var r := Trim(s, ws);
      TrimEnds(s, ws);
      assert s[i] == r[0];
    }
  }

  /** Whitespace around a trimmed core is exactly what `Trim` removes. */
  lemma {:induction false} TrimPadded(pre: string, m: string, post: string, ws: char -> bool)
    requires AllIn(pre, ws) && AllIn(post, ws) && IsTrimmed(m, ws)
    ensures Trim(pre + m + post, ws) == m
  {
    var s := pre + m + post;
    if m == [] {
      assert AllIn(s, ws) by {
        forall k | 0 <= k < |s| ensures ws(s[k]) {
          if k < |pre| { assert s[k] == pre[k]; } else { assert s[k] == post[k - |pre|]; }
        }
      }
      TrimEmpty(s, ws);
    } else {
      TrimStartPadded(pre, m + post, ws);
      assert s == pre + (m + post);
      TrimEndPadded(m, post, ws);
    }
  }

  lemma {:induction false} TrimStartPadded(pre: string, rest: string, ws: char -> bool)
    requires AllIn(pre, ws) && rest != [] && !ws(rest[0])
    ensures TrimStart(pre + rest, ws) == rest
  {
    if pre == [] {
      assert pre + rest == rest;
    } else {
      assert (pre + rest)[1..] == pre[1..] + rest;
      TrimStartPadded(pre[1..], rest, ws);
    }
  }

  lemma {:induction false} TrimEndPadded(rest: string, post: string, ws: char -> bool)
    requires AllIn(post, ws) && rest != [] && !ws(rest[|rest| - 1])
    ensures TrimEnd(rest + post, ws) == rest
  {
    if post == [] {
      assert rest + post == rest;
    } else {
      var s := rest + post;
      assert s[..|s| - 1] == rest + post[..|post| - 1];
      TrimEndPadded(rest, post[..|post| - 1], ws);
    }
  }

  /** Trimming twice is trimming once. */
  lemma TrimIdempotent(s: string, ws: char -> bool)
    ensures Trim(Trim(s, ws), ws) == Trim(s, ws)
  {
    var r := Trim(s, ws);
    TrimEnds(s, ws);
    assert [] + r + [] == r;
    TrimPadded([], r, [], ws);
  }

  /** `p` occurs in `s` starting at position `k`. */
  predicate OccursAt(s: string, p: string, k: int) {
    0 <= k && k + |p| <= |s| && s[k..k + |p|] == p
  }

  predicate StartsWith(s: string, p: string) {
    |p| <= |s| && s[..|p|] == p
  }

  predicate Contains(s: string, p: string) {
    exists k | 0 <= k <= |s| :: OccursAt(s, p, k)
  }

  /** The first position at or after `from` where `p` occurs in `s` (`indexOf(p, from)`). */
  function IndexOf(s: string, p: string, from: nat): (r: Option<nat>)
    decreases |s| - from
    ensures r.Some? ==> from <= r.value && r.value + |p| <= |s|
  {
    if from + |p| > |s| then None
    else if s[from..from + |p|] == p then Some(from)
    else IndexOf(s, p, from + 1)
  }

  /** `IndexOf` returns an occurrence with none before it, or nothing when there is none. */
  lemma {:induction false} IndexOfSpec(s: string, p: string, from: nat)
    decreases |s| - from
    ensures IndexOf(s, p, from).Some? ==> OccursAt(s, p, IndexOf(s, p, from).value)
    ensures IndexOf(s, p, from).Some? ==> forall j :: from <= j < IndexOf(s, p, from).value ==> !OccursAt(s, p, j)
    ensures IndexOf(s, p, from).None? ==> forall j :: from <= j ==> !OccursAt(s, p, j)
  {
    if from + |p| <= |s| && s[from..from + |p|] != p {
      IndexOfSpec(s, p, from + 1);
    }
  }

  /** `IndexOf` finds an occurrence exactly when it is the first one at or after `from`. */
  lemma IndexOfFirst(s: string, p: string, from: nat, k: nat)
    requires from <= k && OccursAt(s, p, k)
    requires forall j :: from <= j < k ==> !OccursAt(s, p, j)
    ensures IndexOf(s, p, from) == Some(k)
  {
    IndexOfSpec(s, p, from);
  }

  /** `implode($sep, $parts)` and `parts.join(sep)`. */
  function Join(parts: seq<string>, sep: string): (r: string)
    ensures parts == [] ==> r == ""
    ensures |parts| == 1 ==> r == parts[0]
  {
    if parts == [] then ""
    else if |parts| == 1 then parts[0]
    else parts[0] + sep + Join(parts[1..], sep)
  }

  predicate IsDigit(c: char) {
    '0' <= c <= '9'
  }

  function DigitChar(d: nat): (c: char)
    requires d < 10
    ensures IsDigit(c)
  {
    (('0' as int) + d) as char
  }

  function DigitValue(c: char): nat
    requires IsDigit(c)
  {
    (c as int) - ('0' as int)
  }

  predicate AllDigits(s: string) {
    forall k :: 0 <= k < |s| ==> IsDigit(s[k])
  }

  /** The value of a string of decimal digits. */
  function ParseDigits(s: string): nat
    requires AllDigits(s)
  {
    if s == [] then 0 else ParseDigits(s[..|s| - 1]) * 10 + DigitValue(s[|s| - 1])
  }

  /** The decimal form of `n`, as JavaScript's `String(n)` and PHP's string conversion write a
      non-negative integer: no sign, no leading zeros. */
  function NatToString(n: nat): (r: string)
    ensures r != [] && AllDigits(r)
    ensures ParseDigits(r) == n
    ensures |r| == if n < 10 then 1 else if n < 100 then 2 else if n < 1000 then 3 else |r|
    ensures 1000 <= n < 10000 ==> |r| == 4
  {
    if n < 10 then [DigitChar(n)]
    else
      var r := NatToString(n / 10) + [DigitChar(n % 10)];
      assert r[..|r| - 1] == NatToString(n / 10);
      r
  }

  /** `s.padStart(width, fill)`: `s` preceded by enough copies of `fill` to reach `width`. */
  function PadStart(s: string, width: nat, fill: char): (r: string)
    ensures |r| == if |s| < width then width else |s|
    ensures r[|r| - |s|..] == s
    ensures forall k :: 0 <= k < |r| - |s| ==> r[k] == fill
  {
    if |s| < width then seq(width - |s|, _ => fill) + s else s
  }

  /** Leading zeros do not change the value of a digit string. */
  lemma {:induction false} ParseDigitsLeadingZeros(zeros: string, s: string)
    requires (forall k :: 0 <= k < |zeros| ==> zeros[k] == '0') && AllDigits(s)
    ensures AllDigits(zeros + s) && ParseDigits(zeros + s) == ParseDigits(s)
  {
    var t := zeros + s;
    assert AllDigits(t) by {
      forall k | 0 <= k < |t| ensures IsDigit(t[k]) {
        if k < |zeros| { assert t[k] == zeros[k]; } else { assert t[k] == s[k - |zeros|]; }
      }
    }
    if s == [] {
      assert t == zeros;
      if zeros != [] {
        assert zeros[..|zeros| - 1] + [] == zeros[..|zeros| - 1];
        ParseDigitsLeadingZeros(zeros[..|zeros| - 1], []);
      }
    } else {
      assert t[..|t| - 1] == zeros + s[..|s| - 1];
      ParseDigitsLeadingZeros(zeros, s[..|s| - 1]);
    }
  }

  /** Padding a decimal numeral with zeros keeps its digits' value. */
  lemma PadStartValue(n: nat, width: nat)
    ensures AllDigits(PadStart(NatToString(n), width, '0'))
    ensures ParseDigits(PadStart(NatToString(n), width, '0')) == n
  {
    var s := NatToString(n);
    var r := PadStart(s, width, '0');
    var zeros := r[..|r| - |s|];
    assert r == zeros + s;
    ParseDigitsLeadingZeros(zeros, s);
  }
}
