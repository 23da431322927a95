/** The handful of Python `str` operations the modelled code relies on:
    `strip`, `upper`, `lower`, `isupper`, `isdigit`, `split(sep)`, `join`,
    `startswith`, `in`, `replace` and `str(n)` for a natural number.
    Character classes are those of ASCII. */
module Text {
  import opened Wrappers

  /** `c.isspace()` for the ASCII range: blank, tab, the line breaks
      `\n`, `\v`, `\f`, `\r`, and the separators `\x1c` to `\x1f`. */
  predicate IsSpace(c: char) {
    c == ' ' || c == '\t' || c == '\n' || c == '\r' || c == '\U{B}' || c == '\U{C}'
    || ('\U{1C}' <= c <= '\U{1F}')
  }

  predicate IsLowerChar(c: char) { 'a' <= c <= 'z' }

  predicate IsUpperChar(c: char) { 'A' <= c <= 'Z' }

  /** A character with a case, the ones `isupper` and `islower` look at. */
  predicate IsCased(c: char) { IsLowerChar(c) || IsUpperChar(c) }

  predicate IsDigitChar(c: char) { '0' <= c <= '9' }

  function UpperChar(c: char): (r: char)
    ensures !IsLowerChar(r)
    ensures IsCased(r) <==> IsCased(c)
    ensures !IsLowerChar(c) ==> r == c
  {
    if IsLowerChar(c) then (c as int - 32) as char else c
  }

  function LowerChar(c: char): (r: char)
    ensures !IsUpperChar(r)
    ensures !IsUpperChar(c) ==> r == c
  {
    if IsUpperChar(c) then (c as int + 32) as char else c
  }

  /** `s.upper()`. */
  function Upper(s: string): (r: string)
    ensures |r| == |s|
    ensures forall i :: 0 <= i < |s| ==> r[i] == UpperChar(s[i])
  {
    seq(|s|, i requires 0 <= i < |s| => UpperChar(s[i]))
  }

  /** `s.lower()`. */
  function Lower(s: string): (r: string)
    ensures |r| == |s|
    ensures forall i :: 0 <= i < |s| ==> r[i] == LowerChar(s[i])
  {
    seq(|s|, i requires 0 <= i < |s| => LowerChar(s[i]))
  }

  /** `s.isupper()`: at least one cased character and no lower-case one. */
  predicate IsUpper(s: string) {
    (exists i :: 0 <= i < |s| && IsCased(s[i])) && forall i :: 0 <= i < |s| ==> !IsLowerChar(s[i])
  }

  /** `s.lstrip()`: drops the leading whitespace and nothing else. */
  function StripStart(s: string): (r: string)
    ensures |r| <= |s| && r == s[|s| - |r|..]
    ensures r == [] || !IsSpace(r[0])
    ensures forall k :: 0 <= k < |s| - |r| ==> IsSpace(s[k])
  {
    if s != [] && IsSpace(s[0]) then StripStart(s[1..]) else s
  }

  /** `s.rstrip()`: drops the trailing whitespace and nothing else. */
  function StripEnd(s: string): (r: string)
    ensures |r| <= |s| && r == s[..|r|]
    ensures r == [] || !IsSpace(r[|r| - 1])
    ensures forall k :: |r| <= k < |s| ==> IsSpace(s[k])
  {
    if s != [] && IsSpace(s[|s| - 1]) then StripEnd(s[..|s| - 1]) else s
  }

  /** `s.strip()`. */
  function Strip(s: string): (r: string)
    ensures r == [] || (!IsSpace(r[0]) && !IsSpace(r[|r| - 1]))
  {
    StripEnd(StripStart(s))
  }

  /** Stripping leaves nothing exactly when the text is all whitespace. */
  lemma StripBlank(s: string)
    ensures Strip(s) == [] <==> forall k :: 0 <= k < |s| ==> IsSpace(s[k])
  {
  }

  lemma {:induction false} StripIdempotent(s: string)
    ensures Strip(Strip(s)) == Strip(s)
  {
    var r := Strip(s);
    assert StripStart(r) == r;
    assert StripEnd(r) == r;
  }

  /** `sep` stands in `s` at index `i`. */
  predicate OccursAt(s: string, sep: string, i: int) {
    0 <= i && i + |sep| <= |s| && s[i..i + |sep|] == sep
  }

  /** `sep in s`. */
  predicate Contains(s: string, sep: string) {
    exists i :: 0 <= i <= |s| && OccursAt(s, sep, i)
  }

  /** `s.find(sep)`, with None for -1. */
  function Find(s: string, sep: string): (r: Option<nat>)
    requires |sep| > 0
    ensures r.Some? ==> OccursAt(s, sep, r.value)
    ensures r.Some? ==> forall j :: 0 <= j < r.value ==> !OccursAt(s, sep, j)
    ensures r.None? <==> !Contains(s, sep)
    decreases |s|
  {
    if |s| < |sep| then None
    else if s[..|sep|] == sep then assert OccursAt(s, sep, 0); Some(0)
    else match Find(s[1..], sep)
      case None =>
        assert forall j :: 1 <= j <= |s| ==> (OccursAt(s, sep, j) <==> OccursAt(s[1..], sep, j - 1));
        None
      case Some(k) =>
        assert forall j :: 1 <= j <= |s| ==> (OccursAt(s, sep, j) <==> OccursAt(s[1..], sep, j - 1));
        Some(k + 1)
  }

  /** `s.split(sep)` for a non-empty separator: the pieces between the
      non-overlapping occurrences of `sep`, scanning from the left. */
  function SplitOn(s: string, sep: string): (parts: seq<string>)
    requires |sep| > 0
    ensures |parts| >= 1
    decreases |s|
  {
    match Find(s, sep)
    case None => [s]
    case Some(i) => [s[..i]] + SplitOn(s[i + |sep|..], sep)
  }

  /** `sep.join(parts)`. */
  function Join(parts: seq<string>, sep: string): string {
    if parts == [] then ""
    else if |parts| == 1 then parts[0]
    else parts[0] + sep + Join(parts[1..], sep)
  }

  lemma JoinCons(head: string, tail: seq<string>, sep: string)
    requires |tail| >= 1
    ensures Join([head] + tail, sep) == head + sep + Join(tail, sep)
  {
    assert ([head] + tail)[1..] == tail;
  }

  /** One step of a split: the text before the first separator, the separator, the rest. */
  lemma SplitOnStep(s: string, sep: string, i: nat)
    requires |sep| > 0 && Find(s, sep) == Some(i)
    ensures i + |sep| <= |s|
    ensures SplitOn(s, sep) == [s[..i]] + SplitOn(s[i + |sep|..], sep)
    ensures s == s[..i] + sep + s[i + |sep|..]
  {
    Around(s, sep, i);
  }

  /** An occurrence cuts the text into the part before, itself, and the rest. */
  lemma Around(s: string, sep: string, i: nat)
    requires OccursAt(s, sep, i)
    ensures s == s[..i] + sep + s[i + |sep|..]
  {
    assert s[..i + |sep|] == s[..i] + sep;
    assert s == s[..i + |sep|] + s[i + |sep|..];
  }

  /** Splitting and joining again with the same separator gives back the text. */
  lemma {:induction false} JoinSplitOn(s: string, sep: string)
    requires |sep| > 0
    ensures Join(SplitOn(s, sep), sep) == s
    decreases |s|
  {
    var f := Find(s, sep);
    if f.Some? {
      var i := f.value;
      SplitOnStep(s, sep, i);
      var rest := s[i + |sep|..];
      JoinSplitOn(rest, sep);
      JoinCons(s[..i], SplitOn(rest, sep), sep);
    }
  }

  /** No piece of a split contains the separator. */
  lemma {:induction false} SplitOnPiecesLackSep(s: string, sep: string)
    requires |sep| > 0
    ensures forall p <- SplitOn(s, sep) :: !Contains(p, sep)
    decreases |s|
  {
    match Find(s, sep)
    case None =>
    case Some(i) =>
      SplitOnPiecesLackSep(s[i + |sep|..], sep);
      var head := s[..i];
      forall j | 0 <= j <= |head| ensures !OccursAt(head, sep, j) {
        if OccursAt(head, sep, j) {
          assert s[j..j + |sep|] == head[j..j + |sep|];
          assert OccursAt(s, sep, j);
        }
      }
  }

  /** `s.startswith(p)`. */
  predicate StartsWith(s: string, p: string) {
    |p| <= |s| && s[..|p|] == p
  }

  /** `s.replace(c, repl)` for a one-character pattern. */
  function ReplaceChar(s: string, c: char, repl: string): (r: string)
    ensures (forall k :: 0 <= k < |repl| ==> repl[k] != c) ==> forall k :: 0 <= k < |r| ==> r[k] != c
    ensures (forall k :: 0 <= k < |s| ==> s[k] != c) ==> r == s
  {
    if s == [] then ""
    else (if s[0] == c then repl else [s[0]]) + ReplaceChar(s[1..], c, repl)
  }

  /** Replacing `c` adds no character that neither the text nor the
      replacement holds. */
  lemma {:induction false} ReplaceCharKeepsAbsent(s: string, c: char, repl: string, d: char)
    requires d !in s && d !in repl
    ensures d !in ReplaceChar(s, c, repl)
  {
    if s != [] {
      assert s[0] != d && d !in s[1..];
      ReplaceCharKeepsAbsent(s[1..], c, repl, d);
    }
  }

  /** Replacing works piece by piece. */
  lemma {:induction false} ReplaceCharAppend(a: string, b: string, c: char, repl: string)
    ensures ReplaceChar(a + b, c, repl) == ReplaceChar(a, c, repl) + ReplaceChar(b, c, repl)
  {
    if a == [] {
      assert a + b == b;
    } else {
      assert (a + b)[0] == a[0];
      assert (a + b)[1..] == a[1..] + b;
      ReplaceCharAppend(a[1..], b, c, repl);
    }
  }

  /** A piece that does not contain the one-character separator `[c]`
      does not hold `c` at all. */
  lemma LacksChar(p: string, c: char)
    requires !Contains(p, [c])
    ensures c !in p
  {
    forall k | 0 <= k < |p| ensures p[k] != c {
      assert !OccursAt(p, [c], k);
      assert p[k..k + 1][0] == p[k];
    }
  }

  /** One separator between a piece without `c` and the rest. */
  lemma ReplaceAtSep(head: string, rest: string, c: char, repl: string)
    requires c !in head
    ensures ReplaceChar(head + [c] + rest, c, repl) == head + repl + ReplaceChar(rest, c, repl)
  {
    ReplaceCharAppend(head + [c], rest, c, repl);
    ReplaceCharAppend(head, [c], c, repl);
    assert ReplaceChar([c], c, repl) == repl + ReplaceChar([], c, repl);
  }

  /** Joining pieces free of `c` with `c` and then replacing `c` by
      `repl` is joining them with `repl`. */
  lemma {:induction false} ReplaceJoin(parts: seq<string>, c: char, repl: string)
    requires forall p <- parts :: c !in p
    ensures ReplaceChar(Join(parts, [c]), c, repl) == Join(parts, repl)
  {
    if |parts| == 1 {
      assert c !in parts[0];
    } else if |parts| > 1 {
      assert c !in parts[0];
      ReplaceJoin(parts[1..], c, repl);
      ReplaceAtSep(parts[0], Join(parts[1..], [c]), c, repl);
    }
  }

  function Digit(d: nat): (c: char)
    requires d < 10
    ensures IsDigitChar(c)
  {
    ('0' as int + d) as char
  }

  /** The literal `int` accepts after its sign: digits, with single
      underscores allowed between two digits. */
  predicate DigitRun(s: string) {
    s != [] && forall k :: 0 <= k < |s| ==> RunChar(s, k)
  }

  /** The character at `k` may stand in a digit run. */
  predicate RunChar(s: string, k: int)
    requires 0 <= k < |s|
  {
    IsDigitChar(s[k]) || (s[k] == '_' && 0 < k < |s| - 1 && IsDigitChar(s[k - 1]) && IsDigitChar(s[k + 1]))
  }

  predicate DigitsOrUnderscores(s: string) {
    forall k :: 0 <= k < |s| ==> IsDigitChar(s[k]) || s[k] == '_'
  }

  /** The decimal value of digits and underscores, the underscores skipped. */
  function DigitsValue(s: string): nat
    requires DigitsOrUnderscores(s)
  {
    if s == [] then 0
    else
      var c := s[|s| - 1];
      assert IsDigitChar(c) || c == '_';
      assert DigitsOrUnderscores(s[..|s| - 1]) by {
        assert forall k :: 0 <= k < |s| - 1 ==> s[..|s| - 1][k] == s[k];
      }
      if c == '_' then DigitsValue(s[..|s| - 1])
      else DigitsValue(s[..|s| - 1]) * 10 + (c as int - '0' as int)
  }

  /** A digit run read as a number. */
  function ParseDigits(b: string): (r: Option<nat>)
    ensures r.Some? <==> DigitRun(b)
  {
    if DigitRun(b) then
      DigitRunChars(b);
      Some(DigitsValue(b))
    else None
  }

  lemma DigitRunChars(b: string)
    requires DigitRun(b)
    ensures DigitsOrUnderscores(b)
  {
    forall k | 0 <= k < |b| ensures IsDigitChar(b[k]) || b[k] == '_' {
      assert RunChar(b, k);
    }
  }

  /** A stripped literal: an optional sign, then a digit run. */
  function ParseSigned(t: string): (r: Option<int>)
    ensures r.Some? ==> t != []
  {
    if t == [] then None
    else if t[0] == '-' then
      match ParseDigits(t[1..])
      case Some(v) => Some(-(v as int))
      case None => None
    else if t[0] == '+' then
      match ParseDigits(t[1..])
      case Some(v) => Some(v)
      case None => None
    else
      match ParseDigits(t)
      case Some(v) => Some(v)
      case None => None
  }

  /** `int(s)` for a string in base 10: surrounding whitespace is dropped,
      then an optional sign and a digit run; None where `int` raises
      `ValueError`, as for an empty or blank field. */
  function ParseInt(s: string): (r: Option<int>)
    ensures r.Some? ==> Strip(s) != []
  {
    ParseSigned(Strip(s))
  }

  /** `int(str(n)) == n`. */
  lemma ParseIntNatToString(n: nat)
    ensures ParseInt(NatToString(n)) == Some(n)
  {
    var d := NatToString(n);
    StripNoSpace(d);
    DigitsParse(n);
  }

  /** `int('-' + str(n)) == -n`. */
  lemma ParseIntNegative(n: nat)
    ensures ParseInt("-" + NatToString(n)) == Some(-(n as int))
  {
    var d := NatToString(n);
    DigitsParse(n);
    assert forall k :: 0 <= k < |d| ==> !IsSpace(d[k]);
    SignedNoSpace('-', d);
    NegativeParse(d, n);
  }

  lemma NegativeParse(d: string, n: nat)
    requires ParseDigits(d) == Some(n)
    ensures ParseSigned("-" + d) == Some(-(n as int))
  {
    assert ("-" + d)[1..] == d;
  }

  /** A sign before text without whitespace is not stripped away. */
  lemma SignedNoSpace(sign: char, d: string)
    requires !IsSpace(sign) && forall k :: 0 <= k < |d| ==> !IsSpace(d[k])
    ensures Strip([sign] + d) == [sign] + d
  {
    var s := [sign] + d;
    forall k | 0 <= k < |s| ensures !IsSpace(s[k]) {
      if k > 0 {
        assert s[k] == d[k - 1];
      }
    }
    StripNoSpace(s);
  }

  /** Spaces around the number are dropped: `int(' ' + str(n) + ' ') == n`. */
  lemma ParseIntPadded(n: nat)
    ensures ParseInt(" " + NatToString(n) + " ") == Some(n)
  {
    var d := NatToString(n);
    DigitsParse(n);
    assert forall k :: 0 <= k < |d| ==> !IsSpace(d[k]);
    StripPadded(d);
    StripNoSpace(d);
  }

  /** A leading plus sign is accepted: `int('+' + str(n)) == n`. */
  lemma ParseIntPlus(n: nat)
    ensures ParseInt("+" + NatToString(n)) == Some(n)
  {
    var d := NatToString(n);
    DigitsParse(n);
    assert forall k :: 0 <= k < |d| ==> !IsSpace(d[k]);
    SignedNoSpace('+', d);
    PlusParse(d, n);
  }

  lemma PlusParse(d: string, n: nat)
    requires ParseDigits(d) == Some(n)
    ensures ParseSigned("+" + d) == Some(n)
  {
    assert ("+" + d)[1..] == d;
  }

  lemma StripPadded(d: string)
    requires d != [] && forall k :: 0 <= k < |d| ==> !IsSpace(d[k])
    ensures Strip(" " + d + " ") == d
  {
    var s := " " + d + " ";
    assert s[1..] == d + " ";
    assert StripStart(s) == StripStart(d + " ") == d + " ";
    assert (d + " ")[..|d|] == d;
    assert StripEnd(d + " ") == StripEnd(d);
    StripNoSpace(d);
  }

  /** An unsigned literal with a character that may not stand in a digit
      run (anything but a digit or an underscore between two digits) makes
      `int` raise. */
  lemma ParseIntRejects(s: string, k: nat)
    requires forall j :: 0 <= j < |s| ==> !IsSpace(s[j])
    requires s != [] && IsDigitChar(s[0]) && k < |s| && !RunChar(s, k)
    ensures ParseInt(s) == None
  {
    StripNoSpace(s);
    BrokenRun(s, k);
    assert s[0] != '-' && s[0] != '+';
  }

  lemma BrokenRun(b: string, k: nat)
    requires k < |b| && !RunChar(b, k)
    ensures ParseDigits(b) == None
  {
  }

  /** A decimal point and a doubled underscore make `int` raise. */
  lemma ParseIntRejectsExamples()
    ensures ParseInt("4.5") == None
    ensures ParseInt("1__0") == None
  {
    var a, b := "4.5", "1__0";
    assert a[0] == '4' && a[1] == '.' && a[2] == '5';
    ParseIntRejects(a, 1);
    assert b[0] == '1' && b[1] == '_' && b[2] == '_' && b[3] == '0';
    ParseIntRejects(b, 1);
  }

  /** Text with no whitespace is its own strip. */
  lemma StripNoSpace(s: string)
    requires forall k :: 0 <= k < |s| ==> !IsSpace(s[k])
    ensures Strip(s) == s
  {
    assert StripStart(s) == s;
    assert StripEnd(s) == s;
  }

  /** The digits of `str(n)` read back as `n`. */
  lemma DigitsParse(n: nat)
    ensures ParseDigits(NatToString(n)) == Some(n)
    ensures NatToString(n)[0] != '-' && NatToString(n)[0] != '+'
  {
    var d := NatToString(n);
    assert DigitRun(d);
    assert IsDigitChar(d[0]);
    DigitsValueNatToString(n);
  }

  lemma {:induction false} DigitsValueNatToString(n: nat)
    ensures DigitsValue(NatToString(n)) == n
  {
    var s := NatToString(n);
    if n >= 10 {
      assert s[..|s| - 1] == NatToString(n / 10);
      DigitsValueNatToString(n / 10);
    } else {
      assert s[..0] == [];
    }
  }

  /** `str(n)` for a natural number. */
  function NatToString(n: nat): (r: string)
    ensures |r| > 0
    ensures forall k :: 0 <= k < |r| ==> IsDigitChar(r[k])
    ensures n < 10 <==> |r| == 1
  {
    if n < 10 then [Digit(n)] else NatToString(n / 10) + [Digit(n % 10)]
  }

  /** Distinct numbers print differently. */
  lemma {:induction false} NatToStringInjective(a: nat, b: nat)
    requires NatToString(a) == NatToString(b)
    ensures a == b
  {
    var sa, sb := NatToString(a), NatToString(b);
    if a >= 10 && b >= 10 {
      assert sa[|sa| - 1] == Digit(a % 10) && sb[|sb| - 1] == Digit(b % 10);
      assert sa[..|sa| - 1] == NatToString(a / 10);
      assert sb[..|sb| - 1] == NatToString(b / 10);
      NatToStringInjective(a / 10, b / 10);
    }
  }
}
