/** The handful of Python `str` operations the scripts rely on, written out on
    `seq<char>`: `isspace`, `strip`/`lstrip`, `split(sep)`, `split()`, `join`,
    `in`, `startswith`, `replace`, `isdigit`, `lower`, `str(int)` and `int(str)`. */
module PyStr {
  import opened Wrappers

  /** The characters for which Python's `str.isspace()` holds (these are also
      what `\s` matches in a `re` pattern on `str`). */
  predicate IsSpace(c: char) {
    c == ' ' || ('\t' <= c <= '\r') || ('\U{1c}' <= c <= '\U{1f}') ||
    c == '\U{85}' || c == '\U{a0}' || c == '\U{1680}' || ('\U{2000}' <= c <= '\U{200a}') ||
    c == '\U{2028}' || c == '\U{2029}' || c == '\U{202f}' || c == '\U{205f}' || c == '\U{3000}'
  }

  predicate IsAsciiDigit(c: char) {
    '0' <= c <= '9'
  }

  // ---------------------------------------------------------------------------
  // strip

  /** `s.lstrip()`.  Its properties are in `LStripSpec`, kept out of the
      postcondition so that `Strip` inside a quantifier stays cheap. */
  function LStrip(s: string): string {
    if |s| > 0 && IsSpace(s[0]) then LStrip(s[1..]) else s
  }

  /** `s.lstrip()` drops the leading whitespace and nothing else. */
  lemma {:induction false} LStripSpec(s: string)
    ensures |LStrip(s)| <= |s| && LStrip(s) == s[|s| - |LStrip(s)|..]
    ensures LStrip(s) == [] || !IsSpace(LStrip(s)[0])
    ensures forall k :: 0 <= k < |s| - |LStrip(s)| ==> IsSpace(s[k])
  {
    if |s| > 0 && IsSpace(s[0]) {
      LStripSpec(s[1..]);
      forall k | 0 <= k < |s| - |LStrip(s)| ensures IsSpace(s[k]) {
        if k > 0 {
          assert s[k] == s[1..][k - 1];
        }
      }
    }
  }

  /** `s.rstrip()`; its properties are in `RStripSpec`. */
  function RStrip(s: string): string {
    if |s| > 0 && IsSpace(s[|s| - 1]) then RStrip(s[..|s| - 1]) else s
  }

  /** `s.rstrip()` drops the trailing whitespace and nothing else. */
  lemma {:induction false} RStripSpec(s: string)
    ensures |RStrip(s)| <= |s| && RStrip(s) == s[..|RStrip(s)|]
    ensures RStrip(s) == [] || !IsSpace(RStrip(s)[|RStrip(s)| - 1])
    ensures forall k :: |RStrip(s)| <= k < |s| ==> IsSpace(s[k])
  {
    if |s| > 0 && IsSpace(s[|s| - 1]) {
      RStripSpec(s[..|s| - 1]);
      forall k | |RStrip(s)| <= k < |s| ensures IsSpace(s[k]) {
        if k < |s| - 1 {
          assert s[k] == s[..|s| - 1][k];
        }
      }
    }
  }

  /** `s.strip()`. */
  function Strip(s: string): string {
    RStrip(LStrip(s))
  }

  /** The stripped string is a slice of the input with whitespace only around it. */
  lemma StripIsSlice(s: string)
    ensures exists i, j :: (0 <= i <= j <= |s| && Strip(s) == s[i..j] &&
      (forall k :: 0 <= k < i ==> IsSpace(s[k])) && (forall k :: j <= k < |s| ==> IsSpace(s[k])))
    ensures Strip(s) == [] || (!IsSpace(Strip(s)[0]) && !IsSpace(Strip(s)[|Strip(s)| - 1]))
  {
    var l := LStrip(s);
    LStripSpec(s);
    RStripSpec(l);
    var i := |s| - |l|;
    var j := i + |RStrip(l)|;
    assert Strip(s) == s[i..j];
    forall k | j <= k < |s| ensures IsSpace(s[k]) {
      assert s[k] == l[k - i];
    }
    if Strip(s) != [] {
      assert Strip(s)[|Strip(s)| - 1] == RStrip(l)[|RStrip(l)| - 1];
      assert Strip(s)[0] == l[0];
    }
  }

  /** A string that strips to nothing is all whitespace. */
  lemma StripEmpty(s: string)
    requires Strip(s) == ""
    ensures forall k :: 0 <= k < |s| ==> IsSpace(s[k])
  {
    LStripSpec(s);
    RStripSpec(LStrip(s));
  }

  /** A string with no whitespace at either end is its own strip. */
  lemma StripNoop(s: string)
    requires s == [] || (!IsSpace(s[0]) && !IsSpace(s[|s| - 1]))
    ensures Strip(s) == s
  {
  }

  /** Stripping twice is stripping once. */
  lemma StripIdempotent(s: string)
    ensures Strip(Strip(s)) == Strip(s)
  {
    StripIsSlice(s);
    StripNoop(Strip(s));
  }

  /** Putting a string with no whitespace at its ends before one that ends in
      no whitespace leaves nothing to strip. */
  lemma StripConcat(p: string, u: string)
    requires p != [] && !IsSpace(p[0]) && !IsSpace(p[|p| - 1])
    requires u == [] || !IsSpace(u[|u| - 1])
    ensures Strip(p + u) == p + u
  {
    var r := p + u;
    assert r[0] == p[0];
    assert r[|r| - 1] == if u == [] then p[|p| - 1] else u[|u| - 1];
    StripNoop(r);
  }

  /** Characters of the stripped string come from the input. */
  lemma StripChars(s: string)
    ensures forall c :: c in Strip(s) ==> c in s
  {
    var l := LStrip(s);
    var r := RStrip(l);
    LStripSpec(s);
    RStripSpec(l);
    forall c | c in r ensures c in s {
      var k :| 0 <= k < |r| && r[k] == c;
      assert l[k] == c;
      assert s[|s| - |l| + k] == c;
    }
  }

  /** `s.lstrip(chars)` for a set of characters; its properties are in
      `LStripCharsSpec`. */
  function LStripChars(s: string, chars: set<char>): string {
    if |s| > 0 && s[0] in chars then LStripChars(s[1..], chars) else s
  }

  /** `s.lstrip(chars)` drops the leading characters from `chars` and nothing else. */
  lemma {:induction false} LStripCharsSpec(s: string, chars: set<char>)
    ensures |LStripChars(s, chars)| <= |s| && LStripChars(s, chars) == s[|s| - |LStripChars(s, chars)|..]
    ensures LStripChars(s, chars) == [] || LStripChars(s, chars)[0] !in chars
    ensures forall k :: 0 <= k < |s| - |LStripChars(s, chars)| ==> s[k] in chars
  {
    if |s| > 0 && s[0] in chars {
      LStripCharsSpec(s[1..], chars);
      forall k | 0 <= k < |s| - |LStripChars(s, chars)| ensures s[k] in chars {
        if k > 0 {
          assert s[k] == s[1..][k - 1];
        }
      }
    }
  }

  // ---------------------------------------------------------------------------
  // split(sep) and join

  /** `s.split(sep)` for a one-character separator: always at least one piece,
      and no piece holds the separator. */
  function Split(s: string, sep: char): (parts: seq<string>)
    ensures |parts| >= 1
    ensures forall k :: 0 <= k < |parts| ==> sep !in parts[k]
  {
    if |s| == 0 then [""]
    else
      var rest := Split(s[1..], sep);
      if s[0] == sep then [""] + rest
      else [[s[0]] + rest[0]] + rest[1..]
  }

  /** `sep.join(parts)`. */
  function Join(parts: seq<string>, sep: char): string {
    if |parts| == 0 then ""
    else if |parts| == 1 then parts[0]
    else parts[0] + [sep] + Join(parts[1..], sep)
  }

  /** Every character of a join is the separator or a character of a piece. */
  lemma {:induction false} JoinChars(parts: seq<string>, sep: char)
    ensures forall c :: c in Join(parts, sep) ==> c == sep || exists k :: 0 <= k < |parts| && c in parts[k]
  {
    if |parts| > 1 {
      JoinChars(parts[1..], sep);
      forall c | c in Join(parts, sep)
        ensures c == sep || exists k :: 0 <= k < |parts| && c in parts[k]
      {
        if c !in parts[0] && c != sep {
          assert c in Join(parts[1..], sep);
          var k :| 0 <= k < |parts[1..]| && c in parts[1..][k];
          assert c in parts[k + 1];
        }
      }
    } else if |parts| == 1 {
      assert c0: forall c :: c in Join(parts, sep) ==> c in parts[0];
    }
  }

  /** Joining the pieces of a split gives back the string. */
  lemma {:induction false} JoinSplit(s: string, sep: char)
    ensures Join(Split(s, sep), sep) == s
  {
    if |s| > 0 {
      var rest := Split(s[1..], sep);
      JoinSplit(s[1..], sep);
      if s[0] == sep {
        assert Split(s, sep) == [""] + rest;
        assert Join([""] + rest, sep) == "" + [sep] + Join(rest, sep);
        assert s == [s[0]] + s[1..];
      } else {
        assert Split(s, sep) == [[s[0]] + rest[0]] + rest[1..];
        if |rest| == 1 {
          assert Join(rest, sep) == rest[0];
        } else {
          assert Join(rest, sep) == rest[0] + [sep] + Join(rest[1..], sep);
          assert ([[s[0]] + rest[0]] + rest[1..])[1..] == rest[1..];
        }
        assert s == [s[0]] + s[1..];
      }
    }
  }

  /** The first piece is a prefix of the string. */
  lemma {:induction false} SplitFirstIsPrefix(s: string, sep: char)
    ensures |Split(s, sep)[0]| <= |s| && s[..|Split(s, sep)[0]|] == Split(s, sep)[0]
  {
    if |s| > 0 && s[0] != sep {
      SplitFirstIsPrefix(s[1..], sep);
      var f := Split(s[1..], sep)[0];
      assert Split(s, sep)[0] == [s[0]] + f;
      assert s[..1 + |f|] == [s[0]] + s[1..][..|f|];
    }
  }

  /** The last piece is a suffix of the string. */
  lemma {:induction false} SplitLastIsSuffix(s: string, sep: char)
    ensures var last := Split(s, sep)[|Split(s, sep)| - 1];
      |last| <= |s| && s[|s| - |last|..] == last
  {
    if |s| > 0 {
      SplitLastIsSuffix(s[1..], sep);
      var rest := Split(s[1..], sep);
      var last := rest[|rest| - 1];
      if s[0] != sep && |rest| == 1 {
        JoinSplit(s[1..], sep);
        assert Split(s, sep) == [[s[0]] + rest[0]];
        assert s == [s[0]] + s[1..];
      } else {
        assert Split(s, sep)[|Split(s, sep)| - 1] == last;
        assert s[|s| - |last|..] == s[1..][|s[1..]| - |last|..];
      }
    }
  }

  /** A string without the separator splits into itself. */
  lemma {:induction false} SplitWithoutSep(s: string, sep: char)
    requires sep !in s
    ensures Split(s, sep) == [s]
  {
    if |s| > 0 {
      SplitWithoutSep(s[1..], sep);
      assert s == [s[0]] + s[1..];
    }
  }

  /** Every non-separator character of the string lands in some piece. */
  lemma {:induction false} SplitKeepsChar(s: string, sep: char, i: nat)
    requires i < |s| && s[i] != sep
    ensures exists k :: 0 <= k < |Split(s, sep)| && s[i] in Split(s, sep)[k]
  {
    var rest := Split(s[1..], sep);
    if i == 0 {
      assert s[0] in Split(s, sep)[0];
    } else {
      SplitKeepsChar(s[1..], sep, i - 1);
      var k :| 0 <= k < |rest| && s[1..][i - 1] in rest[k];
      if s[0] == sep {
        assert Split(s, sep)[k + 1] == rest[k];
      } else if k == 0 {
        assert Split(s, sep)[0] == [s[0]] + rest[0];
      } else {
        assert Split(s, sep)[k] == rest[k];
      }
    }
  }

  // ---------------------------------------------------------------------------
  // split() with no argument

  /** Length of the longest prefix of `s` whose characters all satisfy `keep`. */
  function Span(s: string, keep: char -> bool): (n: nat)
    ensures n <= |s|
    ensures forall k :: 0 <= k < n ==> keep(s[k])
    ensures n == |s| || !keep(s[n])
  {
    if |s| > 0 && keep(s[0]) then 1 + Span(s[1..], keep) else 0
  }

  predicate NotSpace(c: char) {
    !IsSpace(c)
  }

  /** `s.split()`: the maximal runs of non-whitespace, in order. */
  function Words(s: string): (ws: seq<string>)
    ensures forall k :: 0 <= k < |ws| ==> ws[k] != "" && forall c :: c in ws[k] ==> !IsSpace(c)
    decreases |s|
  {
    if |s| == 0 then []
    else if IsSpace(s[0]) then Words(s[1..])
    else
      var n := Span(s, NotSpace);
      [s[..n]] + Words(s[n..])
  }

  // ---------------------------------------------------------------------------
  // Searching

  predicate StartsWith(s: string, prefix: string) {
    |prefix| <= |s| && s[..|prefix|] == prefix
  }

  /** Python's `sub in s` on strings. */
  predicate Contains(s: string, sub: string)
    decreases |s|
  {
    StartsWith(s, sub) || (|s| > 0 && Contains(s[1..], sub))
  }

  lemma {:induction false} ContainsAt(s: string, sub: string, i: nat)
    requires i + |sub| <= |s| && s[i..i + |sub|] == sub
    ensures Contains(s, sub)
  {
    if i > 0 {
      assert s[1..][i - 1..i - 1 + |sub|] == sub;
      ContainsAt(s[1..], sub, i - 1);
    }
  }

  lemma {:induction false} ContainsWitness(s: string, sub: string) returns (i: nat)
    requires Contains(s, sub)
    ensures i + |sub| <= |s| && s[i..i + |sub|] == sub
  {
    if StartsWith(s, sub) {
      i := 0;
    } else {
      var j := ContainsWitness(s[1..], sub);
      i := j + 1;
      assert s[1..][j..j + |sub|] == s[i..i + |sub|];
    }
  }

  // ---------------------------------------------------------------------------
  // Character maps

  /** `s.replace(a, b)` for single characters. */
  function ReplaceChar(s: string, a: char, b: char): (r: string)
    ensures |r| == |s|
    ensures forall k :: 0 <= k < |s| ==> r[k] == (if s[k] == a then b else s[k])
  {
    if |s| == 0 then [] else [if s[0] == a then b else s[0]] + ReplaceChar(s[1..], a, b)
  }

  /** `s.replace(c, '')` for a single character: every other character, in order. */
  function RemoveChar(s: string, c: char): (r: string)
    ensures |r| <= |s|
    ensures forall x :: x in r <==> x in s && x != c
  {
    if |s| == 0 then [] else (if s[0] == c then [] else [s[0]]) + RemoveChar(s[1..], c)
  }

  function LowerChar(c: char): char {
    if 'A' <= c <= 'Z' then (c as int + 32) as char else c
  }

  /** `s.lower()`, on the ASCII letters. */
  function Lower(s: string): (r: string)
    ensures |r| == |s|
    ensures forall k :: 0 <= k < |s| ==> r[k] == LowerChar(s[k])
  {
    if |s| == 0 then [] else [LowerChar(s[0])] + Lower(s[1..])
  }

  /** `s.isdigit()`, on the ASCII digits: non-empty and digits only. */
  predicate IsDigits(s: string) {
    |s| > 0 && forall k :: 0 <= k < |s| ==> IsAsciiDigit(s[k])
  }

  // ---------------------------------------------------------------------------
  // str(int) and int(str)

  function DigitChar(d: nat): char
    requires d < 10
  {
    ('0' as int + d) as char
  }

  /** Decimal digits of a natural number, no leading zeros. */
  function NatToStr(n: nat): (r: string)
    ensures IsDigits(r)
    decreases n
  {
    if n < 10 then [DigitChar(n)] else NatToStr(n / 10) + [DigitChar(n % 10)]
  }

  /** `str(n)` for a Python int. */
  function IntToStr(n: int): string {
    if n < 0 then "-" + NatToStr(-n) else NatToStr(n)
  }

  /** The value of a string of decimal digits. */
  function DigitsValue(s: string): nat
    requires forall k :: 0 <= k < |s| ==> IsAsciiDigit(s[k])
  {
    if |s| == 0 then 0
    else
      assert IsAsciiDigit(s[|s| - 1]);
      DigitsValue(s[..|s| - 1]) * 10 + (s[|s| - 1] as int - '0' as int)
  }

  /** `int(s)` on a string: surrounding whitespace, an optional sign, then one
      or more ASCII digits; anything else is a ValueError (None). */
  function ParseInt(s: string): (r: Option<int>)
  {
    var t := Strip(s);
    if |t| > 0 && (t[0] == '-' || t[0] == '+') then
      (if IsDigits(t[1..]) then
         var v: int := DigitsValue(t[1..]);
         Some(if t[0] == '-' then -v else v)
       else None)
    else if IsDigits(t) then Some(DigitsValue(t))
    else None
  }

  lemma {:induction false} DigitsOfNat(n: nat)
    ensures DigitsValue(NatToStr(n)) == n
    decreases n
  {
    var s := NatToStr(n);
    if n >= 10 {
      DigitsOfNat(n / 10);
      assert s[..|s| - 1] == NatToStr(n / 10);
    }
  }

  /** `int(str(n)) == n`. */
  lemma IntToStrRoundTrip(n: int)
    ensures ParseInt(IntToStr(n)) == Some(n)
  {
    IntToStrStripped(n);
    if n < 0 {
      DigitsOfNat(-n);
      ParseNegative(NatToStr(-n));
    } else {
      DigitsOfNat(n);
      ParseDigits(NatToStr(n));
    }
  }

  /** `str(n)` has no surrounding whitespace. */
  lemma IntToStrStripped(n: int)
    ensures Strip(IntToStr(n)) == IntToStr(n)
  {
    var s := IntToStr(n);
    assert s[0] == '-' || IsAsciiDigit(s[0]);
    assert IsAsciiDigit(s[|s| - 1]);
    StripNoop(s);
  }

  /** An unsigned digit string parses to its value. */
  lemma ParseDigits(t: string)
    requires IsDigits(t) && Strip(t) == t
    ensures ParseInt(t) == Some(DigitsValue(t))
  {
    assert IsAsciiDigit(t[0]);
  }

  /** A '-' before a digit string parses to the negated value. */
  lemma ParseNegative(d: string)
    requires IsDigits(d) && Strip("-" + d) == "-" + d
    ensures ParseInt("-" + d) == Some(0 - DigitsValue(d) as int)
  {
    assert ("-" + d)[1..] == d;
  }
}
