/** Text operations the modelled code takes from its languages: Python's `str < str`,
    `str(int)`, `str.split(sep)`, `str.strip()`, JavaScript's `split`/`join` and `+digits`. */
module Strings {

  // ---------------------------------------------------------------------------
  // Python `a < b` on str: code point by code point, a proper prefix is smaller.
  // ---------------------------------------------------------------------------

  predicate LexLess(a: string, b: string)
  {
    if |a| == 0 then |b| > 0
    else if |b| == 0 then false
    else if a[0] != b[0] then a[0] < b[0]
    else LexLess(a[1..], b[1..])
  }

  lemma {:induction false} LexLessIrreflexive(a: string)
    ensures !LexLess(a, a)
  {
    if |a| > 0 {
      LexLessIrreflexive(a[1..]);
    }
  }

  lemma {:induction false} LexLessTransitive(a: string, b: string, c: string)
    requires LexLess(a, b) && LexLess(b, c)
    ensures LexLess(a, c)
  {
    if |a| > 0 && |b| > 0 && |c| > 0 && a[0] == b[0] && b[0] == c[0] {
      LexLessTransitive(a[1..], b[1..], c[1..]);
    }
  }

  /** Distinct strings are always ordered one way or the other. */
  lemma {:induction false} LexLessTotal(a: string, b: string)
    requires a != b
    ensures LexLess(a, b) || LexLess(b, a)
  {
    if |a| > 0 && |b| > 0 && a[0] == b[0] {
      assert a == [a[0]] + a[1..] && b == [b[0]] + b[1..];
      LexLessTotal(a[1..], b[1..]);
    }
  }

  lemma {:induction false} LexLessAsymmetric(a: string, b: string)
    requires LexLess(a, b)
    ensures !LexLess(b, a)
  {
    if |a| > 0 && |b| > 0 && a[0] == b[0] {
      LexLessAsymmetric(a[1..], b[1..]);
    }
  }

  /** Chapter "10" sorts before chapter "2" when chapter ids are compared as text. */
  lemma TenBeforeTwo()
    ensures LexLess("10", "2") && !LexLess("2", "10")
  {
  }

  // ---------------------------------------------------------------------------
  // Decimal digits: Python `str(n)`, JavaScript number-to-string and `+digits`.
  // ---------------------------------------------------------------------------

  predicate IsDigit(c: char)
  {
    '0' <= c <= '9'
  }

  /** A non-empty run of ASCII digits: what JavaScript's `/^\d+$/` accepts. */
  predicate IsDigits(s: string)
  {
    |s| > 0 && forall k :: 0 <= k < |s| ==> IsDigit(s[k])
  }

  /** Digits without a superfluous leading zero: the form a number is printed in. */
  predicate IsCanonicalDigits(s: string)
  {
    IsDigits(s) && (s[0] == '0' ==> |s| == 1)
  }

  function DigitChar(d: nat): (c: char)
    requires d < 10
    ensures IsDigit(c) && c as int - '0' as int == d
  {
    ('0' as int + d) as char
  }

  function DigitValue(c: char): nat
    requires IsDigit(c)
  {
    c as int - '0' as int
  }

  /** Decimal rendering of a natural number. */
  function NatToString(n: nat): (s: string)
    ensures IsCanonicalDigits(s)
    decreases n
  {
    if n < 10 then [DigitChar(n)] else NatToString(n / 10) + [DigitChar(n % 10)]
  }

  /** Python `str(n)` / f-string rendering of an int. */
  function IntToString(n: int): (s: string)
    ensures |s| > 0
    ensures n >= 0 ==> IsCanonicalDigits(s)
    ensures n < 0 ==> s[0] == '-' && IsCanonicalDigits(s[1..])
  {
    if n < 0 then "-" + NatToString(-n) else NatToString(n)
  }

  /** The number a digit string denotes: JavaScript's unary `+` on `/^\d+$/` text. */
  function DigitsValue(s: string): nat
    requires IsDigits(s)
    decreases |s|
  {
    if |s| == 1 then DigitValue(s[0])
    else DigitsValue(s[..|s| - 1]) * 10 + DigitValue(s[|s| - 1])
  }

  lemma {:induction false} DigitsValueOfNatToString(n: nat)
    ensures DigitsValue(NatToString(n)) == n
    decreases n
  {
    if n >= 10 {
      var s := NatToString(n);
      assert s[..|s| - 1] == NatToString(n / 10);
      DigitsValueOfNatToString(n / 10);
    }
  }

  lemma {:induction false} NatToStringOfDigitsValue(s: string)
    requires IsCanonicalDigits(s)
    ensures NatToString(DigitsValue(s)) == s
    decreases |s|
  {
    if |s| > 1 {
      var init := s[..|s| - 1];
      assert IsDigits(init);
      DigitsValueLowerBound(init);
      NatToStringOfDigitsValue(init);
      var v := DigitsValue(s);
      assert v / 10 == DigitsValue(init) && v % 10 == DigitValue(s[|s| - 1]);
      assert s == init + [s[|s| - 1]];
    }
  }

  /** Distinct integers print differently. */
  lemma IntToStringInjective(a: int, b: int)
    requires IntToString(a) == IntToString(b)
    ensures a == b
  {
    if a >= 0 && b >= 0 {
      DigitsValueOfNatToString(a);
      DigitsValueOfNatToString(b);
    } else if a < 0 && b < 0 {
      assert NatToString(-a) == IntToString(a)[1..] == IntToString(b)[1..] == NatToString(-b);
      DigitsValueOfNatToString(-a);
      DigitsValueOfNatToString(-b);
    }
  }

  /** A canonical digit string of length > 1 denotes at least 10. */
  lemma {:induction false} DigitsValueLowerBound(s: string)
    requires IsCanonicalDigits(s)
    ensures |s| > 1 ==> DigitsValue(s) >= 10
    ensures DigitsValue(s) == 0 ==> s == "0"
    decreases |s|
  {
    if |s| > 1 {
      var init := s[..|s| - 1];
      assert init[0] == s[0];
      DigitsValueLowerBound(init);
      if |init| == 1 {
        assert DigitValue(init[0]) >= 1;
      }
    }
  }

  // ---------------------------------------------------------------------------
  // Splitting on, and joining with, a one-character separator
  // (Python `s.split(",")`, JavaScript `s.split('.')` and `parts.join('.')`).
  // ---------------------------------------------------------------------------

  function Split(s: string, sep: char): (parts: seq<string>)
    ensures |parts| > 0
    decreases |s|
  {
    if |s| == 0 then [""]
    else
      var rest := Split(s[1..], sep);
      if s[0] == sep then [""] + rest else [[s[0]] + rest[0]] + rest[1..]
  }

  function Join(parts: seq<string>, sep: char): string
    decreases |parts|
  {
    if |parts| == 0 then ""
    else if |parts| == 1 then parts[0]
    else parts[0] + [sep] + Join(parts[1..], sep)
  }

  predicate Free(s: string, sep: char)
  {
    forall k :: 0 <= k < |s| ==> s[k] != sep
  }

  function Occurrences(s: string, c: char): nat
    decreases |s|
  {
    if |s| == 0 then 0 else (if s[0] == c then 1 else 0) + Occurrences(s[1..], c)
  }

  /** Joining the pieces of a split gives the text back. */
  lemma {:induction false} JoinSplit(s: string, sep: char)
    ensures Join(Split(s, sep), sep) == s
    decreases |s|
  {
    if |s| > 0 {
      JoinSplit(s[1..], sep);
      var rest := Split(s[1..], sep);
      if s[0] == sep {
        assert s == [sep] + s[1..];
      } else if |rest| == 1 {
        assert s == [s[0]] + s[1..];
      } else {
        assert Join(rest, sep) == rest[0] + [sep] + Join(rest[1..], sep);
        assert s == [s[0]] + s[1..];
      }
    }
  }

  /** No piece of a split contains the separator, and there is one piece more than separators. */
  lemma {:induction false} SplitPieces(s: string, sep: char)
    ensures forall k :: 0 <= k < |Split(s, sep)| ==> Free(Split(s, sep)[k], sep)
    ensures |Split(s, sep)| == Occurrences(s, sep) + 1
    decreases |s|
  {
    if |s| > 0 {
      SplitPieces(s[1..], sep);
      var rest := Split(s[1..], sep);
      var parts := Split(s, sep);
      if s[0] != sep {
        assert parts[0] == [s[0]] + rest[0];
        forall k | 0 <= k < |parts| ensures Free(parts[k], sep) {
          if k > 0 { assert parts[k] == rest[k]; }
        }
      } else {
        forall k | 0 <= k < |parts| ensures Free(parts[k], sep) {
          if k > 0 { assert parts[k] == rest[k - 1]; }
        }
      }
    }
  }

  /** Splitting a join of separator-free pieces gives the pieces back. */
  lemma {:induction false} SplitJoin(parts: seq<string>, sep: char)
    requires |parts| > 0
    requires forall k :: 0 <= k < |parts| ==> Free(parts[k], sep)
    ensures Split(Join(parts, sep), sep) == parts
    decreases |parts|, |parts[0]|
  {
    var head := parts[0];
    if |head| == 0 {
      if |parts| > 1 {
        SplitJoin(parts[1..], sep);
        assert Join(parts, sep) == [sep] + Join(parts[1..], sep);
        assert [""] + parts[1..] == parts;
      }
    } else {
      var shorter := parts[0 := head[1..]];
      assert Free(head[1..], sep) by {
        forall k | 0 <= k < |head| - 1 ensures head[1..][k] != sep {
          assert head[1..][k] == head[k + 1];
        }
      }
      SplitJoin(shorter, sep);
      var j := Join(parts, sep);
      if |parts| == 1 {
        assert j == [head[0]] + Join(shorter, sep);
      } else {
        assert j == [head[0]] + (head[1..] + [sep] + Join(parts[1..], sep));
        assert Join(shorter, sep) == head[1..] + [sep] + Join(parts[1..], sep);
      }
      assert j[1..] == Join(shorter, sep);
      assert j[0] == head[0] && head[0] != sep;
      assert [head[0]] + shorter[0] == head;
      assert shorter[1..] == parts[1..];
      assert [[head[0]] + shorter[0]] + shorter[1..] == parts;
    }
  }

  // ---------------------------------------------------------------------------
  // Python `"".join(parts)`, and prefixes and suffixes of text.
  // ---------------------------------------------------------------------------

  function Concat(parts: seq<string>): string
    decreases |parts|
  {
    if |parts| == 0 then "" else Concat(parts[..|parts| - 1]) + parts[|parts| - 1]
  }

  lemma {:induction false} ConcatAppend(a: seq<string>, b: seq<string>)
    ensures Concat(a + b) == Concat(a) + Concat(b)
    decreases |b|
  {
    if |b| == 0 {
      assert a + b == a;
    } else {
      var b' := b[..|b| - 1];
      assert (a + b)[..|a + b| - 1] == a + b';
      ConcatAppend(a, b');
    }
  }

  predicate EndsWith(s: string, suffix: string)
  {
    |suffix| <= |s| && s[|s| - |suffix|..] == suffix
  }

  // ---------------------------------------------------------------------------
  // Python `str.strip()` and the whitespace it removes (`str.isspace`).
  // ---------------------------------------------------------------------------

  predicate IsSpace(c: char)
  {
    c == ' ' || ('\t' <= c <= '\r') || ('\U{1C}' <= c <= '\U{1F}') || c == '\U{85}' || c == '\U{A0}'
    || c == '\U{1680}' || ('\U{2000}' <= c <= '\U{200A}') || c == '\U{2028}' || c == '\U{2029}'
    || c == '\U{202F}' || c == '\U{205F}' || c == '\U{3000}'
  }

  function StripLeft(s: string): (r: string)
    ensures |r| <= |s| && r == s[|s| - |r|..]
    ensures |r| > 0 ==> !IsSpace(r[0])
    decreases |s|
  {
    if |s| > 0 && IsSpace(s[0]) then StripLeft(s[1..]) else s
  }

  function StripRight(s: string): (r: string)
    ensures |r| <= |s| && r == s[..|r|]
    ensures |r| > 0 ==> !IsSpace(r[|r| - 1])
    decreases |s|
  {
    if |s| > 0 && IsSpace(s[|s| - 1]) then StripRight(s[..|s| - 1]) else s
  }

  function Strip(s: string): string
  {
    StripRight(StripLeft(s))
  }

  predicate AllSpace(s: string)
  {
    forall k :: 0 <= k < |s| ==> IsSpace(s[k])
  }

  /** `len(s.strip()) == 0` exactly when every character of `s` is whitespace. */
  lemma {:induction false} StripEmptyIffAllSpace(s: string)
    ensures |Strip(s)| == 0 <==> AllSpace(s)
    decreases |s|
  {
    var l := StripLeft(s);
    if |s| > 0 && IsSpace(s[0]) {
      StripEmptyIffAllSpace(s[1..]);
      assert AllSpace(s) <==> AllSpace(s[1..]) by {
        if AllSpace(s[1..]) {
          forall k | 0 <= k < |s| ensures IsSpace(s[k]) {
            if k > 0 { assert s[k] == s[1..][k - 1]; }
          }
        }
      }
    } else if |s| > 0 {
      assert l == s;
      assert !AllSpace(s);
      assert |Strip(s)| > 0 by {
        StripRightKeepsFirst(s);
      }
    }
  }

  lemma {:induction false} StripRightKeepsFirst(s: string)
    requires |s| > 0 && !IsSpace(s[0])
    ensures |StripRight(s)| > 0
    decreases |s|
  {
    if IsSpace(s[|s| - 1]) {
      StripRightKeepsFirst(s[..|s| - 1]);
    }
  }
}
