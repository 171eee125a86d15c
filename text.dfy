/** String operations the handlers rely on: case-insensitive substring search
    (SQL `ILIKE '%x%'`), the ordering of `ORDER BY name`, and Python's
    `str(int)` / `int(str)` used for the token subject. */
module Text {

  import opened Wrappers

  function LowerChar(c: char): (l: char)
    ensures 'A' <= c <= 'Z' ==> l as int == c as int + 32
    ensures !('A' <= c <= 'Z') ==> l == c
  {
    if 'A' <= c <= 'Z' then (c as int + 32) as char else c
  }

  function Lower(s: string): (l: string)
    ensures |l| == |s|
    ensures forall i | 0 <= i < |s| :: l[i] == LowerChar(s[i])
  {
    if s == [] then [] else [LowerChar(s[0])] + Lower(s[1..])
  }

  /** `needle` occurs in `haystack` at some position. */
  predicate Contains(haystack: string, needle: string)
  {
    exists i | 0 <= i <= |haystack| - |needle| :: OccursAt(haystack, needle, i)
  }

  predicate OccursAt(haystack: string, needle: string, i: int)
    requires 0 <= i <= |haystack| - |needle|
  {
    haystack[i..i + |needle|] == needle
  }

  /** Substring search with ASCII case folding: what `ILIKE '%needle%'`
      means when the needle holds no pattern character. */
  predicate ContainsIgnoringCase(haystack: string, needle: string)
  {
    Contains(Lower(haystack), Lower(needle))
  }

  /** `text LIKE pattern` with PostgreSQL's default escape character: `%`
      matches any run of characters, `_` any one character, and `\` makes
      the character after it literal. A pattern ending in a lone `\` is an
      error in PostgreSQL; `ILikeAnywhere` never builds one, since its
      pattern ends in `%`. */
  predicate Like(text: string, pattern: string)
    decreases |pattern|, |text|
  {
    if pattern == [] then text == []
    else if pattern[0] == '%' then Like(text, pattern[1..]) || (text != [] && Like(text[1..], pattern))
    else if pattern[0] == '_' then text != [] && Like(text[1..], pattern[1..])
    else if pattern[0] == '\\' && |pattern| >= 2 then
      text != [] && text[0] == pattern[1] && Like(text[1..], pattern[2..])
    else text != [] && text[0] == pattern[0] && Like(text[1..], pattern[1..])
  }

  /** `column ILIKE f"%{needle}%"`, the needle not escaped, with ASCII case
      folding of both sides. */
  predicate ILikeAnywhere(haystack: string, needle: string)
  {
    Like(Lower(haystack), "%" + Lower(needle) + "%")
  }

  /** The text holds none of LIKE's pattern characters. */
  predicate NoPatternChars(s: string)
  {
    forall i | 0 <= i < |s| :: s[i] != '%' && s[i] != '_' && s[i] != '\\'
  }

  /** A trailing `%` matches whatever is left. */
  lemma {:induction false} LikeAnyRest(t: string)
    ensures Like(t, "%")
  {
    if t != [] {
      LikeAnyRest(t[1..]);
    }
  }

  /** A literal followed by `%` matches exactly the texts it begins. */
  lemma {:induction false} LikeLiteralPrefix(t: string, n: string)
    requires NoPatternChars(n)
    ensures Like(t, n + "%") <==> n <= t
  {
    if n == [] {
      assert n + "%" == "%";
      LikeAnyRest(t);
    } else {
      var p := n + "%";
      assert p[0] == n[0] && p[1..] == n[1..] + "%";
      assert NoPatternChars(n[1..]) by {
        forall i | 0 <= i < |n[1..]| ensures n[1..][i] != '%' && n[1..][i] != '_' && n[1..][i] != '\\' {
          assert n[1..][i] == n[i + 1];
        }
      }
      if t != [] {
        LikeLiteralPrefix(t[1..], n[1..]);
        assert n <= t <==> n[0] == t[0] && n[1..] <= t[1..];
      }
    }
  }

  /** A leading `%` lets the rest of the pattern start anywhere. */
  lemma {:induction false} LikeAnyPrefix(t: string, r: string)
    ensures Like(t, "%" + r) <==> exists i | 0 <= i <= |t| :: Like(t[i..], r)
  {
    var p := "%" + r;
    assert p[0] == '%' && p[1..] == r;
    assert t[0..] == t;
    if t != [] {
      LikeAnyPrefix(t[1..], r);
      if exists i | 0 <= i <= |t| :: Like(t[i..], r) {
        var i :| 0 <= i <= |t| && Like(t[i..], r);
        if i > 0 {
          assert t[1..][i - 1..] == t[i..];
        }
      }
      if exists j | 0 <= j <= |t[1..]| :: Like(t[1..][j..], r) {
        var j :| 0 <= j <= |t[1..]| && Like(t[1..][j..], r);
        assert t[1..][j..] == t[j + 1..];
      }
    }
  }

  /** With no pattern characters in the needle, the unescaped `ILIKE` is
      case-insensitive substring search. */
  lemma ILikeAnywhereIsSubstring(haystack: string, needle: string)
    requires NoPatternChars(needle)
    ensures ILikeAnywhere(haystack, needle) <==> ContainsIgnoringCase(haystack, needle)
  {
    var h, n := Lower(haystack), Lower(needle);
    assert NoPatternChars(n);
    assert "%" + n + "%" == "%" + (n + "%");
    LikeAnyPrefix(h, n + "%");
    forall i | 0 <= i <= |h|
      ensures Like(h[i..], n + "%") <==> (i <= |h| - |n| && OccursAt(h, n, i))
    {
      LikeLiteralPrefix(h[i..], n);
      if i <= |h| - |n| {
        assert h[i..][..|n|] == h[i..i + |n|];
      }
    }
  }

  /** An unescaped `_` in the needle matches any character, so a filter
      such as "_" keeps every non-empty text. */
  lemma UnderscoreMatchesAnyText(haystack: string)
    requires haystack != []
    ensures ILikeAnywhere(haystack, "_")
  {
    var h := Lower(haystack);
    assert Lower("_") == "_";
    assert "%" + "_" + "%" == "%_%";
    assert "%_%"[1..] == "_%" && "_%"[1..] == "%";
    LikeAnyRest(h[1..]);
    assert Like(h, "_%");
  }

  /** Lexicographic order on code points (`ORDER BY name ASC`, `<=`). */
  predicate LexLeq(a: string, b: string)
  {
    a == [] || (b != [] && (a[0] < b[0] || (a[0] == b[0] && LexLeq(a[1..], b[1..]))))
  }

  lemma {:induction false} LexLeqTotal(a: string, b: string)
    ensures LexLeq(a, b) || LexLeq(b, a)
  {
    if a != [] && b != [] && a[0] == b[0] {
      LexLeqTotal(a[1..], b[1..]);
    }
  }

  lemma {:induction false} LexLeqTransitive(a: string, b: string, c: string)
    requires LexLeq(a, b) && LexLeq(b, c)
    ensures LexLeq(a, c)
  {
    if a != [] && b != [] && c != [] && a[0] == b[0] == c[0] {
      LexLeqTransitive(a[1..], b[1..], c[1..]);
    }
  }

  lemma {:induction false} LexLeqAntisymmetric(a: string, b: string)
    requires LexLeq(a, b) && LexLeq(b, a)
    ensures a == b
  {
    if a != [] && b != [] {
      LexLeqAntisymmetric(a[1..], b[1..]);
      assert a == [a[0]] + a[1..];
      assert b == [b[0]] + b[1..];
    }
  }

  predicate IsDigit(c: char)
  {
    '0' <= c <= '9'
  }

  function DigitChar(d: int): (c: char)
    requires 0 <= d < 10
    ensures IsDigit(c) && c as int - '0' as int == d
  {
    ('0' as int + d) as char
  }

  /** Decimal digits of a non-negative number, most significant first. */
  function Digits(n: nat): (s: string)
    ensures s != [] && forall i | 0 <= i < |s| :: IsDigit(s[i])
  {
    if n < 10 then [DigitChar(n)] else Digits(n / 10) + [DigitChar(n % 10)]
  }

  /** Python `str(n)` for an integer. */
  function DecimalString(n: int): string
  {
    if n < 0 then "-" + Digits(-n) else Digits(n)
  }

  /** The number a string of decimal digits denotes. */
  function DigitsValue(s: string): int
    requires forall i | 0 <= i < |s| :: IsDigit(s[i])
  {
    if s == [] then 0
    else DigitsValue(s[..|s| - 1]) * 10 + (s[|s| - 1] as int - '0' as int)
  }

  predicate AllDigits(s: string)
  {
    s != [] && forall i | 0 <= i < |s| :: IsDigit(s[i])
  }

  /** Python `int(s)` on an optional sign followed by decimal digits; `None`
      where Python raises `ValueError`. */
  function ParseInt(s: string): (r: Option<int>)
    ensures r.Some? ==> s != [] && (AllDigits(s) || ((s[0] == '-' || s[0] == '+') && AllDigits(s[1..])))
    ensures AllDigits(s) ==> r == Some(DigitsValue(s))
  {
    if AllDigits(s) then Some(DigitsValue(s))
    else if s != [] && s[0] == '-' && AllDigits(s[1..]) then Some(-DigitsValue(s[1..]))
    else if s != [] && s[0] == '+' && AllDigits(s[1..]) then Some(DigitsValue(s[1..]))
    else None
  }

  lemma {:induction false} DigitsValueOfDigits(n: nat)
    ensures DigitsValue(Digits(n)) == n
  {
    if n >= 10 {
      DigitsValueOfDigits(n / 10);
      var s := Digits(n / 10) + [DigitChar(n % 10)];
      assert s[..|s| - 1] == Digits(n / 10);
    }
  }

  /** `int(str(n)) == n`: the decimal form of an integer reads back as it. */
  lemma DecimalRoundTrip(n: int)
    ensures ParseInt(DecimalString(n)) == Some(n)
  {
    if n < 0 {
      var d := Digits(-n);
      DigitsValueOfDigits(-n);
      var s := "-" + d;
      assert s == DecimalString(n);
      assert !IsDigit(s[0]);
      assert s[1..] == d;
      assert ParseInt(s) == Some(-DigitsValue(d));
    } else {
      DigitsValueOfDigits(n);
    }
  }
}
