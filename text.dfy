/**
 * Character and string helpers used by the server: JavaScript's `trim`,
 * ASCII `toUpperCase`/`toLowerCase`, `Number.prototype.toString` on naturals,
 * `padStart(3, '0')`, and the `/\s+/g -> '-'` slug used to derive variant ids.
 * Case mapping is ASCII only; whitespace is the ASCII set plus NBSP and BOM.
 */
module Text {

  predicate IsSpace(c: char)
  {
    c == ' ' || c == '\t' || c == '\n' || c == '\r' || c == '\U{B}' || c == '\U{C}'
    || c == '\U{A0}' || c == '\U{FEFF}'
  }

  predicate IsUpperAscii(c: char) { 'A' <= c <= 'Z' }

  function UpperChar(c: char): char
  {
    if 'a' <= c <= 'z' then (c as int - 32) as char else c
  }

  function LowerChar(c: char): char
  {
    if IsUpperAscii(c) then (c as int + 32) as char else c
  }

  /** `s.toUpperCase()`, ASCII letters only. */
  function Upper(s: string): string
  {
    seq(|s|, i requires 0 <= i < |s| => UpperChar(s[i]))
  }

  /** Leading whitespace removed: `r` is the suffix of `s` left after a run of spaces. */
  function TrimStart(s: string): (r: string)
    ensures |r| <= |s| && r == s[|s| - |r|..]
    ensures forall i :: 0 <= i < |s| - |r| ==> IsSpace(s[i])
    ensures r == [] || !IsSpace(r[0])
  {
    if s != [] && IsSpace(s[0]) then TrimStart(s[1..]) else s
  }

  /** Trailing whitespace removed: `r` is the prefix of `s` before a run of spaces. */
  function TrimEnd(s: string): (r: string)
    ensures |r| <= |s| && r == s[..|r|]
    ensures forall i :: |r| <= i < |s| ==> IsSpace(s[i])
    ensures r == [] || !IsSpace(r[|r| - 1])
  {
    if s != [] && IsSpace(s[|s| - 1]) then TrimEnd(s[..|s| - 1]) else s
  }

  /** Neither starts nor ends with whitespace. */
  predicate Trimmed(s: string)
  {
    s == [] || (!IsSpace(s[0]) && !IsSpace(s[|s| - 1]))
  }

  /** `s.trim()`: `s` without its leading and trailing whitespace. */
  function Trim(s: string): (r: string)
    ensures Trimmed(r) && |r| <= |s|
  {
    TrimEnd(TrimStart(s))
  }

  /** `trim()` removes only whitespace, and only at the ends: the result is a slice of
      `s` with nothing but whitespace before and after it. */
  lemma TrimIsSlice(s: string)
    ensures exists a, b ::
              && 0 <= a <= b <= |s| && Trim(s) == s[a..b]
              && (forall i :: 0 <= i < a ==> IsSpace(s[i]))
              && (forall i :: b <= i < |s| ==> IsSpace(s[i]))
  {
    var t := TrimStart(s);
    var r := TrimEnd(t);
    var a := |s| - |t|;
    TrimSplit(s, t, r);
    assert Trim(s) == s[a..a + |r|];
    assert forall i :: 0 <= i < a ==> IsSpace(s[i]);
    assert forall i :: a + |r| <= i < |s| ==> IsSpace(s[i]);
  }

  /** Cutting a leading run of spaces (leaving `t`) and then a trailing one (leaving
      `r`) leaves a slice of `s` with only spaces outside it. */
  lemma TrimSplit(s: string, t: string, r: string)
    requires |t| <= |s| && t == s[|s| - |t|..]
    requires forall i :: 0 <= i < |s| - |t| ==> IsSpace(s[i])
    requires |r| <= |t| && r == t[..|r|]
    requires forall i :: |r| <= i < |t| ==> IsSpace(t[i])
    ensures var a := |s| - |t|;
      && r == s[a..a + |r|]
      && (forall i :: a + |r| <= i < |s| ==> IsSpace(s[i]))
  {
    var a := |s| - |t|;
    assert s[a..a + |r|] == t[..|r|];
    forall i | a + |r| <= i < |s|
      ensures IsSpace(s[i])
    {
      assert s[i] == t[i - a];
    }
  }

  // ---------------------------------------------------------------------
  // Decimal notation
  // ---------------------------------------------------------------------

  predicate IsDigit(c: char) { '0' <= c <= '9' }

  predicate AllDigits(s: string)
  {
    forall i :: 0 <= i < |s| ==> IsDigit(s[i])
  }

  function DigitChar(d: int): char
    requires 0 <= d < 10
  {
    ('0' as int + d) as char
  }

  /** The value of a string of decimal digits, most significant first. */
  function Value(s: string): nat
    requires AllDigits(s)
  {
    if s == [] then 0 else Value(s[..|s| - 1]) * 10 + (s[|s| - 1] as int - '0' as int)
  }

  /** `n.toString()` for a natural number: no leading zeros, "0" for zero. */
  function Digits(n: nat): string
  {
    if n < 10 then [DigitChar(n)] else Digits(n / 10) + [DigitChar(n % 10)]
  }

  function Zeros(k: nat): string
  {
    if k == 0 then [] else Zeros(k - 1) + ['0']
  }

  /** `s.padStart(3, '0')`: zeros in front up to width 3, never truncated. */
  function PadStart3(s: string): string
  {
    if |s| >= 3 then s else Zeros(3 - |s|) + s
  }

  lemma {:induction false} DigitsDecode(n: nat)
    ensures |Digits(n)| >= 1 && AllDigits(Digits(n)) && Value(Digits(n)) == n
    ensures n > 0 ==> Digits(n)[0] != '0'
  {
    if n >= 10 {
      DigitsDecode(n / 10);
      var s := Digits(n);
      assert s[..|s| - 1] == Digits(n / 10);
    }
  }

  lemma {:induction false} ZerosDecode(k: nat)
    ensures |Zeros(k)| == k && AllDigits(Zeros(k)) && Value(Zeros(k)) == 0
  {
    if k > 0 {
      ZerosDecode(k - 1);
      assert Zeros(k)[..k - 1] == Zeros(k - 1);
    }
  }

  /** Leading zeros do not change the value of a digit string. */
  lemma {:induction false} LeadingZerosDecode(k: nat, s: string)
    requires AllDigits(s)
    ensures AllDigits(Zeros(k) + s) && Value(Zeros(k) + s) == Value(s)
  {
    ZerosDecode(k);
    if s != [] {
      var t := Zeros(k) + s;
      LeadingZerosDecode(k, s[..|s| - 1]);
      assert t[..|t| - 1] == Zeros(k) + s[..|s| - 1];
    } else {
      assert Zeros(k) + s == Zeros(k);
    }
  }

  /** Padding a digit string keeps it a digit string of the same value, at least three long. */
  lemma {:induction false} PadStart3Decodes(s: string)
    requires AllDigits(s)
    ensures AllDigits(PadStart3(s)) && Value(PadStart3(s)) == Value(s)
    ensures |PadStart3(s)| == if |s| >= 3 then |s| else 3
  {
    if |s| < 3 {
      LeadingZerosDecode(3 - |s|, s);
      ZerosDecode(3 - |s|);
      assert PadStart3(s) == Zeros(3 - |s|) + s;
    }
  }

  /** `n.toString().padStart(3, '0')` reads back as `n`, has at least three digits and
      exactly three when `n` is below 1000. */
  lemma PaddedDecodes(n: nat)
    ensures AllDigits(PadStart3(Digits(n))) && Value(PadStart3(Digits(n))) == n
    ensures |PadStart3(Digits(n))| >= 3
    ensures n < 1000 ==> |PadStart3(Digits(n))| == 3
  {
    DigitsDecode(n);
    DigitsShort(n);
    PadStart3Decodes(Digits(n));
  }

  lemma {:induction false} DigitsShort(n: nat)
    ensures n < 1000 ==> |Digits(n)| <= 3
  {
    if 10 <= n {
      DigitsShort(n / 10);
      if n < 100 {
        assert |Digits(n / 10)| == 1;
      }
    }
  }

  // ---------------------------------------------------------------------
  // Slugs: `String(name).toLowerCase().replace(/\s+/g, '-')`
  // ---------------------------------------------------------------------

  /** Lower-cased, with every run of whitespace replaced by one '-'. */
  function Slug(s: string): string
    decreases |s|
  {
    if s == [] then []
    else if IsSpace(s[0]) then "-" + Slug(TrimStart(s))
    else [LowerChar(s[0])] + Slug(s[1..])
  }

  /** No whitespace and no upper-case ASCII letter: what a slug is made of. */
  predicate IsSlugText(s: string)
  {
    forall i :: 0 <= i < |s| ==> !IsSpace(s[i]) && !IsUpperAscii(s[i])
  }

  lemma {:induction false} SlugIsSlugText(s: string)
    ensures IsSlugText(Slug(s)) && |Slug(s)| <= |s|
    decreases |s|
  {
    if s == [] {
    } else if IsSpace(s[0]) {
      SlugIsSlugText(TrimStart(s));
    } else {
      SlugIsSlugText(s[1..]);
    }
  }

  lemma {:induction false} SlugKeepsSlugText(s: string)
    requires IsSlugText(s)
    ensures Slug(s) == s
  {
    if s != [] {
      SlugKeepsSlugText(s[1..]);
    }
  }

  /** Deriving a slug twice gives the same id as deriving it once. */
  lemma SlugIdempotent(s: string)
    ensures Slug(Slug(s)) == Slug(s)
  {
    SlugIsSlugText(s);
    SlugKeepsSlugText(Slug(s));
  }
}
