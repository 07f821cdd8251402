/**
 * The few pieces of java.lang behaviour the protocol and configuration code
 * relies on: String.trim, the regular-expression class \s, String.startsWith,
 * ASCII upper-casing, Integer.parseInt and the truncating remainder operator.
 */
module JavaLang {
  import opened Wrappers

  const INT_MIN: int := -0x8000_0000
  const INT_MAX: int := 0x7fff_ffff

  /** String.trim removes every leading and trailing character up to U+0020. */
  predicate IsTrimmable(c: char) { c <= ' ' }

  /** The characters the regular expression \s matches: [ \t\n\x0B\f\r]. */
  predicate IsRegexSpace(c: char) { c == ' ' || '\t' <= c <= '\r' }

  lemma RegexSpaceIsTrimmable(c: char)
    ensures IsRegexSpace(c) ==> IsTrimmable(c)
  {
  }

  function TrimStart(s: string): (r: string)
    ensures |r| <= |s|
    ensures r == [] || !IsTrimmable(r[0])
    ensures forall i :: 0 <= i < |s| - |r| ==> IsTrimmable(s[i])
  {
    if s == [] || !IsTrimmable(s[0]) then s else TrimStart(s[1..])
  }

  function TrimEnd(s: string): (r: string)
    ensures |r| <= |s|
    ensures r == [] || !IsTrimmable(r[|r| - 1])
    ensures forall i :: |r| <= i < |s| ==> IsTrimmable(s[i])
  {
    if s == [] || !IsTrimmable(s[|s| - 1]) then s else TrimEnd(s[..|s| - 1])
  }

  /** What trimStart keeps is a suffix of its input. */
  lemma {:induction false} TrimStartSuffix(s: string)
    ensures TrimStart(s) == s[|s| - |TrimStart(s)|..]
  {
    if s != [] && IsTrimmable(s[0]) {
      TrimStartSuffix(s[1..]);
    }
  }

  /** What trimEnd keeps is a prefix of its input. */
  lemma {:induction false} TrimEndPrefix(s: string)
    ensures TrimEnd(s) == s[..|TrimEnd(s)|]
  {
    if s != [] && IsTrimmable(s[|s| - 1]) {
      TrimEndPrefix(s[..|s| - 1]);
    }
  }

  /** String.trim(). */
  function Trim(s: string): string
  {
    TrimEnd(TrimStart(s))
  }

  /** A string String.trim() leaves alone: empty, or no trimmable character at either end. */
  predicate IsTrimmed(s: string)
  {
    s == [] || (!IsTrimmable(s[0]) && !IsTrimmable(s[|s| - 1]))
  }

  /** How many characters trim() cuts from the front of s. */
  function TrimOffset(s: string): (a: nat)
    ensures a + |Trim(s)| <= |s|
  {
    |s| - |TrimStart(s)|
  }

  /** trim() yields a trimmed string that sits inside its input, with only trimmable characters cut away. */
  lemma TrimSpec(s: string)
    ensures IsTrimmed(Trim(s))
    ensures Trim(s) == s[TrimOffset(s)..TrimOffset(s) + |Trim(s)|]
    ensures Trim(s) == [] <==> forall i :: 0 <= i < |s| ==> IsTrimmable(s[i])
  {
    var t := TrimStart(s);
    var r := TrimEnd(t);
    var a := |s| - |t|;
    TrimStartSuffix(s);
    TrimEndPrefix(t);
    assert t == s[a..];
    assert r == t[..|r|];
    assert r == s[a..a + |r|];
    if r != [] {
      assert r[0] == t[0];
      assert !IsTrimmable(s[a]);
    }
  }

  /** trim() is the identity exactly on trimmed strings; in particular it is idempotent. */
  lemma TrimIdentity(s: string)
    ensures Trim(s) == s <==> IsTrimmed(s)
    ensures Trim(Trim(s)) == Trim(s)
  {
    TrimSpec(s);
    if IsTrimmed(s) {
      TrimmedFixed(s);
    }
    TrimmedFixed(Trim(s));
  }

  lemma TrimmedFixed(s: string)
    requires IsTrimmed(s)
    ensures Trim(s) == s
  {
    assert TrimStart(s) == s;
  }

  /** String.startsWith. */
  predicate StartsWith(s: string, prefix: string)
  {
    |prefix| <= |s| && s[..|prefix|] == prefix
  }

  /** Character.toUpperCase restricted to ASCII letters. */
  function UpperChar(c: char): (u: char)
    ensures 'a' <= c <= 'z' ==> 'A' <= u <= 'Z' && u as int == c as int - 32
    ensures !('a' <= c <= 'z') ==> u == c
  {
    if 'a' <= c <= 'z' then (c as int - 32) as char else c
  }

  /** String.toUpperCase on ASCII text. */
  function ToUpper(s: string): (u: string)
    ensures |u| == |s| && forall i :: 0 <= i < |s| ==> u[i] == UpperChar(s[i])
  {
    if s == [] then [] else [UpperChar(s[0])] + ToUpper(s[1..])
  }

  /** Upper-casing leaves a character that is not a lower-case letter alone, so a space stays a space. */
  lemma UpperKeepsSpaces(s: string)
    ensures forall i :: 0 <= i < |s| ==> (IsRegexSpace(ToUpper(s)[i]) <==> IsRegexSpace(s[i]))
  {
  }

  predicate IsDigit(c: char) { '0' <= c <= '9' }

  predicate AllDigits(s: string) { forall i :: 0 <= i < |s| ==> IsDigit(s[i]) }

  /** The decimal value of a string of digits, most significant first. */
  function DigitsValue(s: string): nat
    requires AllDigits(s)
  {
    if s == [] then 0 else DigitsValue(s[..|s| - 1]) * 10 + (s[|s| - 1] as int - '0' as int)
  }

  /**
   * Integer.parseInt(s): an optional '+' or '-', then at least one decimal
   * digit, and a value inside the 32-bit range; anything else raises
   * NumberFormatException, which is None here.
   */
  function ParseInt(s: string): (r: Option<int>)
    ensures r.Some? ==> INT_MIN <= r.value <= INT_MAX
    ensures r.Some? <==>
      var body := if s != [] && (s[0] == '-' || s[0] == '+') then s[1..] else s;
      body != [] && AllDigits(body) &&
      INT_MIN <= (if s[0] == '-' then -(DigitsValue(body) as int) else DigitsValue(body)) <= INT_MAX
  {
    if s == [] then None
    else
      var body := if s[0] == '-' || s[0] == '+' then s[1..] else s;
      if body == [] || !AllDigits(body) then None
      else
        var v := if s[0] == '-' then -(DigitsValue(body) as int) else DigitsValue(body);
        if INT_MIN <= v <= INT_MAX then Some(v) else None
  }

  /** The decimal digits of n, most significant first, with no leading zero: Integer.toString of a non-negative value. */
  function DigitsOf(n: nat): (s: string)
    ensures s != [] && AllDigits(s)
    decreases n
  {
    if n < 10 then [('0' as int + n) as char]
    else DigitsOf(n / 10) + [('0' as int + n % 10) as char]
  }

  /** Integer.toString(v): a '-' for negative values, then the digits of the magnitude. */
  function Decimal(v: int): string
  {
    if v < 0 then "-" + DigitsOf(-v) else DigitsOf(v)
  }

  /** Reading back the digits of n gives n. */
  lemma {:induction false} DigitsRoundTrip(n: nat)
    ensures DigitsValue(DigitsOf(n)) == n
    decreases n
  {
    var s := DigitsOf(n);
    if n < 10 {
      assert s[..|s| - 1] == [];
    } else {
      DigitsRoundTrip(n / 10);
      assert s[..|s| - 1] == DigitsOf(n / 10);
      assert s[|s| - 1] as int - '0' as int == n % 10;
    }
  }

  /**
   * parseInt reads back the decimal rendering of every 32-bit value: the value
   * parseInt gives is the number the digits denote, with its sign.
   */
  lemma ParseIntDecimal(v: int)
    requires INT_MIN <= v <= INT_MAX
    ensures ParseInt(Decimal(v)) == Some(v)
  {
    var s := Decimal(v);
    if v < 0 {
      DigitsRoundTrip(-v);
      assert s[0] == '-' && s[1..] == DigitsOf(-v);
    } else {
      DigitsRoundTrip(v);
      var d := DigitsOf(v);
      assert IsDigit(d[0]);
    }
  }

  /** A leading zero does not change the value a string of digits denotes. */
  lemma {:induction false} LeadingZeroValue(s: string)
    requires AllDigits(s)
    ensures AllDigits("0" + s) && DigitsValue("0" + s) == DigitsValue(s)
    decreases |s|
  {
    var t := "0" + s;
    assert AllDigits(t) by {
      forall i | 0 <= i < |t|
        ensures IsDigit(t[i])
      {
        if i > 0 { assert t[i] == s[i - 1]; }
      }
    }
    if s != [] {
      var init := s[..|s| - 1];
      LeadingZeroValue(init);
      assert t[..|t| - 1] == "0" + init;
      assert t[|t| - 1] == s[|s| - 1];
    }
  }

  /** parseInt ignores a leading '+' and leading zeros: "+7", "007" and "-07" read as 7, 7 and -7. */
  lemma ParseIntPlusAndZeros(s: string)
    requires s != [] && AllDigits(s)
    ensures ParseInt("+" + s) == ParseInt(s)
    ensures ParseInt("0" + s) == ParseInt(s)
    ensures ParseInt("-" + ("0" + s)) == ParseInt("-" + s)
  {
    assert ("+" + s)[1..] == s;
    assert ("-" + s)[1..] == s;
    assert ("-" + ("0" + s))[1..] == "0" + s;
    LeadingZeroValue(s);
    assert IsDigit(s[0]);
  }

  /** A digit string without a leading zero (or the single digit "0") is the decimal rendering of its value. */
  lemma {:induction false} CanonicalDigits(s: string)
    requires s != [] && AllDigits(s) && (s[0] != '0' || |s| == 1)
    ensures DigitsOf(DigitsValue(s)) == s
    decreases |s|
  {
    var last := s[|s| - 1];
    var d := last as int - '0' as int;
    assert IsDigit(last);
    if |s| == 1 {
      assert s[..0] == [];
      assert s == [last];
    } else {
      var init := s[..|s| - 1];
      assert init[0] == s[0];
      CanonicalDigits(init);
      var v := DigitsValue(init);
      assert DigitsOf(0) == "0";
      assert v != 0;
      var n := DigitsValue(s);
      assert n == v * 10 + d && 0 <= d < 10;
      assert n / 10 == v && n % 10 == d;
      assert DigitsOf(n) == DigitsOf(v) + [('0' as int + d) as char];
      assert s == init + [last];
    }
  }

  /** The digits left once the leading zeros are dropped, keeping at least one digit. */
  function StripZeros(s: string): (c: string)
    requires s != [] && AllDigits(s)
    ensures c != [] && AllDigits(c) && (c[0] != '0' || |c| == 1)
    ensures |c| <= |s| && c == s[|s| - |c|..]
    ensures forall i :: 0 <= i < |s| - |c| ==> s[i] == '0'
    ensures DigitsValue(c) == DigitsValue(s)
    decreases |s|
  {
    if s[0] == '0' && |s| > 1 then
      LeadingZeroValue(s[1..]);
      assert "0" + s[1..] == s;
      StripZeros(s[1..])
    else s
  }

  /**
   * The value parseInt gives any string it accepts: its decimal rendering is
   * the input without a '+' and without leading zeros, and "-0" reads as 0.
   */
  lemma ParseIntCanonical(s: string)
    requires ParseInt(s).Some?
    ensures var body := if s[0] == '-' || s[0] == '+' then s[1..] else s;
            var c := StripZeros(body);
            Decimal(ParseInt(s).value) == if s[0] == '-' && c != "0" then "-" + c else c
  {
    var body := if s[0] == '-' || s[0] == '+' then s[1..] else s;
    var c := StripZeros(body);
    var n := DigitsValue(c);
    assert n == DigitsValue(body);
    CanonicalDigits(c);
    assert DigitsOf(n) == c;
    var v := ParseInt(s).value;
    if s[0] == '-' {
      assert v == -(n as int);
      if n == 0 {
        assert c == "0";
      } else {
        assert c != "0";
        assert Decimal(v) == "-" + c;
      }
    } else {
      assert v == n;
    }
  }

  /** A minus sign on zero is read as zero: "-0" and "-00" give 0. */
  lemma ParseIntMinusZero()
    ensures ParseInt("-0") == Some(0)
    ensures ParseInt("-00") == Some(0)
  {
    assert "-0"[1..] == "0";
    assert "-00"[1..] == "00";
    assert "0"[..0] == [];
    assert "00"[..1] == "0";
  }

  /** A string Integer.parseInt accepts contains no trimmable character, so it is its own trim. */
  lemma ParsedIsTrimmed(s: string)
    requires ParseInt(s).Some?
    ensures forall i :: 0 <= i < |s| ==> !IsTrimmable(s[i])
    ensures Trim(s) == s
  {
    var body := if s[0] == '-' || s[0] == '+' then s[1..] else s;
    assert AllDigits(body);
    forall i | 0 <= i < |s|
      ensures !IsTrimmable(s[i])
    {
      if s[0] == '-' || s[0] == '+' {
        if i > 0 { assert s[i] == body[i - 1]; }
      } else {
        assert s[i] == body[i];
      }
    }
    TrimmedFixed(s);
  }

  /** Java's a % n: truncates toward zero, so the remainder takes the sign of a and its magnitude is |a| mod |n|. */
  function JavaRem(a: int, n: int): (r: int)
    requires n != 0
    ensures Abs(r) < Abs(n)
    ensures a >= 0 ==> r >= 0
    ensures a <= 0 ==> r <= 0
    ensures Abs(r) == Abs(a) % Abs(n)
  {
    if a >= 0 then a % Abs(n) else -((-a) % Abs(n))
  }

  function Abs(x: int): (r: nat)
    ensures r == x || r == -x
  {
    if x < 0 then -x else x
  }
}
