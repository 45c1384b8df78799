/** Numbers, words and string bodies as RFC 8259 writes them, and that the lexical layer takes exactly these. */
module JsonGrammar {
  import opened JsonText

  // ---------------------------------------------------------------------------------- numbers (section 6)

  predicate Digits(s: string) {
    s != "" && forall i :: 0 <= i < |s| ==> '0' <= s[i] <= '9'
  }

  predicate IsInt(s: string) {
    s == "0" || (Digits(s) && s[0] != '0')
  }

  predicate IsFrac(s: string) {
    s == "" || (s[0] == '.' && Digits(s[1..]))
  }

  predicate IsExp(s: string) {
    s == "" || ((s[0] == 'e' || s[0] == 'E') && (Digits(s[1..]) || (|s| > 1 && (s[1] == '+' || s[1] == '-') && Digits(s[2..]))))
  }

  predicate Pieces(s: string, sign: string, whole: string, frac: string, exp: string) {
    s == sign + whole + frac + exp && (sign == "" || sign == "-") && IsInt(whole) && IsFrac(frac) && IsExp(exp)
  }

  ghost predicate IsNumeral(s: string) {
    exists sign, whole, frac, exp :: Pieces(s, sign, whole, frac, exp)
  }

  /** A value that is neither a string nor a container. */
  ghost predicate IsWord(s: string) {
    s == "true" || s == "false" || s == "null" || IsNumeral(s)
  }

  /** Digits in a text, up to something that is none. */
  lemma {:induction false} DigitsEnd(s: string, i: nat, j: nat)
    requires i <= j <= |s| && (forall k :: i <= k < j ==> '0' <= s[k] <= '9') && (j < |s| ==> !('0' <= s[j] <= '9'))
    ensures SkipDigits(s, i) == j
    decreases j - i
  {
    if i < j {
      DigitsEnd(s, i + 1, j);
    }
  }

  lemma IntegerIs(s: string, sign: string, whole: string, rest: string)
    requires s == sign + whole + rest && (sign == "" || sign == "-") && IsInt(whole) && (rest == "" || rest[0] in ".eE")
    ensures IntegerPart(s) == Reached(|sign| + |whole|)
  {
    hide SkipDigits;
    var i := |sign|;
    assert s[i] == whole[0] && s[0] == (if sign == "" then whole[0] else '-');
    if whole != "0" {
      assert forall k :: i <= k < i + |whole| ==> s[k] == whole[k - i];
      assert i + |whole| < |s| ==> s[i + |whole|] == rest[0];
      DigitsEnd(s, i, i + |whole|);
    }
  }

  lemma FractionIs(s: string, before: string, frac: string, exp: string)
    requires s == before + frac + exp && IsFrac(frac) && IsExp(exp)
    ensures Fraction(s, |before|) == Reached(|before| + |frac|)
  {
    hide SkipDigits;
    var i := |before|;
    assert i < |s| ==> s[i] == if frac == "" then exp[0] else frac[0];
    if frac != "" {
      assert forall k :: i + 1 <= k < i + |frac| ==> s[k] == frac[1..][k - i - 1];
      assert i + |frac| < |s| ==> s[i + |frac|] == exp[0];
      DigitsEnd(s, i + 1, i + |frac|);
    }
  }

  lemma ExponentIs(s: string, before: string, exp: string)
    requires s == before + exp && IsExp(exp)
    ensures Exponent(s, |before|) == Reached(|s|)
  {
    hide SkipDigits;
    var i := |before|;
    if exp != "" {
      assert s[i] == exp[0] && s[i + 1] == exp[1];
      var k := if exp[1] == '+' || exp[1] == '-' then 2 else 1;
      assert forall n :: i + k <= n < |s| ==> s[n] == exp[k..][n - i - k];
      DigitsEnd(s, i + k, |s|);
    }
  }

  lemma NumeralChecks(s: string, sign: string, whole: string, frac: string, exp: string)
    requires Pieces(s, sign, whole, frac, exp)
    ensures CheckPrimitive(s) && IsNumber(s)
  {
    hide IntegerPart, Fraction, Exponent;
    assert s == sign + whole + (frac + exp);
    IntegerIs(s, sign, whole, frac + exp);
    FractionIs(s, sign + whole, frac, exp);
    ExponentIs(s, sign + whole + frac, exp);
    assert s[0] == if sign == "" then whole[0] else '-';
  }

  lemma IntegerSpells(s: string) returns (n: nat)
    requires IntegerPart(s).Reached?
    ensures var a := IntegerPart(s).pos; n <= a <= |s| && (s[..n] == "" || s[..n] == "-") && IsInt(s[n..a])
  {
    hide SkipDigits;
    n := if s[0] == '-' then 1 else 0;
    var whole := s[n..IntegerPart(s).pos];
    assert whole[0] == s[n];
  }

  lemma FractionSpells(s: string, i: nat)
    requires i <= |s| && Fraction(s, i).Reached?
    ensures IsFrac(s[i..Fraction(s, i).pos])
  {
    hide SkipDigits;
    var e := Fraction(s, i).pos;
    if e > i {
      assert s[i..e][0] == s[i] && s[i..e][1..] == s[i + 1..e];
    }
  }

  lemma ExponentSpells(s: string, i: nat)
    requires i <= |s| && Exponent(s, i) == Reached(|s|)
    ensures IsExp(s[i..])
  {
    hide SkipDigits;
    var u := s[i..];
    if u != "" {
      assert u[0] == s[i] && u[1] == s[i + 1] && u[1..] == s[i + 1..];
      if u[1] == '+' || u[1] == '-' {
        assert u[2..] == s[i + 2..];
      }
    }
  }

  lemma NumberSpells(s: string)
    requires IsNumber(s)
    ensures IsNumeral(s)
  {
    hide IntegerPart, Fraction, Exponent, IsInt, IsFrac, IsExp;
    var a := IntegerPart(s).pos;
    var b := Fraction(s, a).pos;
    var n := IntegerSpells(s);
    FractionSpells(s, a);
    ExponentSpells(s, b);
    Reassembles(s, n, a, b);
    assert Pieces(s, s[..n], s[n..a], s[a..b], s[b..]);
  }

  lemma Reassembles(s: string, n: nat, a: nat, b: nat)
    requires n <= a <= b <= |s|
    ensures s == s[..n] + s[n..a] + s[a..b] + s[b..]
  {
  }

  /** The check of a primitive accepts the words and the numbers of the standard and nothing else. */
  lemma WordIff(s: string)
    ensures CheckPrimitive(s) <==> IsWord(s)
  {
    hide IsNumber, Pieces;
    if CheckPrimitive(s) && IsNumber(s) {
      NumberSpells(s);
    }
    if IsNumeral(s) {
      var sign, whole, frac, exp :| Pieces(s, sign, whole, frac, exp);
      NumeralChecks(s, sign, whole, frac, exp);
    }
  }

  // ---------------------------------------------------------------------------- string bodies (section 7)

  predicate IsHexDigit(c: char) {
    c in "0123456789abcdefABCDEF"
  }

  predicate IsLetter(c: char) {
    c in "\"\\/bfnrt" || c == '\0'
  }

  /**
   * One character as it is written: itself, a backslash and a letter, or \u and four digits. Behind a backslash a zero
   * byte passes as well.
   */
  predicate IsUnit(u: string) {
    || (|u| == 1 && u[0] != '"' && u[0] != '\\' && u[0] as int >= 32)
    || (|u| == 2 && u[0] == '\\' && IsLetter(u[1]))
    || (|u| == 6 && u[0] == '\\' && u[1] == 'u' && IsHexDigit(u[2]) && IsHexDigit(u[3]) && IsHexDigit(u[4]) && IsHexDigit(u[5]))
  }

  function Concat(units: seq<string>): string {
    if units == [] then "" else units[0] + Concat(units[1..])
  }

  ghost predicate Written(units: seq<string>, s: string) {
    Concat(units) == s && forall i :: 0 <= i < |units| ==> IsUnit(units[i])
  }

  ghost predicate IsBody(s: string) {
    exists units :: Written(units, s)
  }

  lemma HexIff(c: char)
    ensures IsHexDigit(c) <==> IsHex(c)
  {
    var h := "0123456789abcdefABCDEF";
    if IsHex(c) {
      var i := if c <= '9' then c as int - '0' as int else if c <= 'F' then c as int - 'A' as int + 16 else c as int - 'a' as int + 10;
      assert h[i] == c;
    }
  }

  lemma LetterIff(c: char)
    ensures IsLetter(c) <==> IsEscape(c)
    ensures !IsLetter('u')
  {
  }

  /** What closes a string after its first unit. */
  lemma UnitStep(t: string, i: nat, u: string)
    requires IsUnit(u) && i + |u| < |t| && t[i..i + |u|] == u
    ensures StringEnd(t, i) == StringEnd(t, i + |u|)
  {
    assert forall k :: 0 <= k < |u| ==> t[i + k] == u[k];
    hide IsHex, IsHexDigit, IsEscape, IsLetter;
    LetterIff(if |u| > 1 then u[1] else '"');
    if |u| == 6 {
      HexIff(u[2]); HexIff(u[3]); HexIff(u[4]); HexIff(u[5]);
    }
  }

  lemma {:induction false} UnitsClose(t: string, i: nat, units: seq<string>)
    requires forall k :: 0 <= k < |units| ==> IsUnit(units[k])
    requires i + |Concat(units)| < |t| && t[i..i + |Concat(units)|] == Concat(units) && t[i + |Concat(units)|] == '"'
    ensures StringEnd(t, i) == CloseAt(i + |Concat(units)|)
    decreases |units|
  {
    hide IsUnit;
    if units != [] {
      var u, rest := units[0], Concat(units[1..]);
      assert t[i..i + |u|] == t[i..i + |u + rest|][..|u|];
      assert t[i + |u|..i + |u| + |rest|] == t[i..i + |u + rest|][|u|..];
      UnitStep(t, i, u);
      UnitsClose(t, i + |u|, units[1..]);
    }
  }

  /** The first unit of a body that closes. */
  lemma FirstUnit(t: string, i: nat) returns (n: nat)
    requires i < |t| && StringEnd(t, i).CloseAt? && t[i] != '"'
    ensures 1 <= n && i + n < |t| && IsUnit(t[i..i + n]) && StringEnd(t, i) == StringEnd(t, i + n)
  {
    hide IsHex, IsHexDigit, IsEscape, IsLetter;
    LetterIff(if i + 1 < |t| then t[i + 1] else '"');
    n := if t[i] != '\\' then 1 else if t[i + 1] == 'u' then 6 else 2;
    var u := t[i..i + n];
    assert u[0] == t[i];
    if n == 6 {
      assert u[1] == t[i + 1] && u[2] == t[i + 2] && u[3] == t[i + 3] && u[4] == t[i + 4] && u[5] == t[i + 5];
      HexIff(t[i + 2]); HexIff(t[i + 3]); HexIff(t[i + 4]); HexIff(t[i + 5]);
    } else if n == 2 {
      assert u[1] == t[i + 1];
    }
  }

  lemma {:induction false} UnitsOf(t: string, i: nat) returns (units: seq<string>)
    requires i <= |t| && StringEnd(t, i).CloseAt?
    ensures i <= StringEnd(t, i).pos && Written(units, t[i..StringEnd(t, i).pos])
    decreases |t| - i
  {
    hide IsUnit;
    var e := StringEnd(t, i).pos;
    if t[i] == '"' {
      units := [];
    } else {
      var n := FirstUnit(t, i);
      var rest := UnitsOf(t, i + n);
      units := [t[i..i + n]] + rest;
      assert units[1..] == rest && t[i..e] == t[i..i + n] + t[i + n..e];
    }
  }

  /** A body closes at the quote behind it exactly when it is made of units. */
  lemma BodyIff(s: string)
    ensures StringEnd(s + "\"", 0) == CloseAt(|s|) <==> IsBody(s)
  {
    hide StringEnd, Concat, IsUnit;
    var t := s + "\"";
    assert t[0..|s|] == s;
    if StringEnd(t, 0) == CloseAt(|s|) {
      var units := UnitsOf(t, 0);
    }
    if IsBody(s) {
      var units :| Written(units, s);
      UnitsClose(t, 0, units);
    }
  }
}
