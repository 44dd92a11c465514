/**
 * The lexical shapes the validators test values against: what Python's
 * regular-expression `$` anchor lets through, the decimal literal of the
 * pattern `(\d+)(\.\d+)?`, and the part of Python's `float()` grammar that
 * the range check needs.
 */
module Lexical {
  import opened Wrappers
  import opened PyStr

  /**
   * With `re.match` and a pattern `^...$`, `$` matches at the end of the
   * string or just before one final newline. For patterns whose character
   * classes never admit '\n', the string matches exactly when its body,
   * the string without that final newline, matches the pattern in full.
   */
  function DollarBody(s: string): (t: string)
    ensures t == s || (s == t + ['\n'])
    ensures (s == [] || s[|s| - 1] != '\n') ==> t == s
  {
    if |s| > 0 && s[|s| - 1] == '\n' then s[..|s| - 1] else s
  }

  /** The length of the longest run of ASCII digits at the start of `s`. */
  function LeadingDigits(s: string): (k: nat)
    ensures k <= |s|
    ensures k < |s| ==> !IsAsciiDigit(s[k])
  {
    if |s| > 0 && IsAsciiDigit(s[0]) then 1 + LeadingDigits(s[1..]) else 0
  }

  /** The run `LeadingDigits` measures is made of digits. */
  lemma {:induction false} LeadingDigitsAreDigits(s: string)
    ensures AllDigits(s[..LeadingDigits(s)])
  {
    if |s| > 0 && IsAsciiDigit(s[0]) {
      var k := LeadingDigits(s);
      LeadingDigitsAreDigits(s[1..]);
      assert s[..k] == [s[0]] + s[1..][..k - 1];
    }
  }

  /**
   * The grammar of `(\d+)(\.\d+)?` matched against all of `t`, with `ip` the
   * integer digits and `fp` the fraction digits (empty without a point).
   */
  ghost predicate IsDecimalLiteral(t: string, ip: string, fp: string)
  {
    && |ip| > 0 && AllDigits(ip) && AllDigits(fp)
    && t == (if fp == [] then ip else ip + ['.'] + fp)
  }

  /** The two groups of `(\d+)(\.\d+)?` when it matches all of `t`. */
  function DecimalParts(t: string): Option<(string, string)>
  {
    var k := LeadingDigits(t);
    if k == 0 then None
    else if k == |t| then Some((t, []))
    else if t[k] == '.' && k + 1 < |t| && AllDigits(t[k + 1..]) then Some((t[..k], t[k + 1..]))
    else None
  }

  /** What `DecimalParts` returns is a decomposition by the grammar. */
  lemma DecimalPartsSound(t: string)
    requires DecimalParts(t).Some?
    ensures IsDecimalLiteral(t, DecimalParts(t).value.0, DecimalParts(t).value.1)
  {
    var k := LeadingDigits(t);
    LeadingDigitsAreDigits(t);
    if k < |t| {
      assert t == t[..k] + ['.'] + t[k + 1..];
    }
  }

  /** Every decomposition by the grammar is the one `DecimalParts` finds. */
  lemma DecimalPartsComplete(t: string, ip: string, fp: string)
    requires IsDecimalLiteral(t, ip, fp)
    ensures DecimalParts(t) == Some((ip, fp))
  {
    var k := LeadingDigits(t);
    LeadingDigitsAreDigits(t);
    if fp != [] {
      assert t[|ip|] == '.';
      assert k == |ip|;
      assert t[..k] == ip && t[k + 1..] == fp;
    }
  }

  /**
   * The subset of Python's `float()` grammar the model accepts, after the
   * sign: digits with an optional point and optional fraction digits, or a
   * point followed by at least one digit.
   */
  function FloatParts(t: string): Option<(string, string)>
  {
    var k := LeadingDigits(t);
    if k == |t| then (if k > 0 then Some((t, [])) else None)
    else if t[k] == '.' && AllDigits(t[k + 1..]) && (k > 0 || k + 1 < |t|) then Some((t[..k], t[k + 1..]))
    else None
  }

  function DigitValue(c: char): nat
    requires IsAsciiDigit(c)
  {
    (c as int - '0' as int) as nat
  }

  /** The natural number a digit string denotes in base ten. */
  function DigitsValue(s: string): nat
    requires AllDigits(s)
  {
    if s == [] then 0 else 10 * DigitsValue(s[..|s| - 1]) + DigitValue(s[|s| - 1])
  }

  /** The value in [0, 1) of fraction digits `fp`, read after a point. */
  function FractionValue(fp: string): (x: real)
    requires AllDigits(fp)
    ensures 0.0 <= x < 1.0
  {
    if fp == [] then 0.0 else (DigitValue(fp[0]) as real + FractionValue(fp[1..])) / 10.0
  }

  /** The exact value of digits `ip` followed by the fraction digits `fp`. */
  function PointValue(ip: string, fp: string): real
    requires AllDigits(ip) && AllDigits(fp)
  {
    DigitsValue(ip) as real + FractionValue(fp)
  }

  /**
   * `float(s)` over the accepted grammar: an optional sign followed by an
   * unsigned literal, read as an exact rational number. `None` stands for
   * the `ValueError` Python raises.
   */
  function ParseFloat(s: string): Option<real>
  {
    var signed := |s| > 0 && (s[0] == '+' || s[0] == '-');
    var body := if signed then s[1..] else s;
    match FloatParts(body)
    case None => None
    case Some((ip, fp)) =>
      assert AllDigits(ip) && AllDigits(fp) by {
        var k := LeadingDigits(body);
        LeadingDigitsAreDigits(body);
        assert k == |body| ==> ip == body[..k];
      }
      var v := PointValue(ip, fp);
      Some(if signed && s[0] == '-' then -v else v)
  }

  /** Every literal of the decimal grammar is accepted by `float()` and has the value its digits denote. */
  lemma DecimalParsesAsFloat(t: string, ip: string, fp: string)
    requires IsDecimalLiteral(t, ip, fp)
    ensures ParseFloat(t) == Some(PointValue(ip, fp))
    ensures PointValue(ip, fp) >= 0.0
  {
    DecimalPartsComplete(t, ip, fp);
    var k := LeadingDigits(t);
    assert k == |ip|;
    assert t[0] == ip[0];
  }

  /** A sign in front of an accepted literal negates (or keeps) its value. */
  lemma SignedFloat(sign: char, t: string)
    requires sign == '-' || sign == '+'
    requires t == [] || (t[0] != '-' && t[0] != '+')
    ensures ParseFloat([sign] + t) == match ParseFloat(t)
                                      case None => None
                                      case Some(x) => Some(if sign == '-' then -x else x)
  {
    assert ([sign] + t)[1..] == t;
  }
}
