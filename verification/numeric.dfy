/** The numeric cleaner `_clean_numeric_series` (etl.py:116-123), applied to one
    value: trim, blank to null, drop `,` `$` `%`, rewrite `(x)` to `-x`, parse,
    unparseable to null. Numbers are exact decimals. */
module Numeric {
  import opened Wrappers
  import opened Text
  import opened Seqs

  /** The exact number `mantissa / 10^scale`. */
  datatype Decimal = Decimal(mantissa: int, scale: nat)

  function Pow10(k: nat): (r: nat)
    ensures r > 0
  {
    if k == 0 then 1 else 10 * Pow10(k - 1)
  }

  /** The number a decimal denotes. */
  function ToReal(d: Decimal): real {
    d.mantissa as real / Pow10(d.scale) as real
  }

  predicate IsDigit(c: char) {
    '0' <= c <= '9'
  }

  predicate AllDigits(s: string) {
    forall i :: 0 <= i < |s| ==> IsDigit(s[i])
  }

  /** The value of a string of decimal digits (0 for the empty string). */
  function DigitsValue(s: string): nat
    requires AllDigits(s)
  {
    if s == [] then 0
    else 10 * DigitsValue(s[..|s| - 1]) + (s[|s| - 1] as int - '0' as int)
  }

  function DigitChar(d: nat): (c: char)
    requires d < 10
    ensures IsDigit(c) && c as int - '0' as int == d
  {
    ('0' as int + d) as char
  }

  /** The decimal numeral of `n`, without leading zeros. */
  function NatDigits(n: nat): (r: string)
    ensures |r| > 0 && AllDigits(r) && DigitsValue(r) == n
  {
    if n < 10 then [DigitChar(n)]
    else
      var r := NatDigits(n / 10) + [DigitChar(n % 10)];
      assert r[..|r| - 1] == NatDigits(n / 10);
      r
  }

  /** `n` zero digits. */
  function Zeros(n: nat): (r: string)
    ensures |r| == n && AllDigits(r) && DigitsValue(r) == 0
  {
    if n == 0 then []
    else
      var r := Zeros(n - 1) + "0";
      assert r[..|r| - 1] == Zeros(n - 1);
      r
  }

  /** Reading `a + b` as one numeral shifts `a` by the length of `b`. */
  lemma {:induction false} DigitsAppend(a: string, b: string)
    requires AllDigits(a) && AllDigits(b)
    ensures AllDigits(a + b)
    ensures DigitsValue(a + b) == DigitsValue(a) * Pow10(|b|) + DigitsValue(b)
    decreases |b|
  {
    AllDigitsAppend(a, b);
    if b == [] {
      assert a + b == a;
    } else {
      var b' := b[..|b| - 1];
      var d := b[|b| - 1] as int - '0' as int;
      assert (a + b)[..|a + b| - 1] == a + b';
      assert (a + b)[|a + b| - 1] == b[|b| - 1];
      DigitsAppend(a, b');
      var x, p, v := DigitsValue(a), Pow10(|b'|), DigitsValue(b');
      assert DigitsValue(a + b) == 10 * (x * p + v) + d;
      assert DigitsValue(b) == 10 * v + d;
      assert Pow10(|b|) == 10 * p;
      ScaleProduct(x, p);
    }
  }

  lemma AllDigitsAppend(a: string, b: string)
    requires AllDigits(a) && AllDigits(b)
    ensures AllDigits(a + b)
  {
    forall i | 0 <= i < |a + b| ensures IsDigit((a + b)[i]) {
      if i < |a| { assert (a + b)[i] == a[i]; } else { assert (a + b)[i] == b[i - |a|]; }
    }
  }

  lemma NatDigitsLength(n: nat, k: nat)
    requires k > 0 && n < Pow10(k)
    ensures |NatDigits(n)| <= k
    decreases n
  {
    if n >= 10 {
      assert k > 1;
      assert n / 10 < Pow10(k - 1);
      NatDigitsLength(n / 10, k - 1);
    }
  }

  /** The `k` fractional digits of `r`, zero-padded on the left. */
  function FracDigits(r: nat, k: nat): (f: string)
    requires k > 0 && r < Pow10(k)
    ensures |f| == k && AllDigits(f) && DigitsValue(f) == r
  {
    NatDigitsLength(r, k);
    var z := Zeros(k - |NatDigits(r)|);
    DigitsAppend(z, NatDigits(r));
    z + NatDigits(r)
  }

  /** The integer part of `a / 10^k`, one digit dropped at a time. */
  function WholePart(a: nat, k: nat): nat {
    if k == 0 then a else WholePart(a / 10, k - 1)
  }

  /** The remainder of `a / 10^k`: the last `k` digits as a number. */
  function FracPart(a: nat, k: nat): (r: nat)
    ensures r < Pow10(k)
  {
    if k == 0 then 0 else a % 10 + 10 * FracPart(a / 10, k - 1)
  }

  lemma {:induction false} WholeAndFrac(a: nat, k: nat)
    ensures WholePart(a, k) * Pow10(k) + FracPart(a, k) == a
  {
    if k > 0 {
      WholeAndFrac(a / 10, k - 1);
      var w, p, f := WholePart(a / 10, k - 1), Pow10(k - 1), FracPart(a / 10, k - 1);
      assert WholePart(a, k) == w && Pow10(k) == 10 * p && FracPart(a, k) == a % 10 + 10 * f;
      ScaleProduct(w, p);
    }
  }

  lemma ScaleProduct(w: int, p: int)
    ensures w * (10 * p) == 10 * (w * p)
  {
  }

  /** The numeral of `a / 10^k` without a sign: integer digits, then a point
      and exactly `k` fractional digits when `k > 0`. */
  function UnsignedText(a: nat, k: nat): string {
    if k == 0 then NatDigits(a)
    else NatDigits(WholePart(a, k)) + "." + FracDigits(FracPart(a, k), k)
  }

  /** The canonical text of a decimal, as `str()` of the value would print it
      with exactly `scale` fractional digits. */
  function Render(d: Decimal): string {
    var a := if d.mantissa < 0 then -d.mantissa else d.mantissa;
    (if d.mantissa < 0 then "-" else "") + UnsignedText(a, d.scale)
  }

  /** The accepted syntax after the sign: digits and an optional point with
      more digits, at least one digit in all. The result is the magnitude and
      the number of fractional digits. */
  function ParseUnsigned(body: string): (r: Option<Decimal>)
    ensures r.Some? ==> r.value.mantissa >= 0 && body != []
    ensures r.Some? ==> forall i :: 0 <= i < |body| ==> IsDigit(body[i]) || body[i] == '.'
  {
    var ip := if '.' in body then body[..IndexOf(body, '.')] else body;
    var fp := if '.' in body then body[IndexOf(body, '.') + 1..] else "";
    if AllDigits(ip) && AllDigits(fp) && |ip| + |fp| > 0 then
      DigitsAppend(ip, fp);
      assert forall i :: 0 <= i < |body| ==> IsDigit(body[i]) || body[i] == '.' by {
        if '.' in body {
          var j := IndexOf(body, '.');
          assert body == ip + "." + fp;
          forall i | 0 <= i < |body| ensures IsDigit(body[i]) || body[i] == '.' {
            if i < j { assert body[i] == ip[i]; }
            else if i > j { assert body[i] == fp[i - j - 1]; }
          }
        }
      }
      Some(Decimal(DigitsValue(ip + fp), |fp|))
    else
      None
  }

  function Negate(d: Decimal): Decimal {
    Decimal(-d.mantissa, d.scale)
  }

  /** `pd.to_numeric` on one value, restricted to an optional sign followed by
      the unsigned syntax. Anything else (blank, letters, a lone sign or point,
      any whitespace, a second point) is unparseable and gives the null
      marker. Unlike pandas, whitespace around the number is not skipped: the
      cleaner strips the raw value first, but whitespace that only appears once
      the symbols are deleted (`"$ 5"`) makes the value null. */
  function ParseDecimal(s: string): (r: Option<Decimal>)
    ensures r.Some? ==> s != [] && (r.value.mantissa < 0 ==> s[0] == '-')
    ensures r.Some? ==> forall i :: 0 <= i < |s| ==>
      IsDigit(s[i]) || s[i] == '.' || (i == 0 && (s[i] == '-' || s[i] == '+'))
  {
    var signed := |s| > 0 && (s[0] == '-' || s[0] == '+');
    var body := if signed then s[1..] else s;
    match ParseUnsigned(body)
    case None => None
    case Some(d) =>
      assert forall i :: 0 < i < |s| && signed ==> s[i] == body[i - 1];
      if signed && s[0] == '-' then Some(Negate(d)) else Some(d)
  }

  lemma UnsignedTextShape(a: nat, k: nat)
    ensures |UnsignedText(a, k)| > 0 && IsDigit(UnsignedText(a, k)[0])
    ensures forall i :: 0 <= i < |UnsignedText(a, k)| ==>
      IsDigit(UnsignedText(a, k)[i]) || UnsignedText(a, k)[i] == '.'
  {
    if k > 0 {
      var w := NatDigits(WholePart(a, k));
      var f := FracDigits(FracPart(a, k), k);
      var u := w + "." + f;
      forall i | 0 <= i < |u| ensures IsDigit(u[i]) || u[i] == '.' {
        if i < |w| { assert u[i] == w[i]; }
        else if i > |w| { assert u[i] == f[i - |w| - 1]; }
      }
    }
  }

  lemma ParseWhole(w: string)
    requires AllDigits(w) && w != []
    ensures ParseUnsigned(w) == Some(Decimal(DigitsValue(w), 0))
  {
    assert '.' !in w;
    assert w + "" == w;
  }

  lemma ParsePointed(w: string, f: string)
    requires AllDigits(w) && AllDigits(f) && |w| + |f| > 0
    ensures AllDigits(w + f)
    ensures ParseUnsigned(w + "." + f) == Some(Decimal(DigitsValue(w + f), |f|))
  {
    DigitsAppend(w, f);
    var u := w + "." + f;
    assert u[|w|] == '.';
    var j := IndexOf(u, '.');
    assert u[..|w|] == w;
    assert j == |w|;
    assert u[..j] == w;
    assert u[j + 1..] == f;
  }

  /** The integer and fractional digits of `a / 10^k`, read as one numeral,
      give `a` back. */
  lemma PointedValue(a: nat, k: nat)
    requires k > 0
    ensures AllDigits(NatDigits(WholePart(a, k)) + FracDigits(FracPart(a, k), k))
    ensures DigitsValue(NatDigits(WholePart(a, k)) + FracDigits(FracPart(a, k), k)) == a
  {
    var w := NatDigits(WholePart(a, k));
    var f := FracDigits(FracPart(a, k), k);
    DigitsAppend(w, f);
    WholeAndFrac(a, k);
  }

  /** Reading back an unsigned numeral recovers the magnitude and the number
      of fractional digits. */
  lemma ParseUnsignedText(a: nat, k: nat)
    ensures ParseUnsigned(UnsignedText(a, k)) == Some(Decimal(a, k))
  {
    if k == 0 {
      ParseWhole(NatDigits(a));
    } else {
      var w := NatDigits(WholePart(a, k));
      var f := FracDigits(FracPart(a, k), k);
      assert UnsignedText(a, k) == w + "." + f;
      ParsePointed(w, f);
      PointedValue(a, k);
    }
  }

  /** The same with a sign in front. */
  lemma ParseSignedText(sign: string, a: nat, k: nat)
    requires sign == "" || sign == "-" || sign == "+"
    ensures ParseDecimal(sign + UnsignedText(a, k))
         == Some(if sign == "-" then Negate(Decimal(a, k)) else Decimal(a, k))
  {
    UnsignedTextShape(a, k);
    ParseUnsignedText(a, k);
    ParseSigned(sign, UnsignedText(a, k), Decimal(a, k));
  }

  /** The effect of a leading sign on a value. */
  function SignedBy(sign: string, d: Decimal): Decimal {
    if sign == "-" then Negate(d) else d
  }

  /** A sign in front of an unsigned numeral negates it or leaves it as is. */
  lemma ParseSigned(sign: string, u: string, d: Decimal)
    requires sign == "" || sign == "-" || sign == "+"
    requires u != [] && u[0] != '-' && u[0] != '+'
    requires ParseUnsigned(u) == Some(d)
    ensures ParseDecimal(sign + u) == Some(SignedBy(sign, d))
  {
    var s := sign + u;
    if sign == "" {
      assert s == u;
    } else {
      assert s[1..] == u;
      assert s[0] == sign[0];
    }
  }

  /** A plain numeral as `pd.to_numeric` reads it: an optional sign, integer
      digits `w`, and, when `point` is set, a point and fractional digits `f`.
      Either digit run may be empty (`".50"`, `"5."`), but not both, and
      leading zeros are allowed (`"007"`). */
  predicate IsNumeral(sign: string, w: string, point: bool, f: string) {
    && (sign == "" || sign == "-" || sign == "+")
    && AllDigits(w) && AllDigits(f)
    && (point || f == [])
    && |w| + |f| > 0
  }

  function Numeral(sign: string, w: string, point: bool, f: string): string {
    sign + UnsignedNumeral(w, point, f)
  }

  function UnsignedNumeral(w: string, point: bool, f: string): string {
    if point then w + "." + f else w
  }

  /** The value the digits of a numeral denote: all digits read as one
      integer, scaled down by the number of fractional digits, and negated
      under a minus sign. */
  function NumeralValue(sign: string, w: string, f: string): Decimal
    requires AllDigits(w) && AllDigits(f)
  {
    AllDigitsAppend(w, f);
    SignedBy(sign, Decimal(DigitsValue(w + f), |f|))
  }

  /** Every plain numeral parses, to the value of its digits, whatever its
      spelling: not only the canonical `Render` text. */
  lemma ParseNumeral(sign: string, w: string, point: bool, f: string)
    requires IsNumeral(sign, w, point, f)
    ensures ParseDecimal(Numeral(sign, w, point, f)) == Some(NumeralValue(sign, w, f))
  {
    AllDigitsAppend(w, f);
    ParseUnsignedNumeral(w, point, f);
    ParseSigned(sign, UnsignedNumeral(w, point, f), Decimal(DigitsValue(w + f), |f|));
  }

  /** The unsigned part of a numeral. */
  lemma ParseUnsignedNumeral(w: string, point: bool, f: string)
    requires IsNumeral("", w, point, f)
    ensures AllDigits(w + f)
    ensures UnsignedNumeral(w, point, f) != []
    ensures UnsignedNumeral(w, point, f)[0] != '-' && UnsignedNumeral(w, point, f)[0] != '+'
    ensures ParseUnsigned(UnsignedNumeral(w, point, f)) == Some(Decimal(DigitsValue(w + f), |f|))
  {
    DigitsAppend(w, f);
    if point {
      ParsePointed(w, f);
      assert (w + "." + f)[0] == if w == [] then '.' else w[0];
    } else {
      assert w + f == w;
      ParseWhole(w);
    }
  }

  /** The split the parser makes: what it accepts is digits with at most
      one point. */
  lemma UnsignedShape(body: string) returns (w: string, point: bool, f: string)
    requires ParseUnsigned(body).Some?
    ensures IsNumeral("", w, point, f) && body == UnsignedNumeral(w, point, f)
  {
    if '.' in body {
      var j := IndexOf(body, '.');
      w, point, f := body[..j], true, body[j + 1..];
      assert body == w + "." + f;
    } else {
      w, point, f := body, false, "";
    }
  }

  /** Only numerals parse: whatever the parser accepts is a plain numeral,
      and its value is the value of that numeral's digits. Everything else
      gives the null marker. */
  lemma ParseDecimalOnlyNumerals(s: string)
    requires ParseDecimal(s).Some?
    ensures exists sign, w, point, f ::
              && IsNumeral(sign, w, point, f)
              && s == Numeral(sign, w, point, f)
              && ParseDecimal(s) == Some(NumeralValue(sign, w, f))
  {
    var sign, body := SignShape(s);
    var w, point, f := UnsignedShape(body);
    ParseNumeral(sign, w, point, f);
  }

  /** The split the parser makes at the front: an optional sign, then the
      unsigned part, which the parser accepted. */
  lemma SignShape(s: string) returns (sign: string, body: string)
    requires ParseDecimal(s).Some?
    ensures sign == "" || sign == "-" || sign == "+"
    ensures s == sign + body && ParseUnsigned(body).Some?
  {
    var signed := |s| > 0 && (s[0] == '-' || s[0] == '+');
    sign := if signed then s[..1] else "";
    body := if signed then s[1..] else s;
    assert s == sign + body;
  }

  /** A lone point is not a numeral. */
  lemma LonePointExample()
    ensures ParseDecimal(".") == None
  {
    assert IndexOf(".", '.') == 0;
    assert ParseUnsigned(".") == None;
  }

  /** A lone sign is not a numeral. */
  lemma LoneSignExample()
    ensures ParseDecimal("+") == None
  {
    assert "+"[1..] == "";
    assert ParseUnsigned("") == None;
  }

  /** A second point is not part of a numeral. */
  lemma TwoPointsExample()
    ensures ParseDecimal("1.2.3") == None
  {
    assert IndexOf("1.2.3", '.') == 1;
    assert "1.2.3"[2..] == "2.3" && !IsDigit("2.3"[1]);
    assert ParseUnsigned("1.2.3") == None;
  }

  /** Every rendered decimal parses back to itself. */
  lemma RenderRoundTrip(d: Decimal)
    ensures ParseDecimal(Render(d)) == Some(d)
  {
    if d.mantissa < 0 {
      var a: nat := -d.mantissa;
      assert Render(d) == "-" + UnsignedText(a, d.scale);
      ParseSignedText("-", a, d.scale);
      assert Negate(Decimal(a, d.scale)) == d;
    } else {
      var a: nat := d.mantissa;
      assert Render(d) == "" + UnsignedText(a, d.scale);
      ParseSignedText("", a, d.scale);
    }
  }

  /** The characters the cleaner deletes: comma, dollar and percent. */
  const Symbols: set<char> := {',', '$', '%'}

  /** The anchored parenthesis rewrite: a value wrapped in parentheses
      becomes its negation. `.` does not match a line break, and `$` also
      matches just before a final line break, which stays after the rewrite. */
  function RewriteParens(s: string): (r: string)
    ensures |s| >= 2 && s[0] == '(' && s[|s| - 1] == ')' && '\n' !in s[1..|s| - 1]
      ==> r == "-" + s[1..|s| - 1]
    ensures (|s| == 0 || s[0] != '(') ==> r == s
  {
    if |s| >= 2 && s[0] == '(' && s[|s| - 1] == ')' && '\n' !in s[1..|s| - 1] then
      "-" + s[1..|s| - 1]
    else if |s| >= 3 && s[0] == '(' && s[|s| - 2..] == ")\n" && '\n' !in s[1..|s| - 2] then
      "-" + s[1..|s| - 2] + "\n"
    else
      s
  }

  /** One value through `_clean_numeric_series`. Total: malformed input gives
      the null marker, never an error. */
  function CleanNumeric(raw: string): (r: Option<Decimal>)
    ensures AllSpace(raw) ==> r == None
  {
    var t := Strip(raw);
    assert AllSpace(raw) ==> t == "" by {
      if AllSpace(raw) { StripAllSpace(raw); }
    }
    if t == "" then None
    else
      var u := RewriteParens(Without(t, Symbols));
      if u == "" then None else ParseDecimal(u)
  }

  /** A rendered decimal is made of digits, a point and a leading minus only,
      and never starts with a parenthesis. */
  lemma RenderChars(d: Decimal)
    ensures Render(d) != [] && Render(d)[0] != '('
    ensures forall i :: 0 <= i < |Render(d)| ==>
      IsDigit(Render(d)[i]) || Render(d)[i] == '.' || Render(d)[i] == '-'
  {
    var a: nat := if d.mantissa < 0 then -d.mantissa else d.mantissa;
    var sign := if d.mantissa < 0 then "-" else "";
    var u := UnsignedText(a, d.scale);
    UnsignedTextShape(a, d.scale);
    assert Render(d) == sign + u;
    forall i | 0 <= i < |sign + u|
      ensures IsDigit((sign + u)[i]) || (sign + u)[i] == '.' || (sign + u)[i] == '-'
    {
      if i >= |sign| { assert (sign + u)[i] == u[i - |sign|]; }
    }
  }

  /** A text none of whose characters is whitespace is already trimmed. */
  lemma NoSpaceTrimmed(t: string)
    requires forall i :: 0 <= i < |t| ==> !IsSpace(t[i])
    ensures Strip(t) == t
  {
    StripTrimmed(t);
  }

  /** Every character of `t` survives the symbol removal or is a symbol. */
  lemma KeptOrSymbol(t: string, i: nat)
    requires i < |t|
    ensures t[i] in Symbols || t[i] in Without(t, Symbols)
  {
    WithoutMembers(t, Symbols);
  }

  /** When nothing left after dropping the symbols is whitespace, nothing in
      the text was: the symbols themselves are not whitespace. */
  lemma DecoratedNoSpace(t: string)
    requires forall i :: 0 <= i < |Without(t, Symbols)| ==> !IsSpace(Without(t, Symbols)[i])
    ensures Strip(t) == t
  {
    var u := Without(t, Symbols);
    forall i | 0 <= i < |t| ensures !IsSpace(t[i]) {
      KeptOrSymbol(t, i);
      if t[i] !in Symbols {
        var j :| 0 <= j < |u| && u[j] == t[i];
      }
    }
    NoSpaceTrimmed(t);
  }

  /** Currency signs, thousands separators and percent signs anywhere in a
      numeral do not change its value: any text that becomes the rendering of
      `d` once those symbols are dropped cleans to `d`. */
  lemma CleanDecorated(t: string, d: Decimal)
    requires Without(t, Symbols) == Render(d)
    ensures CleanNumeric(t) == Some(d)
  {
    RenderChars(d);
    DecoratedNoSpace(t);
    RenderRoundTrip(d);
  }

  /** A parenthesised rendering is rewritten to its minus-signed form. */
  lemma ParenRewrite(d: Decimal)
    requires d.mantissa >= 0
    ensures RewriteParens("(" + Render(d) + ")") == "-" + UnsignedText(d.mantissa, d.scale)
  {
    RenderChars(d);
    var r := Render(d);
    var u := "(" + r + ")";
    assert r == UnsignedText(d.mantissa, d.scale);
    assert |u| >= 2 && u[0] == '(' && u[|u| - 1] == ')';
    assert u[1..|u| - 1] == r;
    assert '\n' !in r by {
      forall i | 0 <= i < |r| ensures r[i] != '\n' { }
    }
  }

  /** A parenthesised rendering holds no whitespace. */
  lemma ParenNoSpace(d: Decimal)
    ensures forall i :: 0 <= i < |"(" + Render(d) + ")"| ==> !IsSpace(("(" + Render(d) + ")")[i])
  {
    RenderChars(d);
    var r := Render(d);
    var u := "(" + r + ")";
    forall i | 0 <= i < |u| ensures !IsSpace(u[i]) {
      if 0 < i < |u| - 1 { assert u[i] == r[i - 1]; }
    }
  }

  /** A non-negative numeral in parentheses, decorated with the same symbols,
      cleans to its negation. */
  lemma CleanParenthesised(t: string, d: Decimal)
    requires d.mantissa >= 0
    requires Without(t, Symbols) == "(" + Render(d) + ")"
    ensures CleanNumeric(t) == Some(Negate(d))
  {
    ParenRewrite(d);
    ParenNoSpace(d);
    DecoratedNoSpace(t);
    ParseSignedText("-", d.mantissa, d.scale);
  }

  /** The characters of a numeral: digits, at most a point, and a sign in
      front. */
  lemma NumeralChars(sign: string, w: string, point: bool, f: string)
    requires IsNumeral(sign, w, point, f)
    ensures UnsignedNumeral(w, point, f) != []
    ensures forall i :: 0 <= i < |UnsignedNumeral(w, point, f)| ==>
      IsDigit(UnsignedNumeral(w, point, f)[i]) || UnsignedNumeral(w, point, f)[i] == '.'
    ensures forall i :: 0 <= i < |Numeral(sign, w, point, f)| ==>
      !IsSpace(Numeral(sign, w, point, f)[i]) && Numeral(sign, w, point, f)[i] != '('
  {
    var u := UnsignedNumeral(w, point, f);
    forall i | 0 <= i < |u| ensures IsDigit(u[i]) || u[i] == '.' {
      if point {
        if i < |w| { assert u[i] == w[i]; }
        else if i > |w| { assert u[i] == f[i - |w| - 1]; }
      }
    }
    var n := sign + u;
    forall i | 0 <= i < |n| ensures !IsSpace(n[i]) && n[i] != '(' {
      if i >= |sign| { assert n[i] == u[i - |sign|]; }
    }
  }

  /** Any numeral, in any spelling, decorated with `,` `$` `%` anywhere,
      cleans to the value of its digits. */
  lemma CleanNumeral(t: string, sign: string, w: string, point: bool, f: string)
    requires IsNumeral(sign, w, point, f)
    requires Without(t, Symbols) == Numeral(sign, w, point, f)
    ensures CleanNumeric(t) == Some(NumeralValue(sign, w, f))
  {
    NumeralChars(sign, w, point, f);
    DecoratedNoSpace(t);
    ParseNumeral(sign, w, point, f);
  }

  /** An unsigned numeral in parentheses, decorated with the same symbols,
      cleans to the negated value of its digits. */
  lemma CleanParenNumeral(t: string, w: string, point: bool, f: string)
    requires IsNumeral("", w, point, f)
    requires Without(t, Symbols) == "(" + UnsignedNumeral(w, point, f) + ")"
    ensures CleanNumeric(t) == Some(NumeralValue("-", w, f))
  {
    var u := UnsignedNumeral(w, point, f);
    assert RewriteParens("(" + u + ")") == Numeral("-", w, point, f) by {
      NumeralParens(w, point, f);
    }
    assert forall i :: 0 <= i < |"(" + u + ")"| ==> !IsSpace(("(" + u + ")")[i]) by {
      NumeralChars("", w, point, f);
      ParensNoSpace(u);
    }
    DecoratedNoSpace(t);
    ParseNumeral("-", w, point, f);
  }

  /** The parenthesis rewrite turns a parenthesised numeral into its
      minus-signed form. */
  lemma NumeralParens(w: string, point: bool, f: string)
    requires IsNumeral("", w, point, f)
    ensures RewriteParens("(" + UnsignedNumeral(w, point, f) + ")") == Numeral("-", w, point, f)
  {
    NumeralChars("", w, point, f);
    var u := UnsignedNumeral(w, point, f);
    var v := "(" + u + ")";
    assert v[1..|v| - 1] == u;
    assert '\n' !in u by {
      forall i | 0 <= i < |u| ensures u[i] != '\n' { }
    }
  }

  /** Parentheses around a text free of whitespace add none. */
  lemma ParensNoSpace(u: string)
    requires forall i :: 0 <= i < |u| ==> !IsSpace(u[i])
    ensures forall i :: 0 <= i < |"(" + u + ")"| ==> !IsSpace(("(" + u + ")")[i])
  {
    var v := "(" + u + ")";
    forall i | 0 <= i < |v| ensures !IsSpace(v[i]) {
      if 0 < i < |v| - 1 { assert v[i] == u[i - 1]; }
    }
  }

  /** Only numerals clean to a value: when the cleaner gives a value, the text
      it parsed (stripped, symbols deleted, parentheses rewritten) is a plain
      numeral with that value. */
  lemma CleanOnlyNumerals(t: string)
    requires CleanNumeric(t).Some?
    ensures exists sign, w, point, f ::
              && IsNumeral(sign, w, point, f)
              && RewriteParens(Without(Strip(t), Symbols)) == Numeral(sign, w, point, f)
              && CleanNumeric(t) == Some(NumeralValue(sign, w, f))
  {
    var u := RewriteParens(Without(Strip(t), Symbols));
    assert CleanNumeric(t) == ParseDecimal(u);
    ParseDecimalOnlyNumerals(u);
  }

  /** Whitespace around a value does not change how it cleans. */
  lemma CleanMargins(w1: string, raw: string, w2: string)
    requires AllSpace(w1) && AllSpace(w2)
    ensures CleanNumeric(w1 + raw + w2) == CleanNumeric(raw)
  {
    StripAbsorbs(w1, raw, w2);
  }

  lemma RenderCurrencyExample()
    ensures Render(Decimal(123450, 2)) == "1234.50"
  {
    assert Pow10(2) == 100;
    assert WholePart(123450, 2) == 1234 && FracPart(123450, 2) == 50;
    assert NatDigits(1234) == "1234" && NatDigits(50) == "50" && Zeros(0) == "";
  }

  lemma StripCurrencyExample()
    ensures Without("$1,234.50", Symbols) == "1234.50"
  {
    StripCurrencyTail();
    assert Without("1,234.50", Symbols) == "1234.50" by { assert "1,234.50"[1..] == ",234.50"; }
    assert "$1,234.50"[1..] == "1,234.50";
  }

  lemma StripCurrencyTail()
    ensures Without(",234.50", Symbols) == "234.50"
  {
    WithoutAbsent("234.50", Symbols);
    assert ",234.50"[1..] == "234.50";
  }

  /** Currency and thousands separators are dropped. */
  lemma CleanCurrencyExample()
    ensures CleanNumeric("$1,234.50") == Some(Decimal(123450, 2))
    ensures ToReal(Decimal(123450, 2)) == 1234.50
  {
    RenderCurrencyExample();
    StripCurrencyExample();
    CleanDecorated("$1,234.50", Decimal(123450, 2));
    assert Pow10(2) == 100;
  }

  /** Accounting parentheses make the value negative. */
  lemma CleanParenExample()
    ensures CleanNumeric("(50)") == Some(Decimal(-50, 0))
  {
    assert NatDigits(50) == "50";
    assert Render(Decimal(50, 0)) == "50";
    assert Without(")", Symbols) == ")" by { assert ")"[1..] == ""; }
    assert Without("0)", Symbols) == "0)" by { assert "0)"[1..] == ")"; }
    assert Without("50)", Symbols) == "50)" by { assert "50)"[1..] == "0)"; }
    assert Without("(50)", Symbols) == "(50)" by { assert "(50)"[1..] == "50)"; }
    assert "(" + "50" + ")" == "(50)";
    CleanParenthesised("(50)", Decimal(50, 0));
  }

  /** Parentheses and currency symbols combine. */
  lemma CleanParenCurrencyExample()
    ensures CleanNumeric("($1,234)") == Some(Decimal(-1234, 0))
  {
    ParenCurrencyPieces();
    RenderWholeExample();
    assert "(" + "1234" + ")" == "(1234)";
    CleanParenthesised("($1,234)", Decimal(1234, 0));
  }

  lemma RenderWholeExample()
    ensures Render(Decimal(1234, 0)) == "1234"
  {
    assert NatDigits(1234) == "1234";
  }

  lemma ParenCurrencyPieces()
    ensures Without("($1,234)", Symbols) == "(1234)"
  {
    ParenCurrencyTail();
    assert Without("$1,234)", Symbols) == "1234)" by { assert "$1,234)"[1..] == "1,234)"; }
    assert Without("($1,234)", Symbols) == "(1234)" by { assert "($1,234)"[1..] == "$1,234)"; }
  }

  lemma ParenCurrencyTail()
    ensures Without("1,234)", Symbols) == "1234)"
  {
    WithoutAbsent("234)", Symbols);
    assert Without(",234)", Symbols) == "234)" by { assert ",234)"[1..] == "234)"; }
    assert Without("1,234)", Symbols) == "1234)" by { assert "1,234)"[1..] == ",234)"; }
  }

  lemma PercentPieces()
    ensures Render(Decimal(125, 1)) == "12.5"
    ensures Without("12.5%", Symbols) == "12.5"
  {
    assert Pow10(1) == 10;
    assert WholePart(125, 1) == 12 && FracPart(125, 1) == 5;
    assert NatDigits(12) == "12" && NatDigits(5) == "5" && Zeros(0) == "";
    assert Without("%", Symbols) == "" by { assert "%"[1..] == ""; }
    assert Without("5%", Symbols) == "5" by { assert "5%"[1..] == "%"; }
    assert Without(".5%", Symbols) == ".5" by { assert ".5%"[1..] == "5%"; }
    assert Without("2.5%", Symbols) == "2.5" by { assert "2.5%"[1..] == ".5%"; }
    assert "12.5%"[1..] == "2.5%";
  }

  /** A percent value keeps its number. */
  lemma CleanPercentExample()
    ensures CleanNumeric("12.5%") == Some(Decimal(125, 1))
  {
    PercentPieces();
    CleanDecorated("12.5%", Decimal(125, 1));
  }

  /** Bare symbols become null: nothing is left to parse. */
  lemma CleanSymbolOnlyExample()
    ensures CleanNumeric(",") == None
  {
    StripTrimmed(",");
    assert Without(",", Symbols) == "" by { assert ","[1..] == ""; }
  }

  lemma EmptyParenPieces()
    ensures Strip("()") == "()"
    ensures RewriteParens(Without("()", Symbols)) == "-"
  {
    StripTrimmed("()");
    assert Without(")", Symbols) == ")" by { assert ")"[1..] == ""; }
    assert Without("()", Symbols) == "()" by { assert "()"[1..] == ")"; }
  }

  lemma LoneMinus()
    ensures ParseDecimal("-") == None
  {
    assert "-"[1..] == "";
    assert ParseUnsigned("") == None;
  }

  /** Empty parentheses become a lone minus sign, which does not parse. */
  lemma CleanEmptyParenExample()
    ensures CleanNumeric("()") == None
  {
    EmptyParenPieces();
    LoneMinus();
  }

  lemma TextPieces()
    ensures Strip("n/a") == "n/a"
    ensures RewriteParens(Without("n/a", Symbols)) == "n/a"
  {
    StripTrimmed("n/a");
    assert Without("a", Symbols) == "a" by { assert "a"[1..] == ""; }
    assert Without("/a", Symbols) == "/a" by { assert "/a"[1..] == "a"; }
    assert Without("n/a", Symbols) == "n/a" by { assert "n/a"[1..] == "/a"; }
  }

  lemma NotANumeral()
    ensures ParseDecimal("n/a") == None
  {
    assert !IsDigit("n/a"[0]) && "n/a"[0] != '-' && "n/a"[0] != '+';
    assert !AllDigits("n/a");
    assert ParseUnsigned("n/a") == None;
  }

  /** Text that is not a number becomes null. */
  lemma CleanTextExample()
    ensures CleanNumeric("n/a") == None
  {
    TextPieces();
    NotANumeral();
  }

  /** A currency amount with no integer digits: `"$.50"` cleans to 0.50. */
  lemma CleanCentsExample()
    ensures CleanNumeric("$.50") == Some(Decimal(50, 2))
  {
    CentsPieces();
    CleanNumeral("$.50", "", "", true, "50");
  }

  lemma CentsPieces()
    ensures Without("$.50", Symbols) == Numeral("", "", true, "50")
    ensures NumeralValue("", "", "50") == Decimal(50, 2)
  {
    WithoutAbsent(".50", Symbols);
    assert "$.50"[1..] == ".50";
    assert Numeral("", "", true, "50") == ".50";
    assert DigitsValue("50") == 50 by {
      assert "50"[..1] == "5";
    }
    assert "" + "50" == "50";
  }

  /** A plus sign and leading zeros: `"+$007"` cleans to 7. */
  lemma CleanLeadingZerosExample()
    ensures CleanNumeric("+$007") == Some(Decimal(7, 0))
  {
    LeadingZerosPieces();
    CleanNumeral("+$007", "+", "007", false, "");
  }

  lemma LeadingZerosPieces()
    ensures Without("+$007", Symbols) == Numeral("+", "007", false, "")
    ensures NumeralValue("+", "007", "") == Decimal(7, 0)
  {
    WithoutAbsent("007", Symbols);
    assert Without("$007", Symbols) == "007" by { assert "$007"[1..] == "007"; }
    assert "+$007"[1..] == "$007";
    assert Numeral("+", "007", false, "") == "+007";
    assert DigitsValue("007") == 7 by {
      assert "007"[..2] == "00" && "00"[..1] == "0";
    }
    assert "007" + "" == "007";
  }
}
