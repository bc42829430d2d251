/**
 * The JavaScript string built-ins that the dashboard relies on, stated on
 * sequences of characters: String.prototype.trim, String(n) for an integer n,
 * parseInt with no radix argument, String.prototype.padStart and substring
 * search (includes).
 *
 * The functions state their basic shape in their postconditions; the rest of
 * what they guarantee is stated by the lemmas next to them, which callers
 * invoke where they need it.
 */
module JsStrings {
  import opened Wrappers

  // ---------------------------------------------------------------------------
  // White space (ECMAScript WhiteSpace and LineTerminator code points)
  // ---------------------------------------------------------------------------

  /** The characters trim() and parseInt() skip. */
  predicate IsWhitespace(c: char) {
    || c == '\t' || c == '\n' || c == '\U{000B}' || c == '\U{000C}' || c == '\r'
    || c == ' ' || c == '\U{00A0}' || c == '\U{1680}'
    || ('\U{2000}' <= c <= '\U{200A}')
    || c == '\U{2028}' || c == '\U{2029}' || c == '\U{202F}' || c == '\U{205F}'
    || c == '\U{3000}' || c == '\U{FEFF}'
  }

  predicate AllWhitespace(s: string) {
    forall k :: 0 <= k < |s| ==> IsWhitespace(s[k])
  }

  /** s without its leading white space. */
  function TrimStart(s: string): string {
    if s != [] && IsWhitespace(s[0]) then TrimStart(s[1..]) else s
  }

  /** s without its trailing white space. */
  function TrimEnd(s: string): string {
    if s != [] && IsWhitespace(s[|s| - 1]) then TrimEnd(s[..|s| - 1]) else s
  }

  /** String.prototype.trim. */
  function Trim(s: string): (r: string)
    ensures |r| <= |s|
    ensures r == [] || (!IsWhitespace(r[0]) && !IsWhitespace(r[|r| - 1]))
  {
    var t := TrimStart(s);
    TrimStartShape(s);
    TrimEndShape(t);
    TrimEnd(t)
  }

  /** TrimStart keeps a suffix of s that starts with a non-blank, after an all-blank prefix. */
  lemma {:induction false} TrimStartShape(s: string)
    ensures |TrimStart(s)| <= |s| && TrimStart(s) == s[|s| - |TrimStart(s)|..]
    ensures AllWhitespace(s[..|s| - |TrimStart(s)|])
    ensures TrimStart(s) == [] || !IsWhitespace(TrimStart(s)[0])
  {
    if s != [] && IsWhitespace(s[0]) {
      var rest := s[1..];
      TrimStartShape(rest);
      var r := TrimStart(rest);
      assert TrimStart(s) == r;
      assert rest[|rest| - |r|..] == s[|s| - |r|..];
      var blank := s[..|s| - |r|];
      assert blank == [s[0]] + rest[..|rest| - |r|];
      assert AllWhitespace(blank) by {
        forall k | 0 <= k < |blank| ensures IsWhitespace(blank[k]) {
          if k > 0 {
            assert blank[k] == rest[..|rest| - |r|][k - 1];
          }
        }
      }
    }
  }

  /** TrimEnd keeps a prefix of s that ends with a non-blank, before an all-blank suffix. */
  lemma {:induction false} TrimEndShape(s: string)
    ensures |TrimEnd(s)| <= |s| && TrimEnd(s) == s[..|TrimEnd(s)|]
    ensures AllWhitespace(s[|TrimEnd(s)|..])
    ensures TrimEnd(s) == [] || !IsWhitespace(TrimEnd(s)[|TrimEnd(s)| - 1])
  {
    if s != [] && IsWhitespace(s[|s| - 1]) {
      var p := s[..|s| - 1];
      TrimEndShape(p);
      var r := TrimEnd(s);
      assert s[|r|..] == p[|r|..] + [s[|s| - 1]];
    }
  }

  /**
   * trim() keeps exactly the middle of s between its blank prefix and its blank
   * suffix, and the middle neither starts nor ends with a blank.
   */
  lemma TrimIsMiddle(s: string)
    ensures exists i, j :: 0 <= i <= j <= |s| && Trim(s) == s[i..j]
              && AllWhitespace(s[..i]) && AllWhitespace(s[j..])
    ensures Trim(s) == [] || (!IsWhitespace(Trim(s)[0]) && !IsWhitespace(Trim(s)[|Trim(s)| - 1]))
  {
    var i, j := TrimCuts(s);
    if Trim(s) != [] {
      TrimFirst(s);
    }
  }

  /** Where trim() cuts s: a blank prefix s[..i], the result s[i..j] and a blank suffix s[j..]. */
  lemma TrimCuts(s: string) returns (i: nat, j: nat)
    ensures i <= j <= |s| && Trim(s) == s[i..j]
    ensures AllWhitespace(s[..i]) && AllWhitespace(s[j..])
    ensures Trim(s) == [] || !IsWhitespace(Trim(s)[|Trim(s)| - 1])
  {
    var t := TrimStart(s);
    TrimStartShape(s);
    TrimEndShape(t);
    var r := TrimEnd(t);
    i := |s| - |t|;
    j := i + |r|;
    SliceOfSuffix(s, i, 0, |r|);
    SliceOfSuffix(s, i, |r|, |t|);
  }

  lemma SliceOfSuffix<T>(s: seq<T>, i: nat, a: nat, b: nat)
    requires i <= |s| && a <= b <= |s| - i
    ensures s[i..][a..b] == s[i + a..i + b]
    ensures b == |s| - i ==> s[i..][a..] == s[i + a..]
  {
  }

  /** The result of trim() starts where TrimStart's result starts, with a non-blank. */
  lemma TrimFirst(s: string)
    requires Trim(s) != []
    ensures Trim(s)[0] == TrimStart(s)[0]
    ensures !IsWhitespace(Trim(s)[0])
  {
    var t := TrimStart(s);
    TrimStartShape(s);
    TrimEndShape(t);
    assert Trim(s) == t[..|Trim(s)|];
  }

  /** trim() yields the empty string exactly on blank input. */
  lemma TrimEmptyIff(s: string)
    ensures Trim(s) == [] <==> AllWhitespace(s)
  {
    var t := TrimStart(s);
    TrimStartShape(s);
    TrimEndShape(t);
    if Trim(s) == [] {
      assert s == s[..|s| - |t|] + t;
      assert AllWhitespace(t[|TrimEnd(t)|..]);
    } else if AllWhitespace(s) {
      TrimFirst(s);
    }
  }

  /** trim() is idempotent. */
  lemma TrimIdempotent(s: string)
    ensures Trim(Trim(s)) == Trim(s)
  {
    var r := Trim(s);
    TrimIsMiddle(s);
    if r != [] {
      assert TrimStart(r) == r;
      TrimEndShape(r);
      assert TrimEnd(r) == r;
    }
  }

  // ---------------------------------------------------------------------------
  // Decimal digits and String(n) for integers
  // ---------------------------------------------------------------------------

  predicate IsDecimalDigit(c: char) {
    '0' <= c <= '9'
  }

  function DigitChar(d: nat): (c: char)
    requires d < 10
    ensures IsDecimalDigit(c) && c as int - '0' as int == d
  {
    ('0' as int + d) as char
  }

  /** The decimal numeral of n, without leading zeros. */
  function NatString(n: nat): string {
    if n < 10 then [DigitChar(n)] else NatString(n / 10) + [DigitChar(n % 10)]
  }

  /** String(n) for an integer value n (always positional notation). */
  function IntString(n: int): (r: string)
    ensures |r| >= 1
    ensures r[0] == '-' <==> n < 0
  {
    NatStringDigits(if n < 0 then -n else n);
    if n < 0 then "-" + NatString(-n) else NatString(n)
  }

  /** A numeral is a non-empty run of digits; it has one digit exactly below ten, and starts with 0 only for zero. */
  lemma {:induction false} NatStringDigits(n: nat)
    ensures |NatString(n)| >= 1
    ensures forall k :: 0 <= k < |NatString(n)| ==> IsDecimalDigit(NatString(n)[k])
    ensures (|NatString(n)| == 1) == (n < 10)
    ensures NatString(n)[0] == '0' ==> n == 0
  {
    if n >= 10 {
      NatStringDigits(n / 10);
      assert NatString(n)[0] == NatString(n / 10)[0];
    }
  }

  lemma {:induction false} NatStringInjective(a: nat, b: nat)
    requires NatString(a) == NatString(b)
    ensures a == b
  {
    NatStringDigits(a);
    NatStringDigits(b);
    var s := NatString(a);
    if a >= 10 && b >= 10 {
      assert s[..|s| - 1] == NatString(a / 10) == NatString(b / 10);
      NatStringInjective(a / 10, b / 10);
      assert DigitChar(a % 10) == s[|s| - 1] == DigitChar(b % 10);
    }
  }

  /** Different integers have different numerals. */
  lemma IntStringInjective(a: int, b: int)
    requires IntString(a) == IntString(b)
    ensures a == b
  {
    if a < 0 && b < 0 {
      assert IntString(a)[1..] == NatString(-a);
      assert IntString(b)[1..] == NatString(-b);
      NatStringInjective(-a, -b);
    } else if a >= 0 && b >= 0 {
      NatStringInjective(a, b);
    }
  }

  // ---------------------------------------------------------------------------
  // parseInt(string) with no radix argument
  // ---------------------------------------------------------------------------

  /** The value of c as a digit in base 10 or 16, if it is one. */
  function DigitValue(c: char, radix: nat): (r: Option<nat>)
    requires radix == 10 || radix == 16
    ensures r.Some? ==> r.value < radix
  {
    if '0' <= c <= '9' then Some(c as int - '0' as int)
    else if radix == 16 && 'a' <= c <= 'f' then Some(c as int - 'a' as int + 10)
    else if radix == 16 && 'A' <= c <= 'F' then Some(c as int - 'A' as int + 10)
    else None
  }

  /** The longest prefix of s made of digits of the radix. */
  function DigitPrefix(s: string, radix: nat): string
    requires radix == 10 || radix == 16
  {
    if s != [] && DigitValue(s[0], radix).Some? then [s[0]] + DigitPrefix(s[1..], radix) else []
  }

  /** DigitPrefix is a prefix of s, made of digits, and stops at a non-digit or the end. */
  lemma {:induction false} DigitPrefixShape(s: string, radix: nat)
    requires radix == 10 || radix == 16
    ensures |DigitPrefix(s, radix)| <= |s| && DigitPrefix(s, radix) == s[..|DigitPrefix(s, radix)|]
    ensures forall k :: 0 <= k < |DigitPrefix(s, radix)| ==> DigitValue(DigitPrefix(s, radix)[k], radix).Some?
    ensures |DigitPrefix(s, radix)| < |s| ==> DigitValue(s[|DigitPrefix(s, radix)|], radix).None?
  {
    if s != [] && DigitValue(s[0], radix).Some? {
      DigitPrefixShape(s[1..], radix);
    }
  }

  /** The number that a string of digits denotes, most significant first. */
  function DigitsNumber(ds: string, radix: nat): nat
    requires radix == 10 || radix == 16
  {
    if ds == [] then 0
    else
      var high := DigitsNumber(ds[..|ds| - 1], radix);
      (if radix == 10 then high * 10 else high * 16) + DigitValue(ds[|ds| - 1], radix).GetOr(0)
  }

  /**
   * The digits after the sign: base 16 after a "0x" or "0X" prefix, base 10
   * otherwise, read as the longest run of digits. None stands for NaN (no
   * digit at all).
   */
  function ParseMagnitude(u: string): (r: Option<nat>)
    ensures u == [] ==> r.None?
  {
    var hex := |u| >= 2 && u[0] == '0' && (u[1] == 'x' || u[1] == 'X');
    var radix := if hex then 16 else 10;
    var ds := DigitPrefix(if hex then u[2..] else u, radix);
    if ds == [] then None else Some(DigitsNumber(ds, radix))
  }

  /**
   * parseInt(s): skip leading white space, read an optional sign, then the
   * magnitude. None stands for NaN.
   */
  function ParseInt(s: string): (r: Option<int>)
    ensures s == [] ==> r.None?
  {
    var t := TrimStart(s);
    var negative := t != [] && t[0] == '-';
    var u := if t != [] && (t[0] == '-' || t[0] == '+') then t[1..] else t;
    match ParseMagnitude(u)
    case None => None
    case Some(m) => Some(if negative then -(m as int) else m)
  }

  lemma {:induction false} NatStringNumber(n: nat)
    ensures DigitsNumber(NatString(n), 10) == n
  {
    var s := NatString(n);
    if n >= 10 {
      NatStringNumber(n / 10);
      assert s[..|s| - 1] == NatString(n / 10);
    }
  }

  lemma {:induction false} DigitPrefixWhole(s: string)
    requires forall k :: 0 <= k < |s| ==> IsDecimalDigit(s[k])
    ensures DigitPrefix(s, 10) == s
  {
    if s != [] {
      DigitPrefixWhole(s[1..]);
    }
  }

  /** A run of decimal digits is read whole, in base 10. */
  lemma MagnitudeDigits(ds: string)
    requires |ds| >= 1 && forall k :: 0 <= k < |ds| ==> IsDecimalDigit(ds[k])
    ensures ParseMagnitude(ds) == Some(DigitsNumber(ds, 10))
  {
    assert !(ds[1..] != [] && (ds[1] == 'x' || ds[1] == 'X'));
    DigitPrefixWhole(ds);
  }

  /** parseInt on a run of decimal digits reads all of it. */
  lemma ParseIntDigits(ds: string)
    requires |ds| >= 1 && forall k :: 0 <= k < |ds| ==> IsDecimalDigit(ds[k])
    ensures ParseInt(ds) == Some(DigitsNumber(ds, 10))
  {
    assert !IsWhitespace(ds[0]);
    assert TrimStart(ds) == ds;
    MagnitudeDigits(ds);
  }

  /** parseInt on a minus sign reads the negated magnitude of what follows it. */
  lemma ParseIntMinus(u: string, m: nat)
    requires ParseMagnitude(u) == Some(m)
    ensures ParseInt("-" + u) == Some(-(m as int))
  {
    var s := "-" + u;
    assert !IsWhitespace(s[0]);
    assert TrimStart(s) == s;
    assert s[1..] == u;
  }

  /** parseInt reads back what String(n) writes. */
  lemma ParseIntString(n: int)
    ensures ParseInt(IntString(n)) == Some(n)
  {
    var m: nat := if n < 0 then -n else n;
    var digits := NatString(m);
    NatStringDigits(m);
    NatStringNumber(m);
    if n < 0 {
      assert IntString(n) == "-" + digits;
      MagnitudeDigits(digits);
      ParseIntMinus(digits, m);
    } else {
      ParseIntDigits(digits);
    }
  }

  // ---------------------------------------------------------------------------
  // padStart and includes
  // ---------------------------------------------------------------------------

  function Repeat(c: char, n: nat): string {
    if n == 0 then [] else [c] + Repeat(c, n - 1)
  }

  lemma {:induction false} RepeatShape(c: char, n: nat)
    ensures |Repeat(c, n)| == n && forall k :: 0 <= k < n ==> Repeat(c, n)[k] == c
  {
    if n > 0 {
      RepeatShape(c, n - 1);
    }
  }

  /** s.padStart(width, fill) for a one-character fill string. */
  function PadStart(s: string, width: nat, fill: char): (r: string)
    ensures |r| == if |s| >= width then |s| else width
  {
    if |s| >= width then s
    else
      RepeatShape(fill, width - |s|);
      Repeat(fill, width - |s|) + s
  }

  /** padStart ends with s and fills the front. */
  lemma PadStartShape(s: string, width: nat, fill: char)
    ensures PadStart(s, width, fill)[|PadStart(s, width, fill)| - |s|..] == s
    ensures forall k :: 0 <= k < |PadStart(s, width, fill)| - |s| ==> PadStart(s, width, fill)[k] == fill
  {
    if |s| < width {
      RepeatShape(fill, width - |s|);
    }
  }

  /** s.includes(part). */
  predicate Includes(s: string, part: string) {
    exists i :: 0 <= i <= |s| - |part| && part <= s[i..]
  }
}
