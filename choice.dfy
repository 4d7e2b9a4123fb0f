/**
 * The operator's answer (src/main.rs:105): the line read from standard input
 * is trimmed, parsed as a `usize`, and replaced by 1 when parsing fails. No
 * range check follows, so 0 and numbers past the end of the list are kept.
 */
module Choice {
  import opened Wrappers

  /** The largest `usize` on a 64-bit host. */
  const UsizeMax: nat := 0xFFFF_FFFF_FFFF_FFFF

  /** The choice used when the answer does not parse. */
  const DefaultChoice: nat := 1

  /** Unicode White_Space, the characters `str::trim` removes. */
  predicate IsWhitespace(c: char) {
    var u := c as int;
    (0x09 <= u <= 0x0D) || u == 0x20 || u == 0x85 || u == 0xA0 || u == 0x1680 ||
    (0x2000 <= u <= 0x200A) || u == 0x2028 || u == 0x2029 || u == 0x202F || u == 0x205F || u == 0x3000
  }

  predicate AllWhitespace(s: string) {
    forall i :: 0 <= i < |s| ==> IsWhitespace(s[i])
  }

  /** `s` without its leading whitespace. */
  function TrimStart(s: string): (r: string)
    ensures |r| <= |s| && r == s[|s| - |r|..]
    ensures AllWhitespace(s[..|s| - |r|])
    ensures r != [] ==> !IsWhitespace(r[0])
    decreases |s|
  {
    if s != [] && IsWhitespace(s[0]) then TrimStart(s[1..]) else s
  }

  /** `s` without its trailing whitespace. */
  function TrimEnd(s: string): (r: string)
    ensures |r| <= |s| && r == s[..|r|]
    ensures AllWhitespace(s[|r|..])
    ensures r != [] ==> !IsWhitespace(r[|r| - 1])
    decreases |s|
  {
    if s != [] && IsWhitespace(s[|s| - 1]) then
      var r := TrimEnd(s[..|s| - 1]);
      assert s[|r|..] == s[..|s| - 1][|r|..] + [s[|s| - 1]];
      r
    else s
  }

  /** `str::trim`: neither end of the result is whitespace. */
  function Trim(s: string): (r: string)
    ensures |r| <= |s|
    ensures r != [] ==> !IsWhitespace(r[0]) && !IsWhitespace(r[|r| - 1])
  {
    TrimEnd(TrimStart(s))
  }

  predicate IsDigit(c: char) {
    '0' <= c <= '9'
  }

  predicate AllDigits(s: string) {
    forall i :: 0 <= i < |s| ==> IsDigit(s[i])
  }

  function DigitValue(c: char): nat
    requires IsDigit(c)
  {
    (c as int) - ('0' as int)
  }

  function DigitChar(d: nat): (c: char)
    requires d < 10
    ensures IsDigit(c) && DigitValue(c) == d
  {
    ('0' as int + d) as char
  }

  /** The number a string of decimal digits denotes (leading zeros allowed). */
  function Value(digits: string): nat
    requires AllDigits(digits)
  {
    if digits == [] then 0
    else Value(digits[..|digits| - 1]) * 10 + DigitValue(digits[|digits| - 1])
  }

  /** The decimal numeral of `n`, without leading zeros. */
  function Decimal(n: nat): (r: string)
    ensures r != [] && AllDigits(r)
    ensures |r| > 1 ==> r[0] != '0'
  {
    if n < 10 then [DigitChar(n)] else Decimal(n / 10) + [DigitChar(n % 10)]
  }

  /** `usize::from_str`: one optional leading '+', then at least one digit, and no overflow. */
  function ParseUsize(s: string): Option<nat> {
    ParseDigits(if |s| > 0 && s[0] == '+' then s[1..] else s)
  }

  /** The unsigned part of `usize::from_str`. */
  function ParseDigits(digits: string): Option<nat> {
    if digits == [] || !AllDigits(digits) then None
    else if Value(digits) > UsizeMax then None
    else Some(Value(digits))
  }

  /** The answer, trimmed and parsed as a usize; the default choice when that fails. */
  function ParseChoice(line: string): (k: nat)
    ensures k <= UsizeMax
  {
    match ParseUsize(Trim(line))
    case Some(v) => v
    case None => DefaultChoice
  }

  lemma {:induction false} ValueOfDecimal(n: nat)
    ensures Value(Decimal(n)) == n
  {
    if n >= 10 {
      var d := Decimal(n);
      assert d[..|d| - 1] == Decimal(n / 10);
      ValueOfDecimal(n / 10);
    }
  }

  lemma {:induction false} TrimStartOfPadded(pre: string, rest: string)
    requires AllWhitespace(pre)
    requires rest != [] && !IsWhitespace(rest[0])
    ensures TrimStart(pre + rest) == rest
    decreases |pre|
  {
    if pre != [] {
      assert (pre + rest)[1..] == pre[1..] + rest;
      TrimStartOfPadded(pre[1..], rest);
    } else {
      assert pre + rest == rest;
    }
  }

  lemma {:induction false} TrimEndOfPadded(core: string, post: string)
    requires AllWhitespace(post)
    requires core != [] && !IsWhitespace(core[|core| - 1])
    ensures TrimEnd(core + post) == core
    decreases |post|
  {
    if post != [] {
      assert (core + post)[..|core + post| - 1] == core + post[..|post| - 1];
      TrimEndOfPadded(core, post[..|post| - 1]);
    } else {
      assert core + post == core;
    }
  }

  /** Whitespace around the answer, the newline included, is ignored. */
  lemma TrimOfPadded(pre: string, core: string, post: string)
    requires AllWhitespace(pre) && AllWhitespace(post)
    requires core != [] && !IsWhitespace(core[0]) && !IsWhitespace(core[|core| - 1])
    ensures Trim(pre + core + post) == core
  {
    assert pre + core + post == pre + (core + post);
    TrimStartOfPadded(pre, core + post);
    TrimEndOfPadded(core, post);
  }

  /** `usize::from_str` on a digit run, signed with '+' or not, that fits a usize. */
  lemma ParseUsizeOfDigits(sign: string, digits: string)
    requires sign == "" || sign == "+"
    requires digits != [] && AllDigits(digits) && Value(digits) <= UsizeMax
    ensures ParseUsize(sign + digits) == Some(Value(digits))
  {
    var core := sign + digits;
    if sign == "+" {
      assert core[0] == '+' && core[1..] == digits;
    } else {
      assert core == digits && IsDigit(core[0]);
    }
  }

  lemma Regroup(a: string, b: string, c: string, d: string)
    ensures a + b + c + d == a + (b + c) + d
  {
  }

  lemma Unpadded(e: string, d: string)
    requires e == []
    ensures e + e + d == d
  {
  }

  /** A signed or unsigned digit run has no whitespace at either end. */
  lemma SignedDigitsUntrimmed(sign: string, digits: string)
    requires sign == "" || sign == "+"
    requires digits != [] && AllDigits(digits)
    ensures var core := sign + digits;
            core != [] && !IsWhitespace(core[0]) && !IsWhitespace(core[|core| - 1])
  {
    var core := sign + digits;
    assert core[|core| - 1] == digits[|digits| - 1];
    assert core[0] == '+' || core[0] == digits[0];
  }

  /** The choice is read from the trimmed answer alone. */
  lemma ParseChoiceOfTrimmed(line: string, core: string, v: nat)
    requires Trim(line) == core && ParseUsize(core) == Some(v)
    ensures ParseChoice(line) == v
  {
  }

  /** A run of digits (leading zeros allowed), signed with '+' or not, is taken at its value when it fits a usize. */
  lemma ParseChoiceOfDigits(line: string, pre: string, sign: string, digits: string, post: string)
    requires line == pre + sign + digits + post
    requires AllWhitespace(pre) && AllWhitespace(post)
    requires sign == "" || sign == "+"
    requires digits != [] && AllDigits(digits) && Value(digits) <= UsizeMax
    ensures ParseChoice(line) == Value(digits)
  {
    var core := sign + digits;
    Regroup(pre, sign, digits, post);
    SignedDigitsUntrimmed(sign, digits);
    TrimOfPadded(pre, core, post);
    ParseUsizeOfDigits(sign, digits);
    ParseChoiceOfTrimmed(line, core, Value(digits));
  }

  /** The answer "n" selects entry n, for every n a usize can hold, 0 included. */
  lemma ParseChoiceOfDecimal(n: nat, post: string)
    requires n <= UsizeMax
    requires AllWhitespace(post)
    ensures ParseChoice(Decimal(n) + post) == n
  {
    ValueOfDecimal(n);
    ParseChoiceOfNumeral(Decimal(n), post);
  }

  lemma ParseChoiceOfNumeral(d: string, post: string)
    requires AllWhitespace(post)
    requires d != [] && AllDigits(d) && Value(d) <= UsizeMax
    ensures ParseChoice(d + post) == Value(d)
  {
    var e: string := [];
    Unpadded(e, d);
    ParseChoiceOfDigits(d + post, e, e, d, post);
  }

  /** An empty or blank answer keeps the first entry. */
  lemma ParseChoiceOfBlank(line: string)
    requires AllWhitespace(line)
    ensures ParseChoice(line) == DefaultChoice
  {
  }

  /** An answer with any character other than a digit (or one leading '+') keeps the first entry. */
  lemma ParseChoiceOfNonNumeric(line: string, i: nat)
    requires i < |Trim(line)| && !IsDigit(Trim(line)[i]) && !(i == 0 && Trim(line)[i] == '+')
    ensures ParseChoice(line) == DefaultChoice
  {
    var t := Trim(line);
    if |t| > 0 && t[0] == '+' {
      assert t[1..][i - 1] == t[i];
    }
  }

  /** A lone '+' has no digits, so it keeps the first entry. */
  lemma ParseChoiceOfBareSign(line: string)
    requires Trim(line) == "+"
    ensures ParseChoice(line) == DefaultChoice
  {
    assert Trim(line)[1..] == [];
  }

  /** A number too large for a usize keeps the first entry. */
  lemma ParseChoiceOfOverflow(line: string, digits: string)
    requires digits != [] && AllDigits(digits) && Value(digits) > UsizeMax
    requires Trim(line) == digits || Trim(line) == "+" + digits
    ensures ParseChoice(line) == DefaultChoice
  {
    var t := Trim(line);
    assert ParseDigits(digits) == None;
    if t == "+" + digits {
      assert t[1..] == digits;
    } else {
      assert digits[0] != '+';
      assert ParseUsize(t) == ParseDigits(digits);
    }
  }
}
