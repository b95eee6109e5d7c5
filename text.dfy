/**
 * The text handling the parsers and renderers rely on: splitting on `/` and
 * space (`str::split` with a predicate), `u32::from_str`, decimal rendering of
 * a prefix length (`{}` on a `u32`), and the standard library's address
 * syntax, which is not part of this model and is therefore a parameter.
 */
module Text {
  import opened Wrappers
  import opened Addr

  // ---------------------------------------------------------------------
  // Splitting

  /** The separator predicate both network parsers pass to `str::split`. */
  predicate IsSeparator(c: char)
  {
    c == '/' || c == ' '
  }

  predicate NoSeparator(s: string)
  {
    forall i :: 0 <= i < |s| ==> !IsSeparator(s[i])
  }

  /**
   * `str::split` on a character predicate, collected: the pieces between
   * separators, empty pieces included, so there is always at least one piece
   * and none of them holds a separator.
   */
  function Split(s: string): (pieces: seq<string>)
    ensures |pieces| >= 1
    ensures forall i :: 0 <= i < |pieces| ==> NoSeparator(pieces[i])
  {
    if s == [] then [""]
    else
      var rest := Split(s[1..]);
      if IsSeparator(s[0]) then [""] + rest
      else [[s[0]] + rest[0]] + rest[1..]
  }

  /** A string without separators is a single piece. */
  lemma {:induction false} SplitNoSeparator(x: string)
    requires NoSeparator(x)
    ensures Split(x) == [x]
    decreases |x|
  {
    if x != [] {
      SplitNoSeparator(x[1..]);
      assert !IsSeparator(x[0]);
      assert [x[0]] + x[1..] == x;
    }
  }

  /** A separator ends the first piece; splitting resumes after it. */
  lemma {:induction false} SplitAtSeparator(x: string, c: char, y: string)
    requires NoSeparator(x) && IsSeparator(c)
    ensures Split(x + [c] + y) == [x] + Split(y)
    decreases |x|
  {
    var s := x + [c] + y;
    if x == [] {
      assert s[1..] == y;
    } else {
      assert s[1..] == x[1..] + [c] + y;
      SplitAtSeparator(x[1..], c, y);
      assert [s[0]] + x[1..] == x;
    }
  }

  /** `a/b` and `a b` both split into exactly the two pieces `a` and `b`. */
  lemma SplitPair(x: string, c: char, y: string)
    requires NoSeparator(x) && NoSeparator(y) && IsSeparator(c)
    ensures Split(x + [c] + y) == [x, y]
  {
    SplitAtSeparator(x, c, y);
    SplitNoSeparator(y);
  }

  // ---------------------------------------------------------------------
  // Decimal digits

  predicate IsDigit(c: char)
  {
    '0' <= c <= '9'
  }

  predicate AllDigits(s: string)
  {
    forall i :: 0 <= i < |s| ==> IsDigit(s[i])
  }

  function DigitChar(d: nat): (c: char)
    requires d < 10
    ensures IsDigit(c)
  {
    ('0' as int + d) as char
  }

  function DigitValue(c: char): nat
    requires IsDigit(c)
  {
    c as int - '0' as int
  }

  /** The number a string of decimal digits denotes, most significant digit first. */
  function DigitsValue(s: string): nat
    requires AllDigits(s)
  {
    if s == [] then 0 else DigitsValue(s[..|s| - 1]) * 10 + DigitValue(s[|s| - 1])
  }

  /** `{}` on an unsigned integer: shortest decimal form, no sign, no leading zeros. */
  function Decimal(n: nat): (s: string)
    ensures |s| >= 1 && AllDigits(s)
  {
    if n < 10 then [DigitChar(n)] else Decimal(n / 10) + [DigitChar(n % 10)]
  }

  /**
   * `u32::from_str`: an optional leading `+`, then one or more decimal digits
   * whose value fits in 32 bits; anything else (the empty string, a lone `+`,
   * a `-`, any other character, overflow) is an error.
   */
  function ParseU32(s: string): Option<u32>
  {
    var digits := if |s| > 0 && s[0] == '+' then s[1..] else s;
    if digits == [] || !AllDigits(digits) then None
    else if DigitsValue(digits) < U32_LIMIT then Some(DigitsValue(digits))
    else None
  }

  lemma {:induction false} DecimalValue(n: nat)
    ensures DigitsValue(Decimal(n)) == n
  {
    var s := Decimal(n);
    if n >= 10 {
      DecimalValue(n / 10);
      assert s[..|s| - 1] == Decimal(n / 10);
    }
  }

  /** A rendered prefix length parses back to itself, and holds no separator. */
  lemma DecimalRoundTrip(n: u32)
    ensures ParseU32(Decimal(n)) == Some(n)
    ensures NoSeparator(Decimal(n))
  {
    DecimalValue(n);
    assert Decimal(n)[0] != '+';
  }

  /** The decimal forms of the empty prefix length and of the two address widths. */
  lemma DecimalWidths()
    ensures Decimal(0) == "0" && Decimal(32) == "32" && Decimal(128) == "128"
  {
    assert DigitChar(0) == '0' && DigitChar(1) == '1' && DigitChar(2) == '2';
    assert DigitChar(3) == '3' && DigitChar(8) == '8';
    assert Decimal(3) == "3" && Decimal(1) == "1";
    assert Decimal(32) == Decimal(3) + [DigitChar(2)];
    assert Decimal(12) == Decimal(1) + [DigitChar(2)];
    assert Decimal(128) == Decimal(12) + [DigitChar(8)];
  }

  /** A string with a character that is neither a digit nor a leading `+` is not a `u32`. */
  lemma ParseU32Rejects(s: string, i: nat)
    requires i < |s| && !IsDigit(s[i]) && !(i == 0 && s[i] == '+')
    ensures ParseU32(s).None?
  {
    if |s| > 0 && s[0] == '+' {
      assert !IsDigit(s[1..][i - 1]);
    }
  }

  /**
   * `"zoop"`, the empty string, a lone `+` and a negative number are rejected;
   * `"29"`, `"32"`, `"128"` and `"+8"` are accepted.
   */
  lemma ParseU32Examples()
    ensures ParseU32("zoop").None? && ParseU32("").None? && ParseU32("+").None?
    ensures ParseU32("-1").None?
    ensures ParseU32("29") == Some(29) && ParseU32("+8") == Some(8)
    ensures ParseU32("32") == Some(32) && ParseU32("128") == Some(128)
  {
    assert "128"[..2] == "12" && "12"[..1] == "1";
    assert "32"[..1] == "3";
    ParseU32Rejects("zoop", 0);
    ParseU32Rejects("-1", 0);
    assert "29"[..1] == "2";
    assert "+8"[1..] == "8";
  }

  // ---------------------------------------------------------------------
  // The standard library's address syntax

  /**
   * `FromStr` and `Display` for `Ipv4Addr` and `Ipv6Addr`, as parameters. A
   * parse error carries the text of the standard `AddrParseError`.
   */
  datatype AddrSyntax = AddrSyntax(
    parseV4: string -> Result<u32, string>,
    formatV4: u32 -> string,
    parseV6: string -> Result<u128, string>,
    formatV6: u128 -> string)
  {
    /**
     * What the model relies on about the standard syntax: formatting parses
     * back, a formatted address holds neither `/` nor a space and is not a
     * plain number (it has dots or colons), and IPv6 text is not IPv4 text.
     */
    ghost predicate Lawful()
    {
      && (forall a: u32 :: parseV4(formatV4(a)) == Ok(a))
      && (forall a: u128 :: parseV6(formatV6(a)) == Ok(a))
      && (forall a: u32 :: NoSeparator(formatV4(a)) && ParseU32(formatV4(a)).None?)
      && (forall a: u128 :: NoSeparator(formatV6(a)) && ParseU32(formatV6(a)).None?)
      && (forall a: u128 :: parseV4(formatV6(a)).Err?)
    }
  }

  // ---------------------------------------------------------------------
  // A syntax that meets the assumptions

  /** `tag` followed by the decimal digits of a number below `limit`. */
  function ParseTagged(s: string, tag: char, limit: nat): (r: Result<nat, string>)
    ensures r.Ok? ==> |s| >= 2 && s[0] == tag && r.value < limit
  {
    if |s| >= 2 && s[0] == tag && AllDigits(s[1..]) && DigitsValue(s[1..]) < limit
    then Ok(DigitsValue(s[1..]))
    else Err("invalid address syntax")
  }

  function ParseTaggedV4(s: string): Result<u32, string>
  {
    match ParseTagged(s, 'v', U32_LIMIT)
    case Ok(n) => Ok(n)
    case Err(e) => Err(e)
  }

  function FormatTaggedV4(a: u32): string
  {
    "v" + Decimal(a)
  }

  function ParseTaggedV6(s: string): Result<u128, string>
  {
    match ParseTagged(s, 'w', U128_LIMIT)
    case Ok(n) => Ok(n)
    case Err(e) => Err(e)
  }

  function FormatTaggedV6(a: u128): string
  {
    "w" + Decimal(a)
  }

  /** An IPv4 address written `v` and its number, an IPv6 address `w` and its number. */
  function TaggedSyntax(): AddrSyntax
  {
    AddrSyntax(ParseTaggedV4, FormatTaggedV4, ParseTaggedV6, FormatTaggedV6)
  }

  /** A tag that is not a digit, a sign or a separator, then a number in decimal. */
  lemma TaggedDecimal(tag: char, n: nat, limit: nat)
    requires !IsDigit(tag) && tag != '+' && !IsSeparator(tag)
    ensures n < limit ==> ParseTagged([tag] + Decimal(n), tag, limit) == Ok(n)
    ensures forall other: char :: other != tag ==> ParseTagged([tag] + Decimal(n), other, limit).Err?
    ensures NoSeparator([tag] + Decimal(n))
    ensures ParseU32([tag] + Decimal(n)).None?
  {
    var s := [tag] + Decimal(n);
    assert s[1..] == Decimal(n);
    DecimalValue(n);
    forall i | 0 <= i < |s|
      ensures !IsSeparator(s[i])
    {
      if i > 0 {
        assert s[i] == Decimal(n)[i - 1];
      }
    }
    ParseU32Rejects(s, 0);
  }

  /** The assumptions on the address syntax can all be met at once. */
  lemma TaggedSyntaxLawful()
    ensures TaggedSyntax().Lawful()
  {
    var syn := TaggedSyntax();
    forall a: u32
      ensures syn.parseV4(syn.formatV4(a)) == Ok(a)
      ensures NoSeparator(syn.formatV4(a)) && ParseU32(syn.formatV4(a)).None?
    {
      TaggedDecimal('v', a, U32_LIMIT);
    }
    forall a: u128
      ensures syn.parseV6(syn.formatV6(a)) == Ok(a)
      ensures NoSeparator(syn.formatV6(a)) && ParseU32(syn.formatV6(a)).None?
      ensures syn.parseV4(syn.formatV6(a)).Err?
    {
      TaggedDecimal('w', a, U128_LIMIT);
    }
  }
}
