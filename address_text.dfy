/** Display form of addresses: what `"0x" << std::hex << std::uppercase << a`
    writes, and what `ss >> std::hex >> a` reads back. */
module AddressText {
  import opened Types

  /** The upper-case hexadecimal digit of `d`. */
  function HexChar(d: nat): (c: char)
    requires d < 16
    ensures IsHexDigit(c) && DigitValue(c) == d
    ensures IsUpperHexDigit(c)
  {
    if d < 10 then (('0' as int) + d) as char else (('A' as int) + d - 10) as char
  }

  /** Upper-case hexadecimal digits of `n`, most significant first, no leading zeros. */
  function HexDigits(n: nat): (s: string)
    ensures |s| >= 1
    ensures forall i :: 0 <= i < |s| ==> IsHexDigit(s[i]) && IsUpperHexDigit(s[i])
    ensures n > 0 ==> s[0] != '0'
    decreases n
  {
    if n < 16 then [HexChar(n)] else HexDigits(n / 16) + [HexChar(n % 16)]
  }

  /** The display form listed by `get_addresses`. */
  function Display(a: Addr): string
  {
    "0x" + HexDigits(a)
  }

  /** A digit as `std::uppercase` writes it: `0-9` or `A-F`. */
  predicate IsUpperHexDigit(c: char)
  {
    ('0' <= c <= '9') || ('A' <= c <= 'F')
  }

  predicate IsHexDigit(c: char)
  {
    ('0' <= c <= '9') || ('a' <= c <= 'f') || ('A' <= c <= 'F')
  }

  function DigitValue(c: char): (d: nat)
    requires IsHexDigit(c)
    ensures d < 16
  {
    if '0' <= c <= '9' then (c as int) - ('0' as int)
    else if 'a' <= c <= 'f' then (c as int) - ('a' as int) + 10
    else (c as int) - ('A' as int) + 10
  }

  /** Whitespace skipped by formatted input (`std::skipws`, the "C" locale). */
  predicate IsSpace(c: char)
  {
    c == ' ' || c == '\t' || c == '\n' || c == '\r' || c == '\U{B}' || c == '\U{C}'
  }

  function SkipSpace(s: string): (r: string)
    ensures |r| <= |s| && r == s[|s| - |r|..]
    ensures r != [] ==> !IsSpace(r[0])
  {
    if s != [] && IsSpace(s[0]) then SkipSpace(s[1..]) else s
  }

  /** The longest prefix of `s` made of hexadecimal digits. */
  function DigitRun(s: string): (r: string)
    ensures |r| <= |s| && r == s[..|r|]
    ensures forall i :: 0 <= i < |r| ==> IsHexDigit(r[i])
    ensures |r| < |s| ==> !IsHexDigit(s[|r|])
  {
    if s != [] && IsHexDigit(s[0]) then [s[0]] + DigitRun(s[1..]) else []
  }

  /** Value of a digit string read in base 16, most significant digit first. */
  function HexValue(ds: string): nat
    requires forall i :: 0 <= i < |ds| ==> IsHexDigit(ds[i])
  {
    if ds == [] then 0 else HexValue(ds[..|ds| - 1]) * 16 + DigitValue(ds[|ds| - 1])
  }

  /** `ss >> std::hex >> address` into a 64-bit unsigned integer: leading
      whitespace is skipped, an optional sign and an optional `0x`/`0X` prefix
      are accepted, then the longest run of hexadecimal digits is read. Text
      with no digits after the blanks, sign and prefix gives 0, a value beyond
      64 bits gives the largest one, and a minus sign negates modulo 2^64 (the
      `strtoull` rule). An empty or all-blank string also gives 0 here; the
      source leaves `address` unassigned in that case. */
  function ParseHex(s: string): Addr
  {
    ReadNumber(SkipSpace(s))
  }

  /** The number at the start of `t`, whose blanks are already skipped. */
  function ReadNumber(t: string): Addr
  {
    Signed(t != [] && t[0] == '-', Magnitude(Unsigned(t)))
  }

  /** Drops one leading `-` or `+`. */
  function Unsigned(t: string): string
  {
    if t != [] && (t[0] == '-' || t[0] == '+') then t[1..] else t
  }

  /** The stored value for a magnitude `v` read after an optional minus sign:
      too large saturates, a minus sign negates. */
  function Signed(negative: bool, v: nat): Addr
  {
    if v >= ADDR_LIMIT then ADDR_LIMIT - 1
    else if negative then Negated(v)
    else v
  }

  /** `-v` in unsigned 64-bit arithmetic. */
  function Negated(v: Addr): (r: Addr)
    ensures r + v == 0 || r + v == ADDR_LIMIT
  {
    if v == 0 then 0 else ADDR_LIMIT - v
  }

  /** The unsigned value after the sign: an optional prefix, then the digit
      run; no digits is 0. */
  function Magnitude(u: string): nat
  {
    HexValue(DigitRun(StripPrefix(u)))
  }

  /** Drops a leading `0x` or `0X`. */
  function StripPrefix(u: string): string
  {
    if |u| >= 2 && u[0] == '0' && (u[1] == 'x' || u[1] == 'X') then u[2..] else u
  }

  lemma StartsUnblank(s: string)
    requires s != [] && !IsSpace(s[0])
    ensures ParseHex(s) == ReadNumber(s)
  {
  }

  /** A bare run of digits reads as its base-16 value, or as the largest
      address when that value needs more than 64 bits. */
  lemma DigitsRead(ds: string)
    requires ds != [] && forall i :: 0 <= i < |ds| ==> IsHexDigit(ds[i])
    ensures ParseHex(ds) == if HexValue(ds) < ADDR_LIMIT then HexValue(ds) else ADDR_LIMIT - 1
  {
    assert IsHexDigit(ds[0]);
    StartsUnblank(ds);
    assert Unsigned(ds) == ds;
    NoPrefixOnDigits(ds);
  }

  /** Blanks before the number are skipped. */
  lemma SkipsLeadingSpace(c: char, s: string)
    requires IsSpace(c)
    ensures ParseHex([c] + s) == ParseHex(s)
  {
    assert ([c] + s)[1..] == s;
  }

  /** The `0x` and `0X` prefixes are optional. */
  lemma HexPrefixOptional(ds: string)
    requires ds != [] && forall i :: 0 <= i < |ds| ==> IsHexDigit(ds[i])
    ensures ParseHex("0x" + ds) == ParseHex(ds)
    ensures ParseHex("0X" + ds) == ParseHex(ds)
  {
    PrefixedRead('x', ds);
    PrefixedRead('X', ds);
  }

  lemma PrefixedRead(x: char, ds: string)
    requires x == 'x' || x == 'X'
    requires ds != [] && forall i :: 0 <= i < |ds| ==> IsHexDigit(ds[i])
    ensures ParseHex(['0', x] + ds) == ParseHex(ds)
  {
    var t := ['0', x] + ds;
    assert t[0] == '0';
    StartsUnblank(t);
    DigitsRead(ds);
    assert Unsigned(t) == t;
    assert StripPrefix(t) == ds by {
      assert t[2..] == ds;
    }
    DigitRunOfDigits(ds);
  }

  /** A run of digits has no `0x` prefix, so it is its own magnitude. */
  lemma NoPrefixOnDigits(ds: string)
    requires forall i :: 0 <= i < |ds| ==> IsHexDigit(ds[i])
    ensures Magnitude(ds) == HexValue(ds)
  {
    if |ds| >= 2 {
      assert IsHexDigit(ds[1]);
    }
    assert StripPrefix(ds) == ds;
    DigitRunOfDigits(ds);
  }

  /** A minus sign negates a value that fits modulo 2^64. */
  lemma MinusNegates(ds: string)
    requires ds != [] && forall i :: 0 <= i < |ds| ==> IsHexDigit(ds[i])
    requires HexValue(ds) < ADDR_LIMIT
    ensures ParseHex("-" + ds) == Negated(HexValue(ds))
  {
    var t := "-" + ds;
    assert t[0] == '-';
    StartsUnblank(t);
    assert Unsigned(t) == ds by {
      assert t[1..] == ds;
    }
    NoPrefixOnDigits(ds);
  }

  /** `"-1"` reads as the largest address. */
  lemma MinusOne()
    ensures ParseHex("-1") == ADDR_LIMIT - 1
  {
    var one := "1";
    assert IsHexDigit(one[0]);
    assert HexValue(one) == 1 by {
      assert one[..0] == [];
    }
    MinusNegates(one);
    assert "-" + one == "-1";
  }

  /** Text whose first non-blank character starts no number reads as 0. */
  lemma NoDigitsReadsZero(s: string)
    requires SkipSpace(s) != [] && !IsHexDigit(SkipSpace(s)[0])
    requires SkipSpace(s)[0] != '-' && SkipSpace(s)[0] != '+'
    ensures ParseHex(s) == 0
  {
  }

  lemma {:induction false} HexValueOfDigits(n: nat)
    ensures HexValue(HexDigits(n)) == n
    decreases n
  {
    var s := HexDigits(n);
    if n >= 16 {
      HexValueOfDigits(n / 16);
      assert s[..|s| - 1] == HexDigits(n / 16);
      assert n == (n / 16) * 16 + n % 16;
    } else {
      assert s[..0] == [];
    }
  }

  lemma {:induction false} DigitRunOfDigits(s: string)
    requires forall i :: 0 <= i < |s| ==> IsHexDigit(s[i])
    ensures DigitRun(s) == s
  {
    if s != [] {
      DigitRunOfDigits(s[1..]);
    }
  }

  /** Reading back a displayed address gives the address: the listing's
      strings select exactly the listed entries when handed to the filter. */
  lemma {:induction false} ParseDisplay(a: Addr)
    ensures ParseHex(Display(a)) == a
  {
    var s := Display(a);
    HexValueOfDigits(a);
    DigitRunOfDigits(HexDigits(a));
    assert !IsSpace(s[0]);
    assert SkipSpace(s) == s;
    assert s[2..] == HexDigits(a);
  }
}
