/**
 * Staging-directory names: `'{:020x}.temp'.format(random.randrange(16**20))`,
 * twenty lower-case hexadecimal digits followed by the reserved `.temp` suffix.
 */
module TempNames {

  import opened Strings
  import opened FileSystem

  /** The suffix that hides a directory from the version listing. */
  const TempSuffix: string := ".temp"

  /** Number of hexadecimal digits in a staging name. */
  const HexWidth: nat := 20

  /** How many random names a deploy tries before giving up. */
  const TempAttempts: nat := 100

  function Pow16(n: nat): (r: nat)
    ensures r >= 1
  {
    if n == 0 then 1 else 16 * Pow16(n - 1)
  }

  /** A value `random.randrange(16**20)` can return. */
  type Draw = n: nat | n < 0x1_0000_0000_0000_0000_0000

  lemma {:induction false} DrawBound(d: Draw)
    ensures d < Pow16(HexWidth)
  {
    Pow16Add(10, 10);
    Pow16Add(5, 5);
    assert Pow16(5) == 0x10_0000;
  }

  lemma {:induction false} Pow16Add(a: nat, b: nat)
    ensures Pow16(a + b) == Pow16(a) * Pow16(b)
  {
    if a > 0 {
      Pow16Add(a - 1, b);
    }
  }

  predicate IsHexChar(c: char) {
    ('0' <= c <= '9') || ('a' <= c <= 'f')
  }

  function HexDigit(d: nat): (c: char)
    requires d < 16
    ensures IsHexChar(c)
  {
    if d < 10 then '0' + d as char else 'a' + (d - 10) as char
  }

  function DigitValue(c: char): (d: nat)
    requires IsHexChar(c)
    ensures d < 16 && HexDigit(d) == c
  {
    if c <= '9' then (c - '0') as nat else (c - 'a') as nat + 10
  }

  /** `'{:0<width>x}'.format(n)` for an `n` that fits in `width` digits. */
  function Hex(n: nat, width: nat): (s: string)
    requires n < Pow16(width)
    ensures |s| == width
    ensures forall i :: 0 <= i < |s| ==> IsHexChar(s[i])
  {
    if width == 0 then ""
    else
      assert n / 16 < Pow16(width - 1);
      Hex(n / 16, width - 1) + [HexDigit(n % 16)]
  }

  /** Reads a string of hexadecimal digits back as a number. */
  function ParseHex(s: string): (n: nat)
    requires forall i :: 0 <= i < |s| ==> IsHexChar(s[i])
    ensures n < Pow16(|s|)
  {
    if s == [] then 0
    else ParseHex(s[..|s| - 1]) * 16 + DigitValue(s[|s| - 1])
  }

  /** Formatting then parsing gives the number back. */
  lemma {:induction false} ParseHexOfHex(n: nat, width: nat)
    requires n < Pow16(width)
    ensures ParseHex(Hex(n, width)) == n
  {
    if width > 0 {
      var s := Hex(n, width);
      assert s[..|s| - 1] == Hex(n / 16, width - 1);
      ParseHexOfHex(n / 16, width - 1);
    }
  }

  /** Parsing then formatting at the same width gives the digits back. */
  lemma {:induction false} HexOfParseHex(s: string)
    requires forall i :: 0 <= i < |s| ==> IsHexChar(s[i])
    ensures Hex(ParseHex(s), |s|) == s
  {
    if s != [] {
      var init := s[..|s| - 1];
      var n := ParseHex(s);
      assert n / 16 == ParseHex(init) && n % 16 == DigitValue(s[|s| - 1]);
      HexOfParseHex(init);
      assert s == init + [s[|s| - 1]];
    }
  }

  /** Twenty hexadecimal digits followed by the suffix form a plain path component. */
  lemma {:induction false} HexNameShape(hex: string)
    requires |hex| == HexWidth && forall i :: 0 <= i < |hex| ==> IsHexChar(hex[i])
    ensures EndsWith(hex + TempSuffix, TempSuffix)
    ensures IsComponent(hex + TempSuffix)
  {
    var name := hex + TempSuffix;
    assert name[|name| - |TempSuffix|..] == TempSuffix;
    forall i | 0 <= i < |name|
      ensures name[i] != '/'
    {
      if i < |hex| {
        assert name[i] == hex[i] && IsHexChar(hex[i]);
      } else {
        assert name[i] == TempSuffix[i - |hex|];
      }
    }
    assert |name| != |"."|;
  }

  /** The name of the staging directory a draw produces. */
  function TempName(d: Draw): (name: string)
    ensures |name| == HexWidth + |TempSuffix|
    ensures EndsWith(name, TempSuffix)
    ensures IsComponent(name)
  {
    DrawBound(d);
    HexNameShape(Hex(d, HexWidth));
    Hex(d, HexWidth) + TempSuffix
  }

  /** Different draws give different names: the name records the draw. */
  lemma {:induction false} TempNameInjective(a: Draw, b: Draw)
    requires TempName(a) == TempName(b)
    ensures a == b
  {
    DrawBound(a);
    DrawBound(b);
    assert Hex(a, HexWidth) == TempName(a)[..HexWidth];
    assert Hex(b, HexWidth) == TempName(b)[..HexWidth];
    ParseHexOfHex(a, HexWidth);
    ParseHexOfHex(b, HexWidth);
  }
}
