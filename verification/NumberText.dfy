/**
Numbers as text: what lib/vsprintf.c prints and parses, in closed form.
 */
module NumberText {
  import opened BigNum

  // ------------------------------------------------------------ digits

  /** One digit of base up to 16; `small` selects lower-case letters. */
  function Digit(d: nat, small: bool): char
    requires d < 16
  {
    if d < 10 then (d + 48) as char else if small then (d + 87) as char else (d + 55) as char
  }

  /** The canonical text of n, most significant digit first. */
  function Text(n: nat, base: nat, small: bool): (s: string)
    requires 2 <= base <= 16
    ensures |s| >= 1
  {
    if n < base then [Digit(n, small)] else Text(n / base, base, small) + [Digit(n % base, small)]
  }

  /** The same digits, least significant first, as they are produced. */
  function Reversed(n: nat, base: nat, small: bool): (s: string)
    requires 2 <= base <= 16
    ensures |s| >= 1
  {
    if n < base then [Digit(n, small)] else [Digit(n % base, small)] + Reversed(n / base, base, small)
  }

  lemma {:induction false} ReversedIsText(n: nat, base: nat, small: bool)
    requires 2 <= base <= 16
    ensures |Reversed(n, base, small)| == |Text(n, base, small)|
    ensures forall i :: 0 <= i < |Text(n, base, small)| ==>
      Reversed(n, base, small)[i] == Text(n, base, small)[|Text(n, base, small)| - 1 - i]
  {
    hide Digit;
    if n >= base {
      ReversedIsText(n / base, base, small);
      var r, t := Reversed(n / base, base, small), Text(n / base, base, small);
      MirrorStep(r, t, Digit(n % base, small));
    }
  }

  lemma MirrorStep(r: string, t: string, c: char)
    requires |r| == |t| && forall i :: 0 <= i < |t| ==> r[i] == t[|t| - 1 - i]
    ensures forall i :: 0 <= i < |t| + 1 ==> ([c] + r)[i] == (t + [c])[|t| - i]
  {
  }

  lemma ShrinkDivisor(n: nat, base: nat, m: nat, p: nat)
    requires 2 <= m <= base && n < m * p
    ensures n / base < p
  {
    var q := n / base;
    assert n == q * base + n % base;
    assert q >= p ==> q * base >= p * base;
    assert p * base >= p * m;
  }

  lemma PowerStep(m: nat, k: nat)
    requires k >= 1
    ensures Power(m, k) == m * Power(m, k - 1) && Power(m, 1) == m
  {
    assert Power(m, 0) == 1;
  }

  lemma TextStep(n: nat, base: nat, small: bool)
    requires 2 <= base <= 16
    ensures n < base ==> |Text(n, base, small)| == 1
    ensures n >= base ==> |Text(n, base, small)| == |Text(n / base, base, small)| + 1
  {
  }

  /** Fewer than m^k takes at most k digits in any base from m on. */
  lemma {:induction false} TextLength(n: nat, base: nat, small: bool, m: nat, k: nat)
    requires 2 <= m <= base <= 16 && k >= 1 && n < Power(m, k)
    ensures |Text(n, base, small)| <= k
    decreases k
  {
    hide Text, Power;
    TextStep(n, base, small);
    PowerStep(m, k);
    if n >= base && k > 1 {
      ShrinkDivisor(n, base, m, Power(m, k - 1));
      TextLength(n / base, base, small, m, k - 1);
    }
  }

  /** A 64-bit value has at most 20 decimal and 22 octal digits. */
  lemma TextLength64(n: nat, base: nat, small: bool)
    requires n < 0x1_0000_0000_0000_0000 && 8 <= base <= 16
    ensures |Text(n, base, small)| <= 22
    ensures base >= 10 ==> |Text(n, base, small)| <= 20
  {
    assert Power(8, 4) == 4096;
    assert Power(8, 8) == 0x100_0000;
    assert Power(8, 12) == 0x10_0000_0000;
    assert Power(8, 16) == 0x1_0000_0000_0000;
    assert Power(8, 20) == 0x1000_0000_0000_0000;
    assert Power(8, 22) == 0x4_0000_0000_0000_0000;
    TextLength(n, base, small, 8, 22);
    assert Power(10, 4) == 10000;
    assert Power(10, 8) == 100000000;
    assert Power(10, 12) == 1000000000000;
    assert Power(10, 16) == 10000000000000000;
    assert Power(10, 20) == 100000000000000000000;
    if base >= 10 {
      TextLength(n, base, small, 10, 20);
    }
  }

  // ------------------------------------------------------------ number

  datatype Flags = Flags(zeropad: bool, sign: bool, plus: bool, space: bool, left: bool, small: bool, special: bool)

  const TWO63: nat := 0x8000_0000_0000_0000
  const TWO64: nat := 0x1_0000_0000_0000_0000

  function Repeat(c: char, n: int): (s: string)
    ensures |s| == if n < 0 then 0 else n
    ensures forall i :: 0 <= i < |s| ==> s[i] == c
  {
    if n <= 0 then [] else seq(n, i => c)
  }

  function Max(a: int, b: int): int { if a < b then b else a }

  function SignText(num: nat, f: Flags): (s: string)
    ensures |s| <= 1
  {
    if !f.sign then "" else if num >= TWO63 then "-" else if f.plus then "+" else if f.space then " " else ""
  }

  /** The magnitude printed: a negative value is negated in 64 bits. */
  function Magnitude(num: nat, f: Flags): nat
    requires num < TWO64
  {
    if f.sign && num >= TWO63 then TWO64 - num else num
  }

  function Prefix(base: nat, f: Flags): (s: string)
    ensures |s| <= 2
  {
    if !f.special || base == 10 then "" else if base == 16 then ['0', if f.small then 'x' else 'X'] else "0"
  }

  /** Padding, sign, prefix, zeros, digits, padding. */
  function Parts(sign: string, prefix: string, zeropad: bool, left: bool, pad: int, precision: int, digits: string): string
  {
    (if !zeropad && !left then Repeat(' ', pad) else "")
    + sign + prefix
    + (if zeropad && !left then Repeat('0', pad) else "")
    + Repeat('0', precision - |digits|) + digits
    + (if left then Repeat(' ', pad) else "")
  }

  /** The field number() writes. */
  function Field(num: nat, base: nat, size: int, precision: int, f: Flags): string
    requires num < TWO64 && 2 <= base <= 16
  {
    var sign, prefix := SignText(num, f), Prefix(base, f);
    var digits := Text(Magnitude(num, f), base, f.small);
    var wide := Max(precision, |digits|);
    Parts(sign, prefix, f.zeropad && !f.left, f.left, size - |sign| - |prefix| - wide, wide, digits)
  }

  /** The field is as wide as asked, or as its parts need. */
  lemma FieldLength(num: nat, base: nat, size: int, precision: int, f: Flags)
    requires num < TWO64 && 2 <= base <= 16
    ensures var digits := |Text(Magnitude(num, f), base, f.small)|;
            |Field(num, base, size, precision, f)|
            == Max(size, Max(precision, digits) + |SignText(num, f)| + |Prefix(base, f)|)
  {
    hide Text;
  }

  // ------------------------------------------------------------ parsing

  function IsHexDigit(c: char): bool { '0' <= c <= '9' || 'A' <= c <= 'F' || 'a' <= c <= 'f' }

  /** The value of a hexadecimal digit. */
  function DigitValue(c: char): (v: nat)
    ensures v < 16
  {
    if !IsHexDigit(c) then 0
    else if c <= '9' then c as int - 48 else if c <= 'F' then c as int - 55 else c as int - 87
  }

  /** The character at i, or the terminating NUL. */
  function At(s: string, i: nat): char { if i < |s| then s[i] else '\0' }

  predicate IsDigitOf(c: char, base: nat) { IsHexDigit(c) && DigitValue(c) < base }

  /** The length of the run of digits of `base` from i on. */
  function RunEnd(s: string, i: nat, base: nat): (e: nat)
    requires i <= |s|
    ensures i <= e <= |s|
    decreases |s| - i
  {
    if i < |s| && IsDigitOf(s[i], base) then RunEnd(s, i + 1, base) else i
  }

  /** The value of a digit string. */
  function Eval(s: string, base: nat): nat
  {
    if s == [] then 0 else Eval(s[..|s| - 1], base) * base + DigitValue(s[|s| - 1])
  }

  lemma {:induction false} RunDigits(s: string, i: nat, base: nat)
    requires i <= |s|
    ensures forall j :: i <= j < RunEnd(s, i, base) ==> IsDigitOf(s[j], base)
    ensures RunEnd(s, i, base) < |s| ==> !IsDigitOf(s[RunEnd(s, i, base)], base)
    decreases |s| - i
  {
    if i < |s| && IsDigitOf(s[i], base) {
      RunDigits(s, i + 1, base);
    }
  }

  /** The base in force and the start of the digits, after an optional 0 or 0x. */
  function Start(s: string, base: nat): (r: (nat, nat))
    ensures r.1 <= |s|
  {
    if At(s, 0) == '0' then
      if At(s, 1) == 'x' && IsHexDigit(At(s, 2)) then (16, 2)
      else (if base == 0 then 8 else base, 1)
    else (if base == 0 then 10 else base, 0)
  }

  /** What strtoul gives for s: the value of the run in `limit`, and where the run ends. */
  function Parse(s: string, base: nat, limit: nat): (nat, nat)
    requires limit > 0
  {
    var (b, i) := Start(s, base);
    var e := RunEnd(s, i, b);
    (Eval(s[i..e], b) % limit, e)
  }

  // ------------------------------------------------------------ the round trip

  lemma DigitBack(d: nat, small: bool)
    requires d < 16
    ensures IsHexDigit(Digit(d, small)) && DigitValue(Digit(d, small)) == d && Digit(d, small) != 'x'
  {
  }

  lemma {:induction false} TextDigits(n: nat, base: nat, small: bool)
    requires 2 <= base <= 16
    ensures var t := Text(n, base, small);
            && (forall i :: 0 <= i < |t| ==> IsDigitOf(t[i], base) && t[i] != 'x')
            && Eval(t, base) == n
  {
    hide Digit, DigitValue, IsHexDigit;
    if n < base {
      DigitBack(n, small);
      assert [Digit(n, small)][..0] == [];
      assert Eval([], base) == 0;
    } else {
      TextDigits(n / base, base, small);
      DigitBack(n % base, small);
      var t := Text(n, base, small);
      assert t[..|t| - 1] == Text(n / base, base, small);
      DivMod(n, base);
    }
  }

  lemma DivMod(n: nat, base: nat)
    requires base > 0
    ensures (n / base) * base + n % base == n
  {
  }

  lemma {:induction false} LeadingZeros(k: nat, t: string, base: nat)
    ensures Eval(Repeat('0', k) + t, base) == Eval(t, base)
    decreases |t|, k
  {
    var z := Repeat('0', k);
    if t == [] {
      if k == 0 {
        assert z + t == [];
      } else {
        LeadingZeros(k - 1, [], base);
        assert (z + t)[..k - 1] == Repeat('0', k - 1) + [];
      }
    } else {
      var u := t[..|t| - 1];
      LeadingZeros(k, u, base);
      assert (z + t)[..k + |t| - 1] == z + u;
    }
  }

  lemma {:induction false} RunToEnd(s: string, i: nat, base: nat)
    requires i <= |s| && forall j :: i <= j < |s| ==> IsDigitOf(s[j], base)
    ensures RunEnd(s, i, base) == |s|
    decreases |s| - i
  {
    if i < |s| {
      RunToEnd(s, i + 1, base);
    }
  }

  /** Zeros and digits of n, with no prefix, parse as n. */
  lemma ParsePlain(s: string, k: nat, n: nat, base: nat, small: bool, limit: nat)
    requires 2 <= base <= 16 && n < limit && s == Repeat('0', k) + Text(n, base, small)
    ensures Parse(s, base, limit) == (n, |s|)
  {
    hide Text, Eval, IsDigitOf, IsHexDigit, DigitValue, Parse, Repeat;
    var t := Text(n, base, small);
    TextDigits(n, base, small);
    LeadingZeros(k, t, base);
    PlainDigits(s, k, t, base);
    ParseDigits(s, n, base, limit);
  }

  lemma ParseDigits(s: string, n: nat, base: nat, limit: nat)
    requires s != [] && base >= 2 && n < limit
    requires forall i :: 0 <= i < |s| ==> IsDigitOf(s[i], base) && s[i] != 'x'
    requires Eval(s, base) == n
    ensures Parse(s, base, limit) == (n, |s|)
  {
    hide Eval, IsHexDigit, DigitValue, RunEnd, Start;
    StartPlain(s, base);
    SmallMod(n, limit);
    if s[0] == '0' {
      SkipZero(s, base);
      RunToEnd(s, 1, base);
      assert s[1..|s|] == s[1..];
    } else {
      RunToEnd(s, 0, base);
      assert s[0..|s|] == s;
    }
  }

  lemma StartPlain(s: string, base: nat)
    requires s != [] && base >= 2 && forall i :: 0 <= i < |s| ==> s[i] != 'x'
    ensures Start(s, base) == (base, if s[0] == '0' then 1 else 0)
  {
    hide IsHexDigit;
  }

  lemma SmallMod(n: nat, limit: nat)
    requires n < limit
    ensures n % limit == n
  {
  }

  lemma PlainDigits(s: string, k: nat, t: string, base: nat)
    requires base >= 2 && t != [] && s == Repeat('0', k) + t
    requires forall i :: 0 <= i < |t| ==> IsDigitOf(t[i], base) && t[i] != 'x'
    ensures forall i :: 0 <= i < |s| ==> IsDigitOf(s[i], base) && s[i] != 'x'
  {
  }

  lemma SkipZero(s: string, base: nat)
    requires s != [] && s[0] == '0'
    ensures Eval(s[1..], base) == Eval(s, base)
  {
    LeadingZeros(1, s[1..], base);
    assert s == Repeat('0', 1) + s[1..];
  }

  /** Digits behind 0x are read in base 16. */
  lemma ParseHex(s: string, k: nat, n: nat, small: bool, limit: nat)
    requires n < limit && s == "0x" + (Repeat('0', k) + Text(n, 16, small))
    ensures Parse(s, 16, limit) == (n, |s|)
  {
    hide Text, Eval, IsHexDigit, DigitValue, Repeat, Start, RunEnd;
    var t := Text(n, 16, small);
    TextDigits(n, 16, small);
    SmallMod(n, limit);
    LeadingZeros(k, t, 16);
    PlainDigits(Repeat('0', k) + t, k, t, 16);
    var d := Repeat('0', k) + t;
    assert forall j :: 2 <= j < |s| ==> s[j] == d[j - 2];
    assert IsDigitOf(s[2], 16);
    StartHex(s, 16);
    RunToEnd(s, 2, 16);
    assert s[2..|s|] == d;
  }

  lemma StartHex(s: string, base: nat)
    requires |s| > 2 && s[0] == '0' && s[1] == 'x' && IsHexDigit(s[2])
    ensures Start(s, base) == (16, 2)
  {
    hide IsHexDigit;
  }

  /** A capital X stops the parser after the 0. */
  lemma ParseCapital(s: string, base: nat, limit: nat)
    requires limit > 0 && |s| > 2 && s[0] == '0' && s[1] == 'X'
    ensures Parse(s, base, limit).1 == 1
  {
  }

  /** Prefix, zeros and digits are read back as the number, except behind a capital 0X. */
  lemma BodyReads(n: nat, base: nat, k: nat, f: Flags)
    requires n < TWO64 && (base == 8 || base == 10 || base == 16)
    ensures var s := Prefix(base, f) + (Repeat('0', k) + Text(n, base, f.small));
            Parse(s, base, TWO64) == (n, |s|) <==> !(f.special && base == 16 && !f.small)
  {
    hide Text, Parse;
    var t, p := Text(n, base, f.small), Prefix(base, f);
    var s := p + (Repeat('0', k) + t);
    if p == "" {
      assert s == Repeat('0', k) + t;
      ParsePlain(s, k, n, base, f.small, TWO64);
    } else if base == 8 {
      assert s == Repeat('0', k + 1) + t;
      ParsePlain(s, k + 1, n, base, f.small, TWO64);
    } else if f.small {
      ParseHex(s, k, n, f.small, TWO64);
    } else {
      ParseCapital(s, base, TWO64);
    }
  }

  /** A field is blanks, what it says, and blanks; only one side has any. */
  lemma FieldShape(num: nat, base: nat, size: int, precision: int, f: Flags) returns (lead: nat, k: nat, trail: nat)
    requires num < TWO64 && 2 <= base <= 16
    ensures Field(num, base, size, precision, f)
         == Repeat(' ', lead)
            + (SignText(num, f) + (Prefix(base, f) + (Repeat('0', k) + Text(Magnitude(num, f), base, f.small))))
            + Repeat(' ', trail)
    ensures (f.left ==> lead == 0) && (!f.left ==> trail == 0) && (f.zeropad && !f.left ==> lead == 0)
    ensures var t := |Text(Magnitude(num, f), base, f.small)|;
            (f.zeropad && !f.left) || k + t == Max(precision, t)
  {
    hide Text, Repeat, SignText, Prefix;
    var t := Text(Magnitude(num, f), base, f.small);
    var wide := Max(precision, |t|);
    var pad := size - |SignText(num, f)| - |Prefix(base, f)| - wide;
    var front := if !f.zeropad && !f.left then Repeat(' ', pad) else "";
    var zeros := if f.zeropad && !f.left then Repeat('0', pad) else "";
    var back := if f.left then Repeat(' ', pad) else "";
    lead, k, trail := |front|, |zeros| + (wide - |t|), |back|;
    AllZeros(zeros, Repeat('0', wide - |t|), k);
    SameRepeat(front, ' ', pad);
    SameRepeat(back, ' ', pad);
    Assemble(front, SignText(num, f), Prefix(base, f), zeros, Repeat('0', wide - |t|), t, back);
  }

  lemma SameRepeat(s: string, c: char, n: int)
    requires s == "" || s == Repeat(c, n)
    ensures s == Repeat(c, |s|)
  {
  }

  lemma AllZeros(a: string, b: string, k: nat)
    requires |a| + |b| == k
    requires (forall i :: 0 <= i < |a| ==> a[i] == '0') && (forall i :: 0 <= i < |b| ==> b[i] == '0')
    ensures a + b == Repeat('0', k)
  {
  }

  lemma Assemble(front: string, sign: string, p: string, z1: string, z2: string, t: string, back: string)
    ensures front + sign + p + z1 + z2 + t + back == front + (sign + (p + ((z1 + z2) + t))) + back
  {
  }

  predicate ShowsSigned(s: string, c: char, n: nat, base: nat)
  {
    s != "" && s[0] == c && Parse(s[1..], base, TWO64) == (n, |s| - 1)
  }

  /** The sign of the 64-bit two's complement number, if one is shown, and digits that read back as its
      magnitude. */
  predicate Says(m: string, num: nat, base: nat, f: Flags)
    requires num < TWO64
  {
    if f.sign && num >= TWO63 then ShowsSigned(m, '-', TWO64 - num, base)
    else if f.sign && f.plus then ShowsSigned(m, '+', num, base)
    else if f.sign && f.space then ShowsSigned(m, ' ', num, base)
    else Parse(m, base, TWO64) == (num, |m|)
  }

  lemma BodySays(num: nat, base: nat, k: nat, f: Flags)
    requires num < TWO64 && (base == 8 || base == 10 || base == 16) && !(f.special && base == 16 && !f.small)
    ensures Says(SignText(num, f) + (Prefix(base, f) + (Repeat('0', k) + Text(Magnitude(num, f), base, f.small))),
                 num, base, f)
  {
    BodyReads(Magnitude(num, f), base, k, f);
    hide Text, Parse, Repeat, Prefix, Says;
    SaysBehind(SignText(num, f), Prefix(base, f) + (Repeat('0', k) + Text(Magnitude(num, f), base, f.small)), num, base, f);
  }

  lemma SaysBehind(sign: string, body: string, num: nat, base: nat, f: Flags)
    requires num < TWO64 && sign == SignText(num, f) && Parse(body, base, TWO64) == (Magnitude(num, f), |body|)
    ensures Says(sign + body, num, base, f)
  {
    hide Parse;
    AfterSign(sign, body);
  }

  lemma AfterSign(sign: string, body: string)
    ensures (sign + body)[|sign|..] == body && (sign == "" ==> sign + body == body)
  {
  }

  /**
  What a field says, for all flags but a capital 0X: the number stands between blanks on the left (neither
  `left` nor `zeropad`) and blanks on the right (`left`). Without zero padding it is no longer than precision,
  digits, sign and prefix need.
   */
  lemma FieldReads(num: nat, base: nat, size: int, precision: int, f: Flags) returns (lead: nat, trail: nat)
    requires num < TWO64 && (base == 8 || base == 10 || base == 16) && !(f.special && base == 16 && !f.small)
    ensures (f.left ==> lead == 0) && (!f.left ==> trail == 0) && (f.zeropad && !f.left ==> lead == 0)
    ensures var s := Field(num, base, size, precision, f);
            && lead + trail <= |s| && s[..lead] == Repeat(' ', lead) && s[|s| - trail..] == Repeat(' ', trail)
            && Says(s[lead..|s| - trail], num, base, f)
            && ((f.zeropad && !f.left)
                || |s| - lead - trail == Max(precision, |Text(Magnitude(num, f), base, f.small)|)
                                         + |SignText(num, f)| + |Prefix(base, f)|)
  {
    var k;
    lead, k, trail := FieldShape(num, base, size, precision, f);
    BodySays(num, base, k, f);
    hide Text, Field, Prefix, Says, SignText, Repeat, Max, Magnitude;
    var s := Field(num, base, size, precision, f);
    var m := SignText(num, f) + (Prefix(base, f) + (Repeat('0', k) + Text(Magnitude(num, f), base, f.small)));
    Middle(s, Repeat(' ', lead), m, Repeat(' ', trail));
  }

  lemma Middle(s: string, x: string, m: string, y: string)
    requires s == x + m + y
    ensures s[..|x|] == x && s[|x|..|s| - |y|] == m && s[|s| - |y|..] == y
  {
  }

  // ------------------------------------------------------------ letters, prefixes and what follows

  function Lower(c: char): char { if 'A' <= c <= 'Z' then (c as int + 32) as char else c }

  function LowerText(t: string): (s: string)
    ensures |s| == |t|
  {
    seq(|t|, j requires 0 <= j < |t| => Lower(t[j]))
  }

  /** t is s in small letters, and s has none. */
  predicate LowersTo(s: string, t: string)
  {
    LowerText(s) == t && forall i :: 0 <= i < |s| ==> !('a' <= s[i] <= 'z')
  }

  lemma LowersAppend(s: string, t: string, u: string, v: string)
    requires LowersTo(s, t) && LowersTo(u, v)
    ensures LowersTo(s + u, t + v)
  {
  }

  lemma LowersDigit(d: nat)
    requires d < 16
    ensures LowersTo([Digit(d, false)], [Digit(d, true)])
  {
  }

  lemma {:induction false} LowersDigits(n: nat, base: nat)
    requires 2 <= base <= 16
    ensures LowersTo(Text(n, base, false), Text(n, base, true))
  {
    hide Digit, LowersTo;
    if n < base {
      LowersDigit(n);
    } else {
      LowersDigits(n / base, base);
      LowersDigit(n % base);
      LowersAppend(Text(n / base, base, false), Text(n / base, base, true),
                   [Digit(n % base, false)], [Digit(n % base, true)]);
    }
  }

  lemma LowersSame(s: string)
    requires forall i :: 0 <= i < |s| ==> s[i] == ' ' || s[i] == '+' || s[i] == '-' || s[i] == '0'
    ensures LowersTo(s, s)
  {
  }

  /** Small letters are all that `small` changes: without it a field has no small letter, and in small letters
      it is the field with it. */
  lemma CaseOnly(num: nat, base: nat, size: int, precision: int, f: Flags, g: Flags)
    requires num < TWO64 && 2 <= base <= 16 && !f.small && g == f.(small := true)
    ensures LowersTo(Field(num, base, size, precision, f), Field(num, base, size, precision, g))
  {
    hide *;
    var n, sign, p, q := Magnitude(num, f), SignText(num, f), Prefix(base, f), Prefix(base, g);
    var digits, small := Text(n, base, false), Text(n, base, true);
    SameSign(num, f, g);
    LowersDigits(n, base);
    LowersPrefix(base, f, g);
    LowersLength(digits, small);
    LowersLength(p, q);
    FieldIs(num, base, size, precision, f, n, digits);
    FieldIs(num, base, size, precision, g, n, small);
    var wide := Max(precision, |digits|);
    LowersParts(sign, p, q, f.zeropad && !f.left, f.left, size - |sign| - |p| - wide, wide, digits, small);
  }

  lemma FieldIs(num: nat, base: nat, size: int, precision: int, f: Flags, n: nat, digits: string)
    requires num < TWO64 && 2 <= base <= 16 && n == Magnitude(num, f) && digits == Text(n, base, f.small)
    ensures var sign, p, wide := SignText(num, f), Prefix(base, f), Max(precision, |digits|);
            Field(num, base, size, precision, f)
            == Parts(sign, p, f.zeropad && !f.left, f.left, size - |sign| - |p| - wide, wide, digits)
  {
    hide Text, Parts, SignText, Prefix, Magnitude;
  }

  lemma LowersLength(s: string, t: string)
    requires LowersTo(s, t)
    ensures |s| == |t|
  {
  }

  lemma SameSign(num: nat, f: Flags, g: Flags)
    requires num < TWO64 && g == f.(small := true)
    ensures SignText(num, g) == SignText(num, f) && Magnitude(num, g) == Magnitude(num, f)
    ensures LowersTo(SignText(num, f), SignText(num, f))
  {
  }

  lemma LowersPrefix(base: nat, f: Flags, g: Flags)
    requires !f.small && g == f.(small := true)
    ensures LowersTo(Prefix(base, f), Prefix(base, g))
  {
  }

  lemma LowersParts(sign: string, p: string, q: string, zeropad: bool, left: bool, pad: int, precision: int,
                    t: string, u: string)
    requires LowersTo(sign, sign) && LowersTo(p, q) && LowersTo(t, u)
    ensures LowersTo(Parts(sign, p, zeropad, left, pad, precision, t), Parts(sign, q, zeropad, left, pad, precision, u))
  {
    var front := if !zeropad && !left then Repeat(' ', pad) else "";
    var zeros := if zeropad && !left then Repeat('0', pad) else "";
    var more := Repeat('0', precision - |t|);
    var back := if left then Repeat(' ', pad) else "";
    LowersSame(front);
    LowersSame(zeros);
    LowersSame(more);
    LowersSame(back);
    LowersLength(t, u);
    hide LowersTo, Repeat;
    LowersAppend(front, front, sign, sign);
    LowersAppend(front + sign, front + sign, p, q);
    LowersAppend(front + sign + p, front + sign + q, zeros, zeros);
    LowersAppend(front + sign + p + zeros, front + sign + q + zeros, more, more);
    LowersAppend(front + sign + p + zeros + more, front + sign + q + zeros + more, t, u);
    LowersAppend(front + sign + p + zeros + more + t, front + sign + q + zeros + more + u, back, back);
  }

  /** A parser that is told no base finds it in the prefix. */
  lemma PrefixTellsBase(num: nat, base: nat, f: Flags)
    requires num < TWO64 && (base == 8 || base == 10 || base == 16)
    requires f.special && !f.sign && (base == 16 ==> f.small)
    ensures var s := Field(num, base, 0, 0, f); Parse(s, 0, TWO64) == (num, |s|)
  {
    var t := Text(num, base, f.small);
    PlainField(num, base, f);
    hide Field, Text, Parse;
    if base == 16 {
      HexPrefixWins(num, 0, f.small, TWO64);
    } else {
      TellsBase(t, num, base, f.small);
    }
  }

  lemma TellsBase(t: string, n: nat, base: nat, small: bool)
    requires n < TWO64 && (base == 8 || base == 10) && t == Text(n, base, small)
    ensures var s := if base == 8 then "0" + t else "" + t; Parse(s, 0, TWO64) == (n, |s|)
  {
    LeadingDigit(n, base, small);
    TextDigits(n, base, small);
    hide Text, Eval, DigitValue, IsHexDigit;
    if base == 8 {
      ParsePlain("0" + t, 1, n, 8, small, TWO64);
      assert Repeat('0', 1) + t == "0" + t;
    } else if n != 0 {
      ParsePlain(t, 0, n, 10, small, TWO64);
      assert Repeat('0', 0) + t == t == "" + t;
    } else {
      assert t == "0" == "" + t;
    }
  }

  /** With no width and no precision a field is prefix and digits. */
  lemma PlainField(num: nat, base: nat, f: Flags)
    requires num < TWO64 && 2 <= base <= 16 && !f.sign
    ensures Field(num, base, 0, 0, f) == Prefix(base, f) + Text(num, base, f.small)
  {
    hide Text;
    var t := Text(num, base, f.small);
    FieldLength(num, base, 0, 0, f);
    var lead, k, trail := FieldShape(num, base, 0, 0, f);
    assert lead == 0 && trail == 0 && k == 0;
    hide Field, Prefix;
    var body := Prefix(base, f) + (Repeat('0', 0) + t);
    AfterSign("", body);
    NoBlanks(Repeat(' ', 0), body, Repeat(' ', 0));
    assert Repeat('0', 0) + t == t;
  }

  /** Only the number 0 starts with the digit 0. */
  lemma {:induction false} LeadingDigit(n: nat, base: nat, small: bool)
    requires 2 <= base <= 16
    ensures Text(n, base, small)[0] == '0' <==> n == 0
    ensures n == 0 ==> |Text(n, base, small)| == 1
    ensures IsHexDigit(Text(n, base, small)[0])
  {
    hide IsHexDigit;
    if n < base {
      DigitBack(n, small);
    } else {
      Quotient(n, base);
      LeadingDigit(n / base, base, small);
      hide Digit;
      FirstOf(Text(n / base, base, small), Digit(n % base, small));
    }
  }

  lemma FirstOf(t: string, c: char)
    requires t != []
    ensures (t + [c])[0] == t[0]
  {
  }

  lemma Quotient(n: nat, base: nat)
    requires 2 <= base <= n
    ensures n / base > 0
  {
  }

  /** Behind the digits the parser stops at whatever is no digit of the base. */
  predicate NoDigit(c: char, base: nat)
  {
    if base == 8 then !('0' <= c <= '7')
    else if base == 10 then !('0' <= c <= '9')
    else !('0' <= c <= '9' || 'A' <= c <= 'F' || 'a' <= c <= 'f')
  }

  lemma StopsBehind(n: nat, base: nat, small: bool, rest: string, limit: nat)
    requires (base == 8 || base == 10 || base == 16) && n < limit
    requires rest != [] ==> NoDigit(rest[0], base) && (n == 0 ==> rest[0] != 'x')
    ensures Parse(Text(n, base, small) + rest, base, limit) == (n, |Text(n, base, small)|)
  {
    var t := Text(n, base, small);
    TextDigits(n, base, small);
    LeadingDigit(n, base, small);
    SmallMod(n, limit);
    hide Text, Eval, DigitValue;
    var s := t + rest;
    var i := Start(s, base).1;
    assert i <= |t| && Start(s, base).0 == base;
    RunBehind(t, rest, i, base);
    assert s[0..|t|] == t && s[1..|t|] == t[1..];
    if i == 1 {
      SkipZero(t, base);
    }
  }

  lemma {:induction false} RunBehind(t: string, rest: string, i: nat, base: nat)
    requires i <= |t| && (forall j :: i <= j < |t| ==> IsDigitOf(t[j], base))
    requires rest != [] ==> !IsDigitOf(rest[0], base)
    ensures RunEnd(t + rest, i, base) == |t|
    decreases |t| - i
  {
    if i < |t| {
      RunBehind(t, rest, i + 1, base);
    }
  }

  /** 0x without a hexadecimal digit behind it is the number 0 and ends at the x. */
  lemma BareHexPrefix(s: string, base: nat, limit: nat)
    requires limit > 0 && |s| >= 2 && s[0] == '0' && s[1] == 'x' && (|s| > 2 ==> NoDigit(s[2], 16))
    ensures Parse(s, base, limit) == (0, 1)
  {
  }

  /** With a hexadecimal digit behind it, 0x overrides the base asked for. */
  lemma HexPrefixWins(n: nat, base: nat, small: bool, limit: nat)
    requires n < limit
    ensures var s := "0x" + Text(n, 16, small); Parse(s, base, limit) == (n, |s|)
  {
    LeadingDigit(n, 16, small);
    ParseHex("0x" + Text(n, 16, small), 0, n, small, limit);
    hide Text, Eval, RunEnd, IsHexDigit;
    assert Repeat('0', 0) + Text(n, 16, small) == Text(n, 16, small);
    StartHex("0x" + Text(n, 16, small), base);
    StartHex("0x" + Text(n, 16, small), 16);
  }

  /** The text is what a parser of the same base reads back, when it has no sign and no
      spaces: only a capital 0X prefix is not understood. */
  lemma FieldRoundTrip(num: nat, base: nat, size: int, precision: int, f: Flags)
    requires num < TWO64 && (base == 8 || base == 10 || base == 16)
    requires SignText(num, f) == "" && Magnitude(num, f) == num
    requires (f.zeropad && !f.left)
             || size <= Max(precision, |Text(num, base, f.small)|) + |Prefix(base, f)|
    ensures var s := Field(num, base, size, precision, f);
            Parse(s, base, TWO64) == (num, |s|) <==> !(f.special && base == 16 && !f.small)
  {
    FieldLength(num, base, size, precision, f);
    var lead, k, trail := FieldShape(num, base, size, precision, f);
    BodyReads(num, base, k, f);
    hide Text, Parse, Field, Prefix;
    assert lead == 0 && trail == 0;
    var body := Prefix(base, f) + (Repeat('0', k) + Text(num, base, f.small));
    AfterSign(SignText(num, f), body);
    NoBlanks(Repeat(' ', 0), body, Repeat(' ', 0));
  }

  lemma NoBlanks(x: string, m: string, y: string)
    requires x == y == ""
    ensures x + m + y == m
  {
  }
}
