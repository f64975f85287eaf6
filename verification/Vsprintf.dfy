/**
lib/vsprintf.c: the decimal digits by multiplication with a reciprocal, the field
formatter number() and the parsers simple_strtoul and simple_strtoull.
 */
module Vsprintf {
  import opened NumberText
  import Div64

  // ------------------------------------------------------------ put_dec

  function Div10(x: nat): nat { x / 10 }
  function Mod10(x: nat): (m: nat) ensures m < 10 { x % 10 }

  /** (x * 0xcd) >> 11 divides by ten, for every x the digit code can produce. */
  function Tenth(x: nat): (t: nat)
    requires x <= 1028
    ensures t == Div10(x) && x - 10 * t == Mod10(x)
  {
    x * 0xcd / 2048
  }

  /** (x * 0xd) >> 7 does so for smaller x. */
  function SmallTenth(x: nat): (t: nat)
    requires x <= 68
    ensures t == Div10(x) && x - 10 * t == Mod10(x)
  {
    x * 0xd / 128
  }

  /** q & 0xf, (q >> 4) & 0xf, (q >> 8) & 0xf and q >> 12. */
  function Low4(q: nat): nat { q % 16 }
  function Mid4(q: nat): nat { q / 16 % 16 }
  function High4(q: nat): nat { q / 256 % 16 }
  function Top(q: nat): nat { q / 4096 }

  lemma HexSplit(q: nat)
    ensures q == 4096 * (q / 4096) + 256 * (q / 256 % 16) + 16 * (q / 16 % 16) + q % 16
  {
    var a := q / 16;
    var b := a / 16;
    assert b == q / 256 && b / 16 == q / 4096;
  }

  lemma TenSplit(x: int, e: int, r: int)
    requires x == e + 10 * r && 0 <= e < 10
    ensures x % 10 == e && x / 10 == r
  {
  }

  /** The column sums of the digit code: 4096 = 4*1000 + 9*10 + 6, 256 = 2*100 + 5*10 + 6 and
      16 = 10 + 6, so each sum with its carry holds one more decimal digit of q, and is zero
      when nothing is left. */
  ghost predicate ColumnSums(q: nat, d2: int, d3: int, t0: int, t1: int, t2: int, t3: int)
  {
    var r1 := Div10(q);
    var r2 := Div10(r1);
    && 0 <= d2 && 0 <= d3
    && 0 <= t0 <= 1028 && 0 <= t1 <= 1028 && 0 <= t2 <= 68 && 0 <= t3 <= 1028
    && Mod10(t0) == Mod10(q) && Mod10(t1) == Mod10(r1) && Mod10(t2) == Mod10(r2) && t3 == Div10(r2)
    && (t1 == 0 <==> r1 == 0) && (t2 == 0 && d3 == 0 <==> r2 == 0) && Div10(t3) < 10
  }

  lemma Columns(q: nat)
    requires q < 100000
    ensures var d1, d2, d3 := Mid4(q), High4(q), Top(q);
            var t0 := 6 * (d3 + d2 + d1) + Low4(q);
            var t1 := Div10(t0) + 9 * d3 + 5 * d2 + d1;
            var t2 := Div10(t1) + 2 * d2;
            ColumnSums(q, d2, d3, t0, t1, t2, Div10(t2) + 4 * d3)
  {
    hide ColumnSums;
    HexSplit(q);
    SumColumns(q, Mid4(q), High4(q), Top(q), Low4(q));
  }

  lemma SumColumns(q: nat, d1: int, d2: int, d3: int, d0: int)
    requires q == 4096 * d3 + 256 * d2 + 16 * d1 + d0 && q < 100000
    requires 0 <= d0 < 16 && 0 <= d1 < 16 && 0 <= d2 < 16 && 0 <= d3
    ensures var t0 := 6 * (d3 + d2 + d1) + d0;
            var t1 := Div10(t0) + 9 * d3 + 5 * d2 + d1;
            var t2 := Div10(t1) + 2 * d2;
            ColumnSums(q, d2, d3, t0, t1, t2, Div10(t2) + 4 * d3)
  {
    var t0 := 6 * (d3 + d2 + d1) + d0;
    var t1 := t0 / 10 + 9 * d3 + 5 * d2 + d1;
    var t2 := t1 / 10 + 2 * d2;
    var t3 := t2 / 10 + 4 * d3;
    TenSplit(q, t0 % 10, t1 + 20 * d2 + 400 * d3);
    TenSplit(q / 10, t1 % 10, t2 + 40 * d3);
    TenSplit(q / 10 / 10, t2 % 10, t3);
  }

  function Dec(d: nat): char
    requires d < 10
  {
    (d + 48) as char
  }

  /** Five decimal digits of q, lowest first. */
  function Five(q: nat): (s: string)
    requires q < 100000
    ensures |s| == 5
  {
    var r1 := Div10(q);
    var r2 := Div10(r1);
    var r3 := Div10(r2);
    [Dec(Mod10(q)), Dec(Mod10(r1)), Dec(Mod10(r2)), Dec(Mod10(r3)), Dec(Div10(r3))]
  }

  /** The digits of q without leading zeros are a prefix of the five. */
  lemma ShortText(q: nat)
    requires q < 100000
    ensures var r1 := Div10(q);
            var r2 := Div10(r1);
            var r3 := Div10(r2);
            Reversed(q, 10, false) == Five(q)[..if r1 == 0 then 1 else if r2 == 0 then 2 else if r3 == 0 then 3
                                               else if Div10(r3) == 0 then 4 else 5]
  {
    var r1 := q / 10;
    var r2 := r1 / 10;
    var r3 := r2 / 10;
    LastDigits(r3);
    assert Reversed(r1, 10, false) == if r2 == 0 then [Dec(r1)] else [Dec(r1 % 10)] + Reversed(r2, 10, false);
    assert Reversed(r2, 10, false) == if r3 == 0 then [Dec(r2)] else [Dec(r2 % 10)] + Reversed(r3, 10, false);
  }

  lemma LastDigits(r: nat)
    requires r < 100
    ensures Reversed(r, 10, false) == if r / 10 == 0 then [Dec(r)] else [Dec(r % 10), Dec(r / 10)]
  {
  }

  /** *buf++ = d + '0', after the text `done` written from `start` on. */
  method Emit(buf: array<char>, p: nat, d: nat, ghost start: string, ghost done: string) returns (end: nat)
    requires p < buf.Length && d < 10 && buf[..p] == start + done
    modifies buf
    ensures end == p + 1 && buf[..end] == start + (done + [Dec(d)])
  {
    buf[p] := Dec(d);
    end := p + 1;
    assert buf[..end] == buf[..p] + [buf[p]];
  }

  lemma FiveDigits(q: nat)
    requires q < 100000
    ensures var r1 := Div10(q);
            var r2 := Div10(r1);
            var r3 := Div10(r2);
            && Div10(r3) < 10
            && Five(q)[0] == Dec(Mod10(q)) && Five(q)[1] == Dec(Mod10(r1)) && Five(q)[2] == Dec(Mod10(r2))
            && Five(q)[3] == Dec(Mod10(r3)) && Five(q)[4] == Dec(Div10(r3))
  {
  }

  lemma FivePrefixes(q: nat)
    requires q < 100000
    ensures var f := Five(q);
            var c1 := "" + [f[0]];
            var c2 := c1 + [f[1]];
            var c3 := c2 + [f[2]];
            var c4 := c3 + [f[3]];
            f[..1] == c1 && f[..2] == c2 && f[..3] == c3 && f[..4] == c4 && f[..5] == f == c4 + [f[4]]
  {
    hide Dec, Div10, Mod10;
  }

  /** put_dec_trunc: one to five digits, as needed. */
  method PutDecTrunc(buf: array<char>, p: nat, q0: nat) returns (end: nat)
    requires q0 < 100000 && p + |Reversed(q0, 10, false)| <= buf.Length
    modifies buf
    ensures end == p + |Reversed(q0, 10, false)|
    ensures buf[..end] == old(buf[..p]) + Reversed(q0, 10, false)
  {
    hide Reversed, Tenth, SmallTenth, Low4, Mid4, High4, Top, Dec, Div10, Mod10, Five;
    ShortText(q0);
    Columns(q0);
    FiveDigits(q0);
    FivePrefixes(q0);
    ghost var f, start := Five(q0), buf[..p];
    var q := q0;
    var d1, d2, d3 := Mid4(q), High4(q), Top(q);
    var d0 := 6 * (d3 + d2 + d1) + Low4(q);
    q := Tenth(d0);
    d0 := d0 - 10 * q;
    end := Emit(buf, p, d0, start, "");
    d1 := q + 9 * d3 + 5 * d2 + d1;
    if d1 != 0 {
      q := Tenth(d1);
      d1 := d1 - 10 * q;
      end := Emit(buf, end, d1, start, f[..1]);
      d2 := q + 2 * d2;
      if d2 != 0 || d3 != 0 {
        q := SmallTenth(d2);
        d2 := d2 - 10 * q;
        end := Emit(buf, end, d2, start, f[..2]);
        d3 := q + 4 * d3;
        if d3 != 0 {
          q := Tenth(d3);
          d3 := d3 - 10 * q;
          end := Emit(buf, end, d3, start, f[..3]);
          if q != 0 {
            end := Emit(buf, end, q, start, f[..4]);
          }
        }
      }
    }
  }

  /** put_dec_full: always five digits. */
  method PutDecFull(buf: array<char>, p: nat, q0: nat) returns (end: nat)
    requires q0 < 100000 && p + 5 <= buf.Length
    modifies buf
    ensures end == p + 5 && buf[..end] == old(buf[..p]) + Five(q0)
  {
    hide Tenth, SmallTenth, Low4, Mid4, High4, Top, Dec, Div10, Mod10, Five;
    Columns(q0);
    FiveDigits(q0);
    FivePrefixes(q0);
    ghost var f, start := Five(q0), buf[..p];
    var q := q0;
    var d1, d2, d3 := Mid4(q), High4(q), Top(q);
    var d0 := 6 * (d3 + d2 + d1) + Low4(q);
    q := Tenth(d0);
    d0 := d0 - 10 * q;
    end := Emit(buf, p, d0, start, "");
    d1 := q + 9 * d3 + 5 * d2 + d1;
    q := Tenth(d1);
    d1 := d1 - 10 * q;
    end := Emit(buf, end, d1, start, f[..1]);
    d2 := q + 2 * d2;
    q := SmallTenth(d2);
    d2 := d2 - 10 * q;
    end := Emit(buf, end, d2, start, f[..2]);
    d3 := q + 4 * d3;
    q := Tenth(d3);
    d3 := d3 - 10 * q;
    end := Emit(buf, end, d3, start, f[..3]);
    end := Emit(buf, end, q, start, f[..4]);
  }

  /** Splitting off five digits at a time keeps the text. */
  lemma FiveMore(n: nat)
    requires n >= 100000
    ensures Reversed(n, 10, false) == Five(n % 100000) + Reversed(n / 100000, 10, false)
  {
    var r, m := n % 100000, n / 100000;
    assert n == 100000 * m + r;
    TenSplit(n, r % 10, 10000 * m + r / 10);
    var n1, r1 := n / 10, r / 10;
    TenSplit(n1, r1 % 10, 1000 * m + r1 / 10);
    var n2, r2 := n1 / 10, r1 / 10;
    TenSplit(n2, r2 % 10, 100 * m + r2 / 10);
    var n3, r3 := n2 / 10, r2 / 10;
    TenSplit(n3, r3 % 10, 10 * m + r3 / 10);
    var n4 := n3 / 10;
    TenSplit(n4, r3 / 10, m);
    PeelDigit(n);
    PeelDigit(n1);
    PeelDigit(n2);
    PeelDigit(n3);
    PeelDigit(n4);
    hide Reversed;
    assert Reversed(n3, 10, false) == [Dec(r3 % 10), Dec(r3 / 10)] + Reversed(m, 10, false);
    assert Reversed(n1, 10, false) == [Dec(r1 % 10), Dec(r2 % 10)] + Reversed(n3, 10, false);
  }

  lemma PeelDigit(n: nat)
    requires n >= 10
    ensures Reversed(n, 10, false) == [Dec(n % 10)] + Reversed(n / 10, 10, false)
  {
  }

  lemma ByHundredThousand(n: nat, q: int, r: int)
    requires Div64.Divided(n, 100000, q, r)
    ensures q == n / 100000 && r == n % 100000
  {
    Div64.DivisionUnique(n, 100000, q, r, n / 100000, n % 100000);
  }

  /** do_div by 100000. */
  method TakeFive(num: nat) returns (q: nat, rem: nat)
    requires 100000 <= num < TWO64
    ensures q == num / 100000 < num && rem == num % 100000
  {
    var d, r := Div64.DoDiv(num, 100000);
    ByHundredThousand(num, d, r);
    q, rem := d, r;
  }

  /** put_dec: exactly the reversed decimal digits of a 64-bit value. */
  method PutDec(buf: array<char>, p: nat, num0: nat) returns (end: nat)
    requires num0 < TWO64 && p + |Reversed(num0, 10, false)| <= buf.Length
    modifies buf
    ensures end == p + |Reversed(num0, 10, false)|
    ensures buf[..end] == old(buf[..p]) + Reversed(num0, 10, false)
  {
    hide Reversed, Five;
    var num := num0;
    end := p;
    ghost var done := "";
    while num >= 100000
      invariant 0 <= num < TWO64 && end == p + |done| && end + |Reversed(num, 10, false)| <= buf.Length
      invariant Reversed(num0, 10, false) == done + Reversed(num, 10, false)
      invariant buf[..end] == old(buf[..p]) + done
      decreases num
    {
      FiveMore(num);
      var q, rem := TakeFive(num);
      end := PutDecFull(buf, end, rem);
      done := done + Five(rem);
      num := q;
    }
    end := PutDecTrunc(buf, end, num);
  }

  // ------------------------------------------------------------ number

  /** c | 0x20. */
  function OrCase(c: char, small: bool): char
    requires '0' <= c <= '9' || 'A' <= c <= 'F' || c == 'X'
  {
    if small && c as int / 32 % 2 == 0 then (c as int + 32) as char else c
  }

  /** digits[d] | locase. */
  lemma CasedDigit(d: nat, small: bool)
    requires d < 16
    ensures var c := Digit(d, false); ('0' <= c <= '9' || 'A' <= c <= 'F') && OrCase(c, small) == Digit(d, small)
  {
  }

  lemma {:induction false} DecimalHasNoCase(n: nat, small: bool)
    ensures Reversed(n, 10, small) == Reversed(n, 10, false)
  {
    if n >= 10 {
      DecimalHasNoCase(n / 10, small);
    }
  }

  /** The digits, lowest first, into a temporary buffer (vsprintf.c:331-349). */
  method PutDigits(tmp: array<char>, num: nat, base: nat, small: bool) returns (i: nat)
    requires tmp.Length == 66 && num < TWO64 && (base == 8 || base == 10 || base == 16)
    modifies tmp
    ensures i == |Text(num, base, small)| <= 22
    ensures Mirrored(tmp[..i], Text(num, base, small))
  {
    TextLength64(num, base, small);
    ReversedIsText(num, base, small);
    if num == 0 {
      tmp[0] := '0';
      i := 1;
    } else if base != 10 {
      hide Text;
      i := PutShifted(tmp, num, base, small);
    } else {
      hide Text;
      DecimalHasNoCase(num, small);
      assert tmp[..0] == "";
      i := PutDec(tmp, 0, num);
    }
  }

  /** r is t backwards. */
  ghost predicate Mirrored(r: string, t: string)
  {
    |r| == |t| && forall i :: 0 <= i < |t| ==> r[i] == t[|t| - 1 - i]
  }

  /** Bases 8 and 16 by mask and shift. */
  method PutShifted(tmp: array<char>, num0: nat, base: nat, small: bool) returns (i: nat)
    requires (base == 8 || base == 16) && num0 > 0 && |Reversed(num0, base, small)| <= tmp.Length
    modifies tmp
    ensures i == |Reversed(num0, base, small)| && tmp[..i] == Reversed(num0, base, small)
  {
    hide Reversed, Digit, OrCase;
    var num: nat := num0;
    i := 0;
    var more := true;
    while more
      invariant more ==> num > 0 && i + |Reversed(num, base, small)| <= tmp.Length
      invariant i <= tmp.Length
      invariant Reversed(num0, base, small) == tmp[..i] + (if more then Reversed(num, base, small) else "")
      decreases num, more
    {
      ReversedStep(num, base, small);
      var d, rest := Split(num, base);
      CasedDigit(d, small);
      tmp[i] := OrCase(Digit(d, false), small);
      i := i + 1;
      assert tmp[..i] == tmp[..i - 1] + [tmp[i - 1]];
      num := rest;
      more := num != 0;
    }
  }

  /** num & (base - 1) and num >> shift. */
  method Split(num: nat, base: nat) returns (d: nat, rest: nat)
    requires (base == 8 || base == 16) && num > 0
    ensures d == num % base < base && rest == num / base < num
  {
    d, rest := num % base, num / base;
  }

  lemma ReversedStep(n: nat, base: nat, small: bool)
    requires base == 8 || base == 16
    ensures n % base < 16
    ensures Reversed(n, base, small)
         == [Digit(n % base, small)] + if n / base == 0 then "" else Reversed(n / base, base, small)
  {
  }

  /** while (--size >= 0) *buf++ = c. */
  method PadWith(out: array<char>, p: nat, c: char, size0: int) returns (end: nat, size: int)
    requires p + |Repeat(c, size0)| <= out.Length
    modifies out
    ensures end == p + |Repeat(c, size0)| && out[..end] == old(out[..p]) + Repeat(c, size0)
    ensures size == (if size0 > 0 then -1 else size0 - 1)
  {
    end := p;
    size := size0 - 1;
    while size >= 0
      invariant size >= -1 || size == size0 - 1
      invariant size0 > 0 ==> end == p + (size0 - 1 - size)
      invariant size0 <= 0 ==> end == p && size == size0 - 1
      invariant p <= end <= out.Length && out[..p] == old(out[..p])
      invariant forall j :: p <= j < end ==> out[j] == c
    {
      out[end] := c;
      end := end + 1;
      size := size - 1;
    }
  }

  method PutChars(out: array<char>, p: nat, s: string) returns (end: nat)
    requires p + |s| <= out.Length
    modifies out
    ensures end == p + |s| && out[..end] == old(out[..p]) + s
  {
    end := p;
    var i := 0;
    while i < |s|
      invariant 0 <= i <= |s| && end == p + i && out[..end] == old(out[..p]) + s[..i]
    {
      out[end] := s[i];
      end := end + 1;
      i := i + 1;
      assert out[..end] == out[..end - 1] + [out[end - 1]];
    }
  }

  /** while (--i >= 0) *buf++ = tmp[i]: the digits, highest first. */
  method PutReversed(out: array<char>, p: nat, tmp: array<char>, n: nat, ghost t: string) returns (end: nat)
    requires out != tmp && n <= tmp.Length && p + n <= out.Length && Mirrored(tmp[..n], t)
    modifies out
    ensures end == p + n && out[..end] == old(out[..p]) + t
  {
    end := p;
    var i := n;
    assert forall j :: 0 <= j < n ==> tmp[j] == tmp[..n][j];
    while i > 0
      invariant 0 <= i <= n && end == p + (n - i) && out[..end] == old(out[..p]) + t[..n - i]
      invariant forall j :: 0 <= j < n ==> tmp[j] == t[n - 1 - j]
    {
      i := i - 1;
      out[end] := tmp[i];
      end := end + 1;
      assert out[..end] == out[..end - 1] + [out[end - 1]];
      assert t[..n - i] == t[..n - i - 1] + [t[n - i - 1]];
    }
  }

  /** The sign, the magnitude and the room left (vsprintf.c:311-323). */
  method TakeSign(num0: nat, size0: int, f: Flags) returns (sign: string, num: nat, size: int)
    requires num0 < TWO64
    ensures sign == SignText(num0, f) && num == Magnitude(num0, f) < TWO64 && size == size0 - |sign|
  {
    sign, num, size := "", num0, size0;
    if f.sign {
      if num >= TWO63 {
        sign := "-";
        num := TWO64 - num;
        size := size - 1;
      } else if f.plus {
        sign := "+";
        size := size - 1;
      } else if f.space {
        sign := " ";
        size := size - 1;
      }
    }
  }

  method TakePrefix(base: nat, size0: int, f: Flags) returns (prefix: string, size: int)
    ensures prefix == Prefix(base, f) && size == size0 - |prefix|
  {
    prefix, size := "", size0;
    if f.special && base != 10 {
      prefix := "0";
      size := size - 1;
      if base == 16 {
        prefix := ['0', OrCase('X', f.small)];
        size := size - 1;
      }
    }
  }

  /** number: the field, for bases 8, 10 and 16. */
  method Number(out: array<char>, p: nat, num0: nat, base: nat, size0: int, precision0: int, f: Flags)
    returns (end: nat)
    requires num0 < TWO64 && (base == 8 || base == 10 || base == 16)
    requires p + |Field(num0, base, size0, precision0, f)| <= out.Length
    modifies out
    ensures end == p + |Field(num0, base, size0, precision0, f)|
    ensures out[..end] == old(out[..p]) + Field(num0, base, size0, precision0, f)
  {
    hide *;
    FieldIsParts(num0, base, size0, precision0, f);
    var zeropad := f.zeropad && !f.left;
    var precision := precision0;
    var sign, num, size := TakeSign(num0, size0, f);
    var prefix;
    prefix, size := TakePrefix(base, size, f);
    var tmp := new char[66];
    var i := PutDigits(tmp, num, base, f.small);
    if i > precision {
      precision := i;
    }
    size := size - precision;
    end := PutField(out, p, sign, prefix, zeropad, f.left, size, precision, tmp, i, Text(num, base, f.small));
  }

  lemma FieldIsParts(num: nat, base: nat, size: int, precision: int, f: Flags)
    requires num < TWO64 && (base == 8 || base == 10 || base == 16)
    ensures var sign, prefix := SignText(num, f), Prefix(base, f);
            var digits := Text(Magnitude(num, f), base, f.small);
            var wide := if |digits| > precision then |digits| else precision;
            Field(num, base, size, precision, f)
            == Parts(sign, prefix, f.zeropad && !f.left, f.left, size - |sign| - |prefix| - wide, wide, digits)
  {
    hide Text, Parts, SignText, Prefix, Magnitude;
  }

  /** The padding, sign, prefix and digits, in the order of the loops (vsprintf.c:354-382). */
  method PutField(out: array<char>, p: nat, sign: string, prefix: string, zeropad: bool, left: bool,
                  size0: int, precision: int, tmp: array<char>, n: nat, ghost digits: string) returns (end: nat)
    requires out != tmp && n <= tmp.Length && |digits| == n <= precision && !(zeropad && left)
    requires Mirrored(tmp[..n], digits)
    requires p + |Parts(sign, prefix, zeropad, left, size0, precision, digits)| <= out.Length
    modifies out
    ensures end == p + |Parts(sign, prefix, zeropad, left, size0, precision, digits)|
    ensures out[..end] == old(out[..p]) + Parts(sign, prefix, zeropad, left, size0, precision, digits)
  {
    ghost var x := out[..p];
    ghost var a := if !zeropad && !left then Repeat(' ', size0) else "";
    ghost var d := if zeropad && !left then Repeat('0', size0) else "";
    ghost var e := Repeat('0', precision - n);
    ghost var g := if left then Repeat(' ', size0) else "";
    Concat(x, a, sign, prefix, d, e, digits, g);
    hide Repeat, Parts, Mirrored;
    var size := size0;
    end := p;
    if !zeropad && !left {
      end, size := PadWith(out, end, ' ', size);
    }
    assert out[..end] == x + a;
    end := PutChars(out, end, sign);
    end := PutChars(out, end, prefix);
    if !left {
      if !zeropad {
        NoRepeat(' ', size);
      }
      end, size := PadWith(out, end, if zeropad then '0' else ' ', size);
    }
    assert out[..end] == x + a + sign + prefix + d;
    var rest;
    end, rest := PadWith(out, end, '0', precision - n);
    end := PutReversed(out, end, tmp, n, digits);
    if !left {
      NoRepeat(' ', size);
    }
    end, size := PadWith(out, end, ' ', size);
  }

  lemma NoRepeat(c: char, n: int)
    requires n <= 0
    ensures Repeat(c, n) == ""
  {
  }

  lemma Concat(x: string, a: string, b: string, c: string, d: string, e: string, f: string, g: string)
    ensures x + a + b + c + d + e + f + g == x + (a + b + c + d + e + f + g)
    ensures |a + b + c + d + e + f + g| == |a| + |b| + |c| + |d| + |e| + |f| + |g|
  {
  }

  // ------------------------------------------------------------ simple_strtoul, simple_strtoull

  lemma ModStep(value: nat, base: nat, v: nat, limit: nat)
    requires limit > 0
    ensures (value % limit * base + v) % limit == (value * base + v) % limit
  {
    var q, r := value / limit, value % limit;
    assert value == q * limit + r;
    Expand(q, limit, r, base, v);
    ModPlus(q * base, limit, r * base + v);
  }

  lemma Expand(q: int, limit: int, r: int, base: int, v: int)
    ensures (q * limit + r) * base + v == (q * base) * limit + (r * base + v)
  {
    assert (q * limit + r) * base == (q * limit) * base + r * base;
    assert (q * limit) * base == (q * base) * limit;
  }

  lemma ModPlus(k: int, m: int, x: int)
    requires m > 0
    ensures (k * m + x) % m == x % m
  {
    var y := k * m + x;
    var d := y / m - x / m - k;
    assert y == (y / m) * m + y % m && x == (x / m) * m + x % m;
    assert d * m == x % m - y % m by { assert d * m == (y / m) * m - (x / m) * m - k * m; }
    assert d >= 1 ==> d * m >= m;
    assert d <= -1 ==> d * m <= 0 - m;
  }

  /** simple_strtoul and simple_strtoull, for a result that wraps at `limit`. */
  method StrTo(s: string, base: nat, limit: nat) returns (result: nat, end: nat)
    requires limit > 0
    ensures (result, end) == Parse(s, base, limit)
  {
    hide IsHexDigit, DigitValue;
    var b := base;
    end := 0;
    if At(s, 0) == '0' {
      end := 1;
      if At(s, 1) == 'x' && IsHexDigit(At(s, 2)) {
        NulIsNoDigit();
        b := 16;
        end := 2;
      }
      if b == 0 {
        b := 8;
      }
    }
    if b == 0 {
      b := 10;
    }
    assert (b, end) == Start(s, base);
    result, end := ReadRun(s, end, b, limit);
  }

  lemma NulIsNoDigit()
    ensures !IsHexDigit('\0')
  {
  }

  /** The loop over the digits. */
  method ReadRun(s: string, start: nat, base: nat, limit: nat) returns (result: nat, end: nat)
    requires limit > 0 && start <= |s|
    ensures end == RunEnd(s, start, base) && result == Eval(s[start..end], base) % limit
  {
    NulIsNoDigit();
    hide IsHexDigit, DigitValue;
    result, end := 0, start;
    while IsHexDigit(At(s, end)) && DigitValue(At(s, end)) < base
      invariant start <= end <= |s| && RunEnd(s, end, base) == RunEnd(s, start, base)
      invariant result == Eval(s[start..end], base) % limit
      decreases |s| - end
    {
      var v := DigitValue(At(s, end));
      ModStep(Eval(s[start..end], base), base, v, limit);
      assert s[start..end + 1][..end - start] == s[start..end];
      result := AddDigit(result, base, v, limit);
      end := end + 1;
    }
  }

  function AddDigit(result: nat, base: nat, v: nat, limit: nat): nat
    requires limit > 0
  {
    (result * base + v) % limit
  }
}
