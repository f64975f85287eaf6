/**
disk/part_efi.c, uuid_string and string_uuid: the text form of a GUID (section 3 of
RFC 4122) and its bytes, whose first three fields are little-endian.
 */
module Uuid {
  import opened BigNum
  import opened NumberText
  import Vsprintf

  datatype Option<T> = None | Some(value: T)

  type Guid = g: seq<byte> | |g| == 16 witness seq(16, i => 0)

  // ------------------------------------------------------------ positions

  /** The byte that is printed i-th: {3, 2, 1, 0, 5, 4, 7, 6, 8, ..., 15}. */
  function Le(i: nat): (k: nat)
    requires i < 16
    ensures k < 16
  {
    if i < 4 then 3 - i else if i < 6 then 9 - i else if i < 8 then 13 - i else i
  }

  /** Where its two digits stand. */
  function Pos(i: nat): (p: nat)
    requires i <= 16
  {
    2 * i + (if i > 3 then 1 else 0) + (if i > 5 then 1 else 0) + (if i > 7 then 1 else 0) + (if i > 9 then 1 else 0)
  }

  predicate IsDash(j: nat) { j == 8 || j == 13 || j == 18 || j == 23 }

  /** The byte whose digits include position j. */
  function IndexAt(j: nat): (i: nat)
    requires j < 36 && !IsDash(j)
    ensures i < 16 && Pos(i) <= j <= Pos(i) + 1
  {
    if j < 8 then j / 2 else if j < 13 then (j - 1) / 2 else if j < 18 then (j - 2) / 2
    else if j < 23 then (j - 3) / 2 else (j - 4) / 2
  }

  // ------------------------------------------------------------ the text form

  function CharOf(g: Guid, j: nat): char
    requires j < 36
  {
    if IsDash(j) then '-'
    else
      var i := IndexAt(j);
      var b := g[Le(i)];
      if j == Pos(i) then Digit(b / 16, true) else Digit(b % 16, true)
  }

  /** xxxxxxxx-xxxx-xxxx-xxxx-xxxxxxxxxxxx in lower case. */
  function TextOf(g: Guid): (s: string)
    ensures |s| == 36
  {
    seq(36, j requires 0 <= j < 36 => CharOf(g, j))
  }

  /** "%02x". */
  function HexByte(b: byte): string { [Digit(b / 16, true), Digit(b % 16, true)] }

  const HEX2: Flags := Flags(true, false, false, false, false, true, false)

  lemma HexByteIsField(b: byte)
    ensures Field(b, 16, 2, -1, HEX2) == HexByte(b)
  {
    var t := Text(b, 16, true);
    if b < 16 {
      assert t == [Digit(b, true)];
      assert Repeat('0', 1) == "0" && Repeat('0', 0) == "" && Digit(0, true) == '0';
    } else {
      assert Text(b / 16, 16, true) == [Digit(b / 16, true)];
      assert t == [Digit(b / 16, true)] + [Digit(b % 16, true)];
      assert Repeat('0', 0) == "";
    }
  }

  /** uuid_string. */
  method UuidString(uuid: Guid) returns (str: string)
    ensures str == TextOf(uuid)
  {
    hide Digit, Field;
    str := "";
    var i := 0;
    while i < 16
      invariant 0 <= i <= 16 && |str| == Pos(i) && str == TextOf(uuid)[..Pos(i)]
    {
      HexByteIsField(uuid[Le(i)]);
      TextStep(uuid, i);
      str := str + Field(uuid[Le(i)], 16, 2, -1, HEX2);
      if i == 3 || i == 5 || i == 7 || i == 9 {
        str := str + "-";
      }
      i := i + 1;
    }
  }

  /** What follows byte i. */
  function Dash(i: nat): string { if i == 3 || i == 5 || i == 7 || i == 9 then "-" else "" }

  lemma TextStep(g: Guid, i: nat)
    requires i < 16
    ensures Pos(i + 1) == Pos(i) + 2 + |Dash(i)| <= 36
    ensures TextOf(g)[..Pos(i + 1)] == TextOf(g)[..Pos(i)] + HexByte(g[Le(i)]) + Dash(i)
  {
    hide Digit;
    var p := Pos(i);
    var t := TextOf(g);
    assert !IsDash(p) && !IsDash(p + 1) && IndexAt(p) == i && IndexAt(p + 1) == i;
    assert t[..p + 2] == t[..p] + [t[p], t[p + 1]];
    if i == 3 || i == 5 || i == 7 || i == 9 {
      assert t[p + 2] == '-';
      assert t[..p + 3] == t[..p + 2] + [t[p + 2]];
    }
  }

  /** From position p on the text has the digits of these bytes. */
  predicate HasGroup(t: string, p: nat, bytes: seq<byte>)
  {
    p + 2 * |bytes| <= |t| && forall i :: 0 <= i < |bytes| ==> [t[p + 2 * i], t[p + 2 * i + 1]] == HexByte(bytes[i])
  }

  lemma ByteSpelled(g: Guid, i: nat)
    requires i < 16
    ensures var p, t := Pos(i), TextOf(g); p + 2 <= 36 && [t[p], t[p + 1]] == HexByte(g[Le(i)])
  {
    hide Digit;
    var p := Pos(i);
    assert !IsDash(p) && !IsDash(p + 1) && IndexAt(p) == i && IndexAt(p + 1) == i;
  }

  /** The bytes printed i-th and so on stand from position p on. */
  lemma GroupSpelled(g: Guid, i: nat, p: nat, bytes: seq<byte>)
    requires i + |bytes| <= 16 && p + 2 * |bytes| <= 36
    requires forall k :: 0 <= k < |bytes| ==> Pos(i + k) == p + 2 * k && bytes[k] == g[Le(i + k)]
    ensures HasGroup(TextOf(g), p, bytes)
  {
    hide HexByte, TextOf;
    forall k | 0 <= k < |bytes|
      ensures [TextOf(g)[p + 2 * k], TextOf(g)[p + 2 * k + 1]] == HexByte(bytes[k])
    {
      ByteSpelled(g, i + k);
    }
  }

  /** The text group by group: three fields backwards, then two in order. */
  lemma TextSpelled(g: Guid)
    ensures var t := TextOf(g);
            && HasGroup(t, 0, [g[3], g[2], g[1], g[0]]) && HasGroup(t, 9, [g[5], g[4]])
            && HasGroup(t, 14, [g[7], g[6]]) && HasGroup(t, 19, [g[8], g[9]]) && HasGroup(t, 24, g[10..16])
            && t[8] == t[13] == t[18] == t[23] == '-'
  {
    Dashes(g);
    hide TextOf, HasGroup;
    FrontSpelled(g);
    BackSpelled(g);
  }

  lemma Dashes(g: Guid)
    ensures TextOf(g)[8] == TextOf(g)[13] == TextOf(g)[18] == TextOf(g)[23] == '-'
  {
  }

  lemma FrontSpelled(g: Guid)
    ensures var t := TextOf(g);
            HasGroup(t, 0, [g[3], g[2], g[1], g[0]]) && HasGroup(t, 9, [g[5], g[4]]) && HasGroup(t, 14, [g[7], g[6]])
  {
    hide TextOf, HasGroup;
    GroupSpelled(g, 0, 0, [g[3], g[2], g[1], g[0]]);
    GroupSpelled(g, 4, 9, [g[5], g[4]]);
    GroupSpelled(g, 6, 14, [g[7], g[6]]);
  }

  lemma BackSpelled(g: Guid)
    ensures HasGroup(TextOf(g), 19, [g[8], g[9]]) && HasGroup(TextOf(g), 24, g[10..16])
  {
    hide TextOf, HasGroup;
    GroupSpelled(g, 8, 19, [g[8], g[9]]);
    GroupSpelled(g, 10, 24, g[10..16]);
  }

  // ------------------------------------------------------------ parsing

  /** Thirty-two hexadecimal digits in five groups. */
  predicate IsUuid(t: string)
  {
    |t| == 36 && forall j :: 0 <= j < 36 ==> if IsDash(j) then t[j] == '-' else IsHexDigit(t[j])
  }

  /** The byte written at position p. */
  function PairAt(t: string, p: nat): byte
    requires p + 1 < |t|
  {
    16 * DigitValue(t[p]) + DigitValue(t[p + 1])
  }

  function BytesOf(t: string): Guid
    requires |t| == 36
  {
    seq(16, k requires 0 <= k < 16 => PairAt(t, Pos(Le(k))))
  }

  /** The n bytes written from position p on. */
  function Pairs(t: string, p: nat, n: nat): (b: seq<byte>)
    requires p + 2 * n <= |t|
    ensures |b| == n
  {
    seq(n, i requires 0 <= i < n => PairAt(t, p + 2 * i))
  }

  lemma {:induction false} EvalPairs(t: string, n: nat)
    requires |t| == 2 * n
    ensures Eval(t, 16) == BytesValue(Pairs(t, 0, n))
  {
    hide DigitValue;
    if n != 0 {
      var u := t[..2 * n - 2];
      EvalPairs(u, n - 1);
      assert Pairs(t, 0, n)[..n - 1] == Pairs(u, 0, n - 1);
      assert t[..2 * n - 1][..2 * n - 2] == u;
      assert Eval(t, 16) == (Eval(u, 16) * 16 + DigitValue(t[2 * n - 2])) * 16 + DigitValue(t[2 * n - 1]);
    }
  }

  lemma {:induction false} BytesBound(s: seq<byte>)
    ensures BytesValue(s) < Power(256, |s|)
  {
    if s != [] {
      BytesBound(s[..|s| - 1]);
    }
  }

  lemma {:induction false} RunTo(t: string, i: nat, m: nat)
    requires i <= m <= |t| && (m < |t| ==> t[m] == '-')
    requires forall j :: i <= j < m ==> IsHexDigit(t[j])
    ensures RunEnd(t, i, 16) == m
    decreases m - i
  {
    if i < m {
      RunTo(t, i + 1, m);
    }
  }

  /** A group of 2n digits up to a dash or the end is parsed as its n bytes. */
  lemma ParseGroup(t: string, n: nat, limit: nat)
    requires n >= 1 && 2 * n <= |t| && (2 * n < |t| ==> t[2 * n] == '-')
    requires forall j :: 0 <= j < 2 * n ==> IsHexDigit(t[j])
    requires Power(256, n) <= limit
    ensures limit > 0 && Parse(t, 16, limit).0 == BytesValue(Pairs(t, 0, n))
  {
    var g := t[..2 * n];
    EvalPairs(g, n);
    assert Pairs(g, 0, n) == Pairs(t, 0, n);
    BytesBound(Pairs(t, 0, n));
    SmallMod(Eval(g, 16), limit);
    assert t[1] != 'x';
    hide Eval, IsHexDigit, DigitValue;
    if t[0] == '0' {
      RunTo(t, 1, 2 * n);
      SkipZero(g, 16);
      assert t[1..2 * n] == g[1..];
    } else {
      RunTo(t, 0, 2 * n);
      assert t[0..2 * n] == g;
    }
  }

  /** EFI_GUID: a, b and c least significant byte first, d and e most significant first. */
  function EfiGuid(a: nat, b: nat, c: nat, d: nat, e: nat): Guid
  {
    [ShiftBytes(a, 0) % 256, ShiftBytes(a, 1) % 256, ShiftBytes(a, 2) % 256, ShiftBytes(a, 3) % 256,
     ShiftBytes(b, 0) % 256, ShiftBytes(b, 1) % 256, ShiftBytes(c, 0) % 256, ShiftBytes(c, 1) % 256,
     ShiftBytes(d, 1) % 256, ShiftBytes(d, 0) % 256,
     ShiftBytes(e, 5) % 256, ShiftBytes(e, 4) % 256, ShiftBytes(e, 3) % 256,
     ShiftBytes(e, 2) % 256, ShiftBytes(e, 1) % 256, ShiftBytes(e, 0) % 256]
  }

  lemma Powers()
    ensures Power(256, 2) == 0x1_0000 && Power(256, 4) == 0x1_0000_0000 && Power(256, 6) == 0x1_0000_0000_0000
  {
    assert Power(256, 1) == 256;
    assert Power(256, 3) == 0x100_0000;
    assert Power(256, 5) == 0x100_0000_0000;
  }

  /** The value of the n bytes at position p, read as the parser does from there on. */
  lemma GroupAt(t: string, p: nat, n: nat, limit: nat)
    requires IsUuid(t) && n >= 1 && p + 2 * n <= 36 && (p + 2 * n < 36 ==> t[p + 2 * n] == '-')
    requires forall j :: p <= j < p + 2 * n ==> !IsDash(j)
    requires Power(256, n) <= limit
    ensures limit > 0 && Parse(t[p..], 16, limit).0 == BytesValue(Pairs(t, p, n))
  {
    hide IsHexDigit, DigitValue, Parse, BytesValue, Power, PairAt;
    var u := t[p..];
    forall j | 0 <= j < 2 * n
      ensures IsHexDigit(u[j])
    {
      assert u[j] == t[p + j] && !IsDash(p + j);
    }
    SamePairs(t, p, n);
    ParseGroup(u, n, limit);
  }

  lemma SamePairs(t: string, p: nat, n: nat)
    requires p + 2 * n <= |t|
    ensures Pairs(t[p..], 0, n) == Pairs(t, p, n)
  {
    var u := t[p..];
    forall i | 0 <= i < n
      ensures PairAt(u, 2 * i) == PairAt(t, p + 2 * i)
    {
      assert u[2 * i] == t[p + 2 * i] && u[2 * i + 1] == t[p + 2 * i + 1];
    }
  }

  lemma GroupBytes(t: string, p: nat, n: nat, k: nat)
    requires p + 2 * n <= |t| && k < n
    ensures ShiftBytes(BytesValue(Pairs(t, p, n)), k) % 256 == PairAt(t, p + 2 * (n - 1 - k))
  {
    hide PairAt;
    ShiftedByte(Pairs(t, p, n), k);
  }

  lemma GroupsAreBytes(t: string)
    requires |t| == 36
    ensures EfiGuid(BytesValue(Pairs(t, 0, 4)), BytesValue(Pairs(t, 9, 2)), BytesValue(Pairs(t, 14, 2)),
                    BytesValue(Pairs(t, 19, 2)), BytesValue(Pairs(t, 24, 6))) == BytesOf(t)
  {
    hide PairAt, ShiftBytes, BytesValue, Pairs;
    GroupBytes(t, 0, 4, 0);
    GroupBytes(t, 0, 4, 1);
    GroupBytes(t, 0, 4, 2);
    GroupBytes(t, 0, 4, 3);
    GroupBytes(t, 9, 2, 0);
    GroupBytes(t, 9, 2, 1);
    GroupBytes(t, 14, 2, 0);
    GroupBytes(t, 14, 2, 1);
    GroupBytes(t, 19, 2, 0);
    GroupBytes(t, 19, 2, 1);
    GroupBytes(t, 24, 6, 0);
    GroupBytes(t, 24, 6, 1);
    GroupBytes(t, 24, 6, 2);
    GroupBytes(t, 24, 6, 3);
    GroupBytes(t, 24, 6, 4);
    GroupBytes(t, 24, 6, 5);
  }

  /** The fields of the GUID are the numbers in the text: three least significant byte first, two most
      significant byte first. */
  lemma FieldsAreNumbers(t: string)
    requires |t| == 36
    ensures var g := BytesOf(t);
            && BytesValue([g[3], g[2], g[1], g[0]]) == Eval(t[0..8], 16)
            && BytesValue([g[5], g[4]]) == Eval(t[9..13], 16) && BytesValue([g[7], g[6]]) == Eval(t[14..18], 16)
            && BytesValue(g[8..10]) == Eval(t[19..23], 16) && BytesValue(g[10..16]) == Eval(t[24..36], 16)
  {
    hide PairAt, Eval, BytesValue;
    var g := BytesOf(t);
    GroupNumber(t, 0, 4, [g[3], g[2], g[1], g[0]]);
    GroupNumber(t, 9, 2, [g[5], g[4]]);
    GroupNumber(t, 14, 2, [g[7], g[6]]);
    GroupNumber(t, 19, 2, g[8..10]);
    GroupNumber(t, 24, 6, g[10..16]);
  }

  lemma GroupNumber(t: string, p: nat, n: nat, bytes: seq<byte>)
    requires p + 2 * n <= |t| && |bytes| == n
    requires forall i :: 0 <= i < n ==> bytes[i] == PairAt(t, p + 2 * i)
    ensures BytesValue(bytes) == Eval(t[p..p + 2 * n], 16)
  {
    hide PairAt, Eval, BytesValue;
    var u := t[p..p + 2 * n];
    EvalPairs(u, n);
    forall i | 0 <= i < n
      ensures PairAt(u, 2 * i) == PairAt(t, p + 2 * i)
    {
      assert u[2 * i] == t[p + 2 * i] && u[2 * i + 1] == t[p + 2 * i + 1];
      SamePair(u, 2 * i, t, p + 2 * i);
    }
    assert Pairs(u, 0, n) == bytes;
  }

  lemma SamePair(u: string, i: nat, t: string, j: nat)
    requires i + 1 < |u| && j + 1 < |t| && u[i] == t[j] && u[i + 1] == t[j + 1]
    ensures PairAt(u, i) == PairAt(t, j)
  {
  }

  /** n hexadecimal digits. */
  predicate IsGroup(s: string, n: nat)
  {
    |s| == n && forall i :: 0 <= i < n ==> '0' <= s[i] <= '9' || 'A' <= s[i] <= 'F' || 'a' <= s[i] <= 'f'
  }

  /** Accepted are the five groups of 8, 4, 4, 4 and 12 digits joined by dashes, and nothing else. */
  lemma AcceptedTexts(t: string)
    ensures IsUuid(t) <==>
      exists a, b, c, d, e ::
        && IsGroup(a, 8) && IsGroup(b, 4) && IsGroup(c, 4) && IsGroup(d, 4) && IsGroup(e, 12)
        && t == a + "-" + b + "-" + c + "-" + d + "-" + e
  {
    if IsUuid(t) {
      var a, b, c, d, e := t[0..8], t[9..13], t[14..18], t[19..23], t[24..36];
      assert IsGroup(a, 8) && IsGroup(b, 4) && IsGroup(c, 4) && IsGroup(d, 4) && IsGroup(e, 12);
      assert t == a + "-" + b + "-" + c + "-" + d + "-" + e;
    }
    forall a, b, c, d, e | IsGroup(a, 8) && IsGroup(b, 4) && IsGroup(c, 4) && IsGroup(d, 4) && IsGroup(e, 12)
                           && t == a + "-" + b + "-" + c + "-" + d + "-" + e
      ensures IsUuid(t)
    {
      assert forall j :: 0 <= j < 8 ==> t[j] == a[j];
      assert forall j :: 9 <= j < 13 ==> t[j] == b[j - 9];
      assert forall j :: 14 <= j < 18 ==> t[j] == c[j - 14];
      assert forall j :: 19 <= j < 23 ==> t[j] == d[j - 19];
      assert forall j :: 24 <= j < 36 ==> t[j] == e[j - 24];
    }
  }

  /** string_uuid. */
  method StringUuid(uuid: string) returns (r: Option<Guid>)
    ensures r == if IsUuid(uuid) then Some(BytesOf(uuid)) else None
  {
    hide IsHexDigit, Parse, BytesValue, Pairs, EfiGuid, BytesOf, Power;
    if |uuid| != 36 {
      return None;
    }
    var i := 0;
    while i < 36
      invariant 0 <= i <= 36
      invariant forall j :: 0 <= j < i ==> if IsDash(j) then uuid[j] == '-' else IsHexDigit(uuid[j])
    {
      if i == 8 || i == 13 || i == 18 || i == 23 {
        if uuid[i] != '-' {
          return None;
        }
      } else {
        if !IsHexDigit(uuid[i]) {
          return None;
        }
      }
      i := i + 1;
    }
    Powers();
    var a, e1 := Vsprintf.StrTo(uuid[0..], 16, 0x1_0000_0000);
    var b, e2 := Vsprintf.StrTo(uuid[9..], 16, 0x1_0000_0000);
    var c, e3 := Vsprintf.StrTo(uuid[14..], 16, 0x1_0000_0000);
    var d, e4 := Vsprintf.StrTo(uuid[19..], 16, 0x1_0000_0000);
    var e, e5 := Vsprintf.StrTo(uuid[24..], 16, TWO64);
    GroupAt(uuid, 0, 4, 0x1_0000_0000);
    GroupAt(uuid, 9, 2, 0x1_0000_0000);
    GroupAt(uuid, 14, 2, 0x1_0000_0000);
    GroupAt(uuid, 19, 2, 0x1_0000_0000);
    GroupAt(uuid, 24, 6, TWO64);
    GroupsAreBytes(uuid);
    return Some(EfiGuid(a, b, c, d, e));
  }

  // ------------------------------------------------------------ round trips

  lemma DigitOfValue(c: char)
    requires IsHexDigit(c)
    ensures Digit(DigitValue(c), true) == Lower(c)
  {
  }

  lemma LeTwice(i: nat)
    requires i < 16
    ensures Le(Le(i)) == i
  {
  }

  /** Printing a GUID and parsing the text gives the GUID back. */
  lemma PrintThenParse(g: Guid)
    ensures IsUuid(TextOf(g)) && BytesOf(TextOf(g)) == g
  {
    var t := TextOf(g);
    forall j | 0 <= j < 36
      ensures if IsDash(j) then t[j] == '-' else IsHexDigit(t[j])
    {
      if !IsDash(j) {
        var b := g[Le(IndexAt(j))];
        DigitBack(b / 16, true);
        DigitBack(b % 16, true);
      }
    }
    forall k | 0 <= k < 16
      ensures BytesOf(t)[k] == g[k]
    {
      hide Digit, DigitValue;
      LeTwice(k);
      var p := Pos(Le(k));
      assert !IsDash(p) && !IsDash(p + 1) && IndexAt(p) == Le(k) && IndexAt(p + 1) == Le(k);
      DigitBack(g[k] / 16, true);
      DigitBack(g[k] % 16, true);
    }
  }

  /** Parsing an accepted text and printing the GUID gives the text in lower case. */
  lemma ParseThenPrint(t: string)
    requires IsUuid(t)
    ensures TextOf(BytesOf(t)) == LowerText(t)
  {
    forall j | 0 <= j < 36
      ensures CharOf(BytesOf(t), j) == Lower(t[j])
    {
      if !IsDash(j) {
        var i := IndexAt(j);
        LeTwice(i);
        PairDigits(t, Pos(i));
      }
    }
  }

  lemma PairDigits(t: string, p: nat)
    requires p + 1 < |t| && IsHexDigit(t[p]) && IsHexDigit(t[p + 1])
    ensures Digit(PairAt(t, p) / 16, true) == Lower(t[p]) && Digit(PairAt(t, p) % 16, true) == Lower(t[p + 1])
  {
    DigitOfValue(t[p]);
    DigitOfValue(t[p + 1]);
  }
}
