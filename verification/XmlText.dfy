/** What ezxml_decode and ezxml_ampencode (src/components/lib/ezxml/ezxml.c) make of texts that are described by what
    they consist of: characters that a reader of UTF-8 gets back, numerals, lines, and the names of entities. */
module XmlText {
  import opened Seqs
  import opened Arith
  import opened Ezxml

  // ----- a reader of UTF-8

  /** The number of ones in front of the first zero of a byte, among its upper k bits. */
  ghost function LeadingOnes(b: nat, k: nat): nat {
    if k == 0 || b < 0x80 then 0 else 1 + LeadingOnes(b * 2 % 256, k - 1)
  }

  /** The character that a sequence of bytes stands for: the ones that lead the first byte tell the length; its other
      bits and those of the continuation bytes are the character. */
  ghost function ReadChar(bytes: string): Option<int> {
    if bytes == [] || bytes[0] as int >= 256 then None
    else
      var n := LeadingOnes(bytes[0] as int, 8);
      if n == 0 then if |bytes| == 1 then Some(bytes[0] as int) else None
      else if n == 1 || n > 6 || |bytes| != n then None
      else if exists i :: 1 <= i < n && !(0x80 <= bytes[i] as int < 0xC0) then None
      else Some(Assembled(bytes[0] as int % Power(7 - n), bytes[1..]))
  }

  lemma {:induction false} PowerSplit(a: nat, b: nat)
    ensures Power(a + b) == Power(a) * Power(b) && Power(a) > 0
  {
    if a > 0 {
      PowerSplit(a - 1, b);
    }
  }

  lemma {:induction false} OnesOfRange(b: nat, j: nat, k: nat)
    requires j <= 7 && j <= k && 256 - Power(8 - j) <= b < 256 - Power(7 - j)
    ensures LeadingOnes(b, k) == j
  {
    assert Power(8) == 256 && Power(7) == 128;
    PowerSplit(7 - j, 0);
    if j > 0 {
      assert Power(8 - j) == 2 * Power(7 - j);
      PowerUpTo(8 - j, 7);
      assert b * 2 % 256 == b * 2 - 256;
      OnesOfRange(b * 2 - 256, j - 1, k - 1);
    }
  }

  lemma {:induction false} PowerUpTo(a: nat, b: nat)
    requires a <= b
    ensures 0 < Power(a) <= Power(b)
  {
    if a < b {
      PowerUpTo(a, b - 1);
    } else if a > 0 {
      PowerUpTo(a - 1, a - 1);
    }
  }

  /** The first byte of a sequence says how many bytes follow, and keeps its own bits of the character. */
  lemma FirstByte(n: nat, h: nat)
    requires 1 <= n <= 5 && h < Power(6 - n)
    ensures Lead(n) + h < 256 && LeadingOnes(Lead(n) + h, 8) == n + 1 && (Lead(n) + h) % Power(6 - n) == h
  {
    assert Power(1) == 2 && Power(2) == 4 && Power(3) == 8 && Power(4) == 16 && Power(5) == 32 && Power(6) == 64;
    OnesOfRange(Lead(n) + h, n + 1, 8);
  }

  lemma {:induction false} BitsBound(c: nat)
    requires c > 0
    ensures Bits(c) >= 1 && Power(Bits(c) - 1) <= c < Power(Bits(c))
  {
    if c > 1 {
      BitsBound(c / 2);
    }
  }

  lemma {:induction false} ShiftedBound(c: nat, n: nat, k: nat)
    requires c < Power(6 * n + k)
    ensures Shifted(c, n) < Power(k)
  {
    if n > 0 {
      PowerSplit(6, 6 * (n - 1) + k);
      assert Power(6) == 64;
      ShiftedBound(c / 64, n - 1, k);
    }
  }

  /** The number of payload bytes is the least that does. */
  lemma PayloadBytes(c: nat)
    requires 0x80 <= c <= LONG_MAX
    ensures var n := (Bits(c) - 2) / 5; 1 <= n <= 5 && Power(5 * n + 1) <= c < Power(5 * n + 6)
  {
    PowerOf31();
    hide Power;
    hide Bits;
    BitsBound(c);
    BitsRange(c, Bits(c));
    PayloadCount(Bits(c));
    var n := (Bits(c) - 2) / 5;
    PowerUpTo(5 * n + 1, Bits(c) - 1);
    PowerUpTo(Bits(c), 5 * n + 6);
  }

  lemma BitsRange(c: nat, b: nat)
    requires 0x80 <= c <= LONG_MAX && b >= 1 && Power(b - 1) <= c < Power(b)
    ensures 8 <= b <= 31
  {
    PowerOf31();
    if b < 8 {
      PowerUpTo(b, 7);
    }
    if b > 31 {
      PowerUpTo(31, b - 1);
    }
  }

  lemma PayloadCount(b: nat)
    requires 8 <= b <= 31
    ensures var n := (b - 2) / 5; 1 <= n <= 5 && 5 * n + 2 <= b <= 5 * n + 6
  {
  }

  lemma PowerOf31()
    ensures Power(31) == LONG_MAX + 1 && Power(7) == 128
  {
    assert Power(8) == 256 && Power(7) == 128;
    hide Power;
    PowerSplit(8, 8);
    PowerSplit(16, 8);
    PowerSplit(24, 7);
  }

  /** A reader of UTF-8 gets back every character that a reference can stand for, and no sequence is longer than it
      needs to be. */
  lemma CharacterIsRead(c: int)
    requires 0 < c <= LONG_MAX
    ensures ReadChar(CharBytes(c)) == Some(c)
    ensures |CharBytes(c)| == if c < 0x80 then 1 else if c < 0x800 then 2 else if c < 0x1_0000 then 3
                              else if c < 0x20_0000 then 4 else if c < 0x400_0000 then 5 else 6
  {
    if c >= 0x80 {
      hide *;
      SeveralBytes(c);
    }
  }

  lemma SeveralBytes(c: nat)
    requires 0x80 <= c <= LONG_MAX
    ensures ReadChar(CharBytes(c)) == Some(c)
    ensures |CharBytes(c)| == if c < 0x800 then 2 else if c < 0x1_0000 then 3
                              else if c < 0x20_0000 then 4 else if c < 0x400_0000 then 5 else 6
  {
    hide *;
    var n := (Bits(c) - 2) / 5;
    PayloadBytes(c);
    PayloadHoldsCharacter(c, n);
    assert 6 * n + (6 - n) == 5 * n + 6;
    ShiftedBound(c, n, 6 - n);
    FirstByte(n, Shifted(c, n));
    LengthOf(c, n);
    BytesOfSequence(c);
    var b := Lead(n) + Shifted(c, n);
    assert b % 256 == b;
    SequenceIsRead(b, Payload(c, n));
  }

  lemma BytesOfSequence(c: nat)
    requires c >= 0x80
    ensures var n := (Bits(c) - 2) / 5;
            CharBytes(c) == [((Lead(n) + Shifted(c, n)) % 256) as char] + Payload(c, n)
  {
    hide Bits;
    hide Lead;
    hide Shifted;
    hide Payload;
  }

  lemma SequenceIsRead(b: nat, payload: string)
    requires 1 <= |payload| <= 5 && b < 256 && LeadingOnes(b, 8) == |payload| + 1
    requires forall i :: 0 <= i < |payload| ==> 0x80 <= payload[i] as int < 0xC0
    ensures ReadChar([b as char] + payload) == Some(Assembled(b % Power(6 - |payload|), payload))
  {
    hide LeadingOnes;
    hide Power;
    hide Assembled;
    var bytes := [b as char] + payload;
    assert bytes[1..] == payload;
  }

  lemma LengthOf(c: nat, n: nat)
    requires 0x80 <= c && 1 <= n <= 5 && Power(5 * n + 1) <= c < Power(5 * n + 6)
    ensures n + 1 == if c < 0x800 then 2 else if c < 0x1_0000 then 3
                     else if c < 0x20_0000 then 4 else if c < 0x400_0000 then 5 else 6
  {
    assert Power(6) == 0x40 && Power(11) == 0x800;
    PowerSplit(11, 5);
    assert Power(5) == 32 && Power(16) == 0x1_0000;
    PowerSplit(16, 5);
    assert Power(21) == 0x20_0000;
    PowerSplit(21, 5);
    assert Power(26) == 0x400_0000;
  }

  /** A reference to a negative number gives its lowest byte. */
  lemma NegativeReference(c: int)
    requires c < 0
    ensures |CharBytes(c)| == 1 && 0 <= CharBytes(c)[0] as int < 256 && (CharBytes(c)[0] as int - c) % 256 == 0
  {
  }

  // ----- numerals

  /** The character is one of those that stand for white space: codes 9 to 13, and 32. */
  predicate White(c: char) {
    9 <= c as int <= 13 || c as int == 32
  }

  /** The character stands for the digit d. */
  predicate Stands(c: char, d: nat) {
    || (d < 10 && c as int == '0' as int + d)
    || (10 <= d < 36 && (c as int == 'a' as int + d - 10 || c as int == 'A' as int + d - 10))
  }

  predicate Starts(s: string, base: nat) {
    s != [] && exists d: nat :: d < base && Stands(s[0], d)
  }

  function Value(ds: seq<nat>, base: nat): nat {
    if ds == [] then 0 else Value(ds[..|ds| - 1], base) * base + ds[|ds| - 1]
  }

  /** A numeral as strtol takes it: white space, a sign, the prefix of hexadecimal numbers, and digits. */
  datatype Numeral = Numeral(white: string, sign: string, prefix: string, text: string, digits: seq<nat>) {
    function Head(): string {
      white + sign + prefix
    }

    ghost predicate Ok(base: nat) {
      && (forall i :: 0 <= i < |white| ==> White(white[i])) && sign in {"", "+", "-"}
      && (prefix == "" || (base == 16 && prefix in {"0x", "0X"})) && text != [] && |text| == |digits|
      && forall i :: 0 <= i < |digits| ==> digits[i] < base && Stands(text[i], digits[i])
    }

    /** The digits end before `rest`, and are not taken for a prefix. */
    ghost predicate EndsBefore(rest: string, base: nat) {
      && !Starts(rest, base)
      && !(base == 16 && prefix == "" && text == "0" && |rest| > 1 && rest[0] in {'x', 'X'} && Starts(rest[1..], base))
    }

    /** The number, as far as a long can hold it. */
    function Number(base: nat): int {
      var v: int := Value(digits, base);
      if sign == "-" then (if v > 0x8000_0000 then -0x8000_0000 else -v)
      else if v > 0x7FFF_FFFF then 0x7FFF_FFFF else v
    }
  }

  lemma SpaceIsWhite(c: char)
    ensures IsSpace(c) <==> White(c)
  {
  }

  lemma DigitStands(c: char, base: nat)
    requires base <= 36
    ensures DigitValue(c) < base ==> DigitValue(c) >= 0 && Stands(c, DigitValue(c))
    ensures forall d: nat :: d < base && Stands(c, d) ==> DigitValue(c) == d
  {
  }

  lemma {:induction false} SkipsWhite(s: string, i: nat, j: nat)
    requires i <= j <= |s| && (forall k :: i <= k < j ==> White(s[k])) && (j < |s| ==> !White(s[j]))
    ensures SkipSpace(s, i) == j
    decreases j - i
  {
    if i < |s| {
      SpaceIsWhite(s[i]);
      if i < j {
        SkipsWhite(s, i + 1, j);
      }
    }
  }

  lemma {:induction false} DigitsRead(s: string, l: nat, base: nat, ds: seq<nat>, k: nat)
    requires base <= 36 && l + |ds| <= |s| && !Starts(s[l + |ds|..], base) && k <= |ds|
    requires forall i :: 0 <= i < |ds| ==> ds[i] < base && Stands(s[l + i], ds[i])
    ensures Digits(s, l + k, base, Value(ds[..k], base)) == (Value(ds, base), l + |ds|)
    decreases |ds| - k
  {
    if k < |ds| {
      DigitStands(s[l + k], base);
      assert ds[..k + 1][..k] == ds[..k];
      DigitsRead(s, l, base, ds, k + 1);
    } else {
      assert ds[..k] == ds;
      NoDigit(s, l + k, base);
    }
  }

  lemma NoDigit(s: string, i: nat, base: nat)
    requires i <= |s| && base <= 36
    ensures IsDigit(s, i, base) <==> Starts(s[i..], base)
  {
    if i < |s| {
      assert s[i..][0] == s[i];
      DigitStands(s[i], base);
    }
  }

  /** Where the parts of a numeral are. */
  ghost predicate Placed(s: string, i: nat, m: Numeral, rest: string) {
    var j := i + |m.white|;
    var k := j + |m.sign|;
    var l := k + |m.prefix|;
    && |s| == l + |m.text| + |rest| && s[l + |m.text|..] == rest
    && (forall t :: i <= t < j ==> s[t] == m.white[t - i])
    && (forall t :: 0 <= t < |m.sign| ==> s[j + t] == m.sign[t])
    && (forall t :: 0 <= t < |m.prefix| ==> s[k + t] == m.prefix[t])
    && (forall t :: 0 <= t < |m.text| ==> s[l + t] == m.text[t])
  }

  lemma IsPlaced(before: string, m: Numeral, rest: string)
    ensures Placed(before + m.Head() + m.text + rest, |before|, m, rest)
  {
  }

  /** What strtol finds first. */
  lemma SignFound(s: string, i: nat, m: Numeral, rest: string, base: nat)
    requires base <= 16 && m.Ok(base) && Placed(s, i, m, rest)
    ensures var j := i + |m.white|;
            && j < |s| && SkipSpace(s, i) == j && (s[j] == '-' <==> m.sign == "-") && (s[j] == '+' <==> m.sign == "+")
  {
    var j := i + |m.white|;
    assert s[j] == if m.sign != "" then m.sign[0] else if m.prefix != "" then m.prefix[0] else m.text[0];
    assert forall k :: i <= k < j ==> White(s[k]);
    SkipsWhite(s, i, j);
  }

  lemma PrefixFound(s: string, i: nat, m: Numeral, rest: string, base: nat)
    requires base <= 16 && m.Ok(base) && m.EndsBefore(rest, base) && Placed(s, i, m, rest)
    ensures var k := i + |m.white| + |m.sign|;
            var hex := base == 16 && k + 1 < |s| && s[k] == '0' && (s[k + 1] == 'x' || s[k + 1] == 'X');
            && IsDigit(s, k + |m.prefix|, base) && k + |m.prefix| < |s|
            && (hex && IsDigit(s, k + 2, base) <==> m.prefix != "")
  {
    var k := i + |m.white| + |m.sign|;
    var l := k + |m.prefix|;
    assert s[l] == m.text[0];
    DigitStands(s[l], base);
    if m.prefix != "" {
      assert s[k + 0] == m.prefix[0] && s[k + 1] == m.prefix[1];
    }
    assert |m.text| > 1 ==> s[l + 1] == m.text[1] && Stands(m.text[1], m.digits[1]);
    if m.prefix == "" && base == 16 && k + 1 < |s| && s[k] == '0' && (s[k + 1] == 'x' || s[k + 1] == 'X') {
      assert m.text == "0";
      assert s[k + 1..] == rest && s[k + 2..] == rest[1..];
      NoDigit(s, k + 2, base);
    }
  }

  /** strtol reads every numeral, and stops behind it. */
  lemma NumeralIsRead(s: string, i: nat, m: Numeral, rest: string, base: nat)
    requires (base == 10 || base == 16) && m.Ok(base) && m.EndsBefore(rest, base) && Placed(s, i, m, rest)
    ensures StrToL(s, i, base) == (m.Number(base), |s| - |rest|)
  {
    hide *;
    var l := i + |m.white| + |m.sign| + |m.prefix|;
    SignFound(s, i, m, rest, base);
    PrefixFound(s, i, m, rest, base);
    DigitsFound(s, i, m, rest, base);
    HeadFound(s, i, m, rest, base);
    NumberOf(m, base);
    Parts(s, i, base, i + |m.white|, m.sign, l, m.prefix != "", Value(m.digits, base), l + |m.digits|);
  }

  lemma DigitsFound(s: string, i: nat, m: Numeral, rest: string, base: nat)
    requires base <= 16 && m.Ok(base) && m.EndsBefore(rest, base) && Placed(s, i, m, rest)
    ensures var l := i + |m.white| + |m.sign| + |m.prefix|;
            Digits(s, l, base, 0) == (Value(m.digits, base), l + |m.digits|) && l + |m.digits| == |s| - |rest|
  {
    var l := i + |m.white| + |m.sign| + |m.prefix|;
    assert m.digits[..0] == [];
    assert forall t :: 0 <= t < |m.digits| ==> s[l + t] == m.text[t];
    assert s[l + |m.digits|..] == rest;
    hide Placed;
    DigitsRead(s, l, base, m.digits, 0);
  }

  lemma HeadFound(s: string, i: nat, m: Numeral, rest: string, base: nat)
    requires m.Ok(base)
    ensures m.sign in {"", "+", "-"} && |m.prefix| == if m.prefix != "" then 2 else 0
  {
  }

  lemma NumberOf(m: Numeral, base: nat)
    ensures var v := Value(m.digits, base);
            m.Number(base) == if m.sign == "-" then (if v > 0x8000_0000 then -0x8000_0000 else -(v as int))
                              else if v > 0x7FFF_FFFF then 0x7FFF_FFFF else v
  {
  }

  lemma Parts(s: string, i: nat, base: nat, j: nat, sign: string, l: nat, hex: bool, v: nat, e: nat)
    requires SkipSpace(s, i) == j < |s| && sign in {"", "+", "-"}
    requires (s[j] == '-' <==> sign == "-") && (s[j] == '+' <==> sign == "+")
    requires var k := j + |sign|;
             l == (if hex then k + 2 else k)
             && (hex <==> base == 16 && k + 1 < |s| && s[k] == '0' && (s[k + 1] == 'x' || s[k + 1] == 'X')
                          && IsDigit(s, k + 2, base))
    requires IsDigit(s, l, base) && Digits(s, l, base, 0) == (v, e)
    ensures StrToL(s, i, base).1 == e
    ensures StrToL(s, i, base).0 == if sign == "-" then (if v > 0x8000_0000 then -0x8000_0000 else -(v as int))
                                    else if v > 0x7FFF_FFFF then 0x7FFF_FFFF else v
  {
    hide SkipSpace;
    hide IsDigit;
    hide Digits;
    assert |sign| == if s[j] == '-' || s[j] == '+' then 1 else 0;
  }

  /** What is no numeral is no number: nothing is read of it. */
  lemma NoNumeral(s: string, i: nat, white: string, sign: string, rest: string, base: nat)
    requires (base == 10 || base == 16) && (forall t :: 0 <= t < |white| ==> White(white[t])) && sign in {"", "+", "-"}
    requires i <= |s| && s[i..] == white + sign + rest && !Starts(rest, base)
    requires sign == "" && rest != [] ==> !White(rest[0]) && rest[0] !in {'+', '-'}
    ensures StrToL(s, i, base) == (0, i)
  {
    var j := i + |white|;
    var k := j + |sign|;
    assert forall t :: i <= t < |s| ==> s[t] == s[i..][t - i];
    assert s[k..] == rest;
    assert j < |s| ==> s[j] == if sign != "" then sign[0] else rest[0];
    SkipsWhite(s, i, j);
    NoDigit(s, k, base);
    if k < |s| && s[k] == '0' {
      assert Stands(rest[0], 0);
      assert false;
    }
  }

  // ----- references and entities

  /** A reference to a character by its number, in either base, is decoded as the bytes of the character. */
  lemma ReferenceIsDecoded(m: Numeral, hex: bool, rest: string, mode: Mode)
    requires m.Ok(if hex then 16 else 10) && m.Number(if hex then 16 else 10) != 0
    ensures var s := (if hex then "&#x" else "&#") + m.Head() + m.text + ";" + rest;
            Decoded(s, mode) == CharBytes(m.Number(if hex then 16 else 10)) + Decoded(rest, mode)
  {
    hide *;
    var before := if hex then "&#x" else "&#";
    var s := before + m.Head() + m.text + ";" + rest;
    assert s == before + m.Head() + m.text + (";" + rest);
    IsPlaced(before, m, ";" + rest);
    assert s[..2] == "&#" && (hex ==> s[2] == 'x') && |s| > 2;
    ReferenceAt(s, m, hex, rest, mode);
  }

  lemma ReferenceAt(s: string, m: Numeral, hex: bool, rest: string, mode: Mode)
    requires m.Ok(if hex then 16 else 10) && m.Number(if hex then 16 else 10) != 0
    requires Placed(s, if hex then 3 else 2, m, ";" + rest)
    requires |s| > 2 && s[..2] == "&#" && (hex ==> s[2] == 'x')
    ensures Decoded(s, mode) == CharBytes(m.Number(if hex then 16 else 10)) + Decoded(rest, mode)
  {
    var i, base := if hex then 3 else 2, if hex then 16 else 10;
    hide *;
    var e := |s| - |rest| - 1;
    BeforeSemicolon(m, rest, base);
    PlacedEnd(s, i, m, rest);
    NumeralIsRead(s, i, m, ";" + rest, base);
    NumeralStart(s, i, m, ";" + rest, base);
    ReferenceFound(s, hex, m.Number(base), e);
    ReferenceDecoded(s, mode, m.Number(base), e + 1);
  }

  lemma BeforeSemicolon(m: Numeral, rest: string, base: nat)
    ensures base <= 16 ==> m.EndsBefore(";" + rest, base)
  {
  }

  lemma PlacedEnd(s: string, i: nat, m: Numeral, rest: string)
    requires Placed(s, i, m, ";" + rest)
    ensures var e := |s| - |rest| - 1; 0 <= e < |s| && s[e] == ';' && s[e + 1..] == rest
  {
    var e := |s| - |rest| - 1;
    assert s[e..] == ";" + rest;
    assert s[e] == s[e..][0] && s[e + 1..] == s[e..][1..];
  }

  lemma ReferenceFound(s: string, hex: bool, c: int, e: nat)
    requires |s| > 2 && s[..2] == "&#" && (if hex then s[2] == 'x' else s[2] != 'x')
    requires StrToL(s, if hex then 3 else 2, if hex then 16 else 10) == (c, e) && c != 0 && e < |s| && s[e] == ';'
    ensures CharRef(s) == Some((c, e + 1))
  {
    hide StrToL;
  }

  lemma ReferenceDecoded(s: string, mode: Mode, c: int, n: nat)
    requires CharRef(s) == Some((c, n)) && n <= |s|
    ensures Decoded(s, mode) == CharBytes(c) + Decoded(s[n..], mode)
  {
    hide CharRef;
    hide CharBytes;
    assert s != [] by {
      RefNotEmpty(s);
    }
    assert NextPiece(s, mode) == (CharBytes(c), s[n..]);
  }

  lemma RefNotEmpty(s: string)
    requires CharRef(s).Some?
    ensures s != []
  {
  }

  lemma NumeralStart(s: string, i: nat, m: Numeral, rest: string, base: nat)
    requires m.Ok(base) && base <= 16 && Placed(s, i, m, rest)
    ensures i < |s| && s[i] != 'x'
  {
    if m.white != "" {
      assert s[i] == m.white[0] && White(m.white[0]);
    } else if m.sign != "" {
      assert s[i + 0] == m.sign[0];
    } else if m.prefix != "" {
      assert s[i + 0] == m.prefix[0];
    } else {
      assert s[i + 0] == m.text[0] && Stands(m.text[0], m.digits[0]);
    }
  }

  /** A reader of UTF-8 gets back the character that a reference is to. */
  lemma ReferenceIsRead(m: Numeral, hex: bool, rest: string, mode: Mode)
    requires m.Ok(if hex then 16 else 10) && m.Number(if hex then 16 else 10) > 0
    ensures var s := (if hex then "&#x" else "&#") + m.Head() + m.text + ";" + rest;
            exists bytes :: ReadChar(bytes) == Some(m.Number(if hex then 16 else 10))
                            && Decoded(s, mode) == bytes + Decoded(rest, mode)
  {
    hide Decoded;
    hide CharBytes;
    hide ReadChar;
    ReferenceIsDecoded(m, hex, rest, mode);
    CharacterIsRead(m.Number(if hex then 16 else 10));
  }

  /** The default entities stand for the characters that XML says. */
  lemma NamedCharacters(rest: string, mode: Mode)
    ensures Decoded("&lt;" + rest, mode) == "<" + Decoded(rest, mode)
    ensures Decoded("&gt;" + rest, mode) == ">" + Decoded(rest, mode)
    ensures Decoded("&quot;" + rest, mode) == "\"" + Decoded(rest, mode)
    ensures Decoded("&apos;" + rest, mode) == "'" + Decoded(rest, mode)
    ensures Decoded("&amp;" + rest, mode) == "&" + Decoded(rest, mode)
  {
    hide Entity;
    hide NextPiece;
    hide Decoded;
    Named('<', "lt;", "&#60;", rest, mode);
    Named('>', "gt;", "&#62;", rest, mode);
    Named('"', "quot;", "&#34;", rest, mode);
    Named('\'', "apos;", "&#39;", rest, mode);
    Named('&', "amp;", "&#38;", rest, mode);
    assert "&lt;" + rest == "&" + "lt;" + rest && "&gt;" + rest == "&" + "gt;" + rest;
    assert "&quot;" + rest == "&" + "quot;" + rest && "&apos;" + rest == "&" + "apos;" + rest;
    assert "&amp;" + rest == "&" + "amp;" + rest;
  }

  lemma Named(c: char, name: string, val: string, rest: string, mode: Mode)
    requires (c, name, val) in {('<', "lt;", "&#60;"), ('>', "gt;", "&#62;"), ('"', "quot;", "&#34;"),
                                ('\'', "apos;", "&#39;"), ('&', "amp;", "&#38;")}
    ensures Decoded("&" + name + rest, mode) == [c] + Decoded(rest, mode)
  {
    hide Decoded;
    hide NextPiece;
    EntityFound(name, rest);
    hide Entity;
    DecodedNamed(c, name, val, rest, mode);
  }

  /** An ampersand that starts neither a reference nor an entity stays. */
  lemma PlainAmpersand(rest: string, mode: Mode)
    requires CharRef("&" + rest).None?
    requires !("lt;" <= rest) && !("gt;" <= rest) && !("quot;" <= rest) && !("apos;" <= rest) && !("amp;" <= rest)
    ensures Decoded("&" + rest, mode) == "&" + Decoded(rest, mode)
  {
    var s := "&" + rest;
    assert s[1..] == rest;
    assert Entity(rest).None?;
    hide CharRef;
    assert NextPiece(s, mode) == ("&", rest);
  }

  /** Any other character stays, but that every kind of white space is a space in an attribute. */
  lemma PlainCharacter(c: char, rest: string, mode: Mode)
    requires c != '&'
    ensures Decoded([c] + rest, mode) == [if mode.Attribute? && White(c) then ' ' else c] + Decoded(rest, mode)
  {
    SpaceIsWhite(c);
    DecodedPlain(c, rest, mode);
  }

  // ----- lines

  /** The text of lines with their endings, and what follows the last. */
  ghost function Text(lines: seq<string>, ends: seq<string>, tail: string): string
    requires |lines| == |ends|
  {
    if lines == [] then tail else lines[0] + ends[0] + Text(lines[1..], ends[1..], tail)
  }

  ghost predicate NoBreak(s: string) {
    '\r' !in s && '\n' !in s
  }

  /** Every line has an ending; a carriage return is one of its own only if no newline follows it. */
  ghost predicate Lines(lines: seq<string>, ends: seq<string>, tail: string) {
    && |lines| == |ends| && NoBreak(tail)
    && (forall i :: 0 <= i < |lines| ==> NoBreak(lines[i]) && ends[i] in {"\r\n", "\r", "\n"})
    && (forall i :: 0 < i < |lines| && ends[i - 1] == "\r" && lines[i] == "" ==> ends[i] != "\n")
  }

  ghost function Newlines(n: nat): seq<string> {
    seq(n, _ => "\n")
  }

  lemma {:induction false} NormalisedBehind(line: string, rest: string)
    requires NoBreak(line)
    ensures Normalised(line + rest) == line + Normalised(rest)
  {
    if line == [] {
      assert line + rest == rest;
    } else {
      var s := line + rest;
      assert s[0] == line[0] && line[0] in line;
      assert s[1..] == line[1..] + rest;
      NormalisedBehind(line[1..], rest);
      assert line == [line[0]] + line[1..];
    }
  }

  /** Every line ending becomes one newline, and nothing else changes. */
  lemma {:induction false} LinesNormalised(lines: seq<string>, ends: seq<string>, tail: string)
    requires Lines(lines, ends, tail)
    ensures Normalised(Text(lines, ends, tail)) == Text(lines, Newlines(|lines|), tail)
    decreases |lines|
  {
    if lines == [] {
      NormalisedBehind(tail, "");
      assert tail + "" == tail;
    } else {
      hide Normalised;
      var rest := Text(lines[1..], ends[1..], tail);
      assert Lines(lines[1..], ends[1..], tail);
      LinesNormalised(lines[1..], ends[1..], tail);
      assert Newlines(|lines|)[1..] == Newlines(|lines| - 1);
      NormalisedBehind(lines[0], ends[0] + rest);
      assert lines[0] + ends[0] + rest == lines[0] + (ends[0] + rest);
      if ends[0] == "\r" {
        StartOfText(lines, ends, tail);
      }
      EndNormalised(ends[0], rest);
      assert lines[0] + ("\n" + Normalised(rest)) == lines[0] + "\n" + Normalised(rest);
    }
  }

  lemma StartOfText(lines: seq<string>, ends: seq<string>, tail: string)
    requires Lines(lines, ends, tail) && lines != [] && ends[0] == "\r"
    ensures var rest := Text(lines[1..], ends[1..], tail); rest == [] || rest[0] != '\n'
  {
    var rest := Text(lines[1..], ends[1..], tail);
    if |lines| == 1 {
      assert rest == tail;
    } else if lines[1] != "" {
      assert rest[0] == lines[1][0] && lines[1][0] in lines[1];
    } else {
      assert ends[1] != "\n";
      assert rest[0] == ends[1][0];
    }
  }

  lemma EndNormalised(end: string, rest: string)
    requires end in {"\r\n", "\r", "\n"} && (end == "\r" ==> rest == [] || rest[0] != '\n')
    ensures Normalised(end + rest) == "\n" + Normalised(rest)
  {
    var s := end + rest;
    assert s[|end|..] == rest;
  }

  lemma {:induction false} PlainText(s: string)
    requires '&' !in s
    ensures Decoded(s, Mode.Text) == s
  {
    if s != [] {
      assert s[0] in s;
      PlainText(s[1..]);
      DecodedPlain(s[0], s[1..], Mode.Text);
      assert s == [s[0]] + s[1..];
    }
  }

  lemma {:induction false} SameCharacters(lines: seq<string>, ends: seq<string>, tail: string, c: char)
    requires |lines| == |ends| && c != '\n' && c !in Text(lines, ends, tail)
    ensures c !in Text(lines, Newlines(|lines|), tail)
    decreases |lines|
  {
    if lines != [] {
      assert Newlines(|lines|)[1..] == Newlines(|lines| - 1);
      var front := lines[0] + ends[0];
      assert forall x :: x in front ==> x in front + Text(lines[1..], ends[1..], tail);
      assert forall x :: x in lines[0] ==> x in front;
      SameCharacters(lines[1..], ends[1..], tail, c);
    }
  }

  /** Content without references comes out with its lines ended by single newlines. */
  lemma LinesDecoded(lines: seq<string>, ends: seq<string>, tail: string)
    requires Lines(lines, ends, tail) && '&' !in Text(lines, ends, tail)
    ensures Decoded(Normalised(Text(lines, ends, tail)), Mode.Text) == Text(lines, Newlines(|lines|), tail)
  {
    LinesNormalised(lines, ends, tail);
    SameCharacters(lines, ends, tail, '&');
    PlainText(Text(lines, Newlines(|lines|), tail));
  }

  // ----- what encoding leaves

  /** The characters that cannot stand for themselves. */
  predicate Special(c: char, mode: Mode) {
    c in {'&', '<', '>', '\r', '\0'} || (mode.Attribute? && c in {'"', '\n', '\t'})
  }

  /** The text starts with what stands for a special character. */
  ghost predicate StartsEscape(s: string) {
    || "&amp;" <= s || "&lt;" <= s || "&gt;" <= s || "&quot;" <= s || "&#xA;" <= s || "&#x9;" <= s || "&#xD;" <= s
  }

  lemma EscapeShape(c: char, mode: Mode)
    requires c != '\0'
    ensures !Special(c, mode) ==> Escape(c, mode) == [c]
    ensures Special(c, mode) ==> |Escape(c, mode)| > 1 && Escape(c, mode)[0] == '&' && StartsEscape(Escape(c, mode))
    ensures forall i :: 1 <= i < |Escape(c, mode)| ==> !Special(Escape(c, mode)[i], mode)
  {
  }

  /** No special character is left in an encoded text, but for the ampersands that start what stands for one. */
  lemma {:induction false} NothingSpecialLeft(s: string, mode: Mode, i: nat)
    requires i < |Encoded(s, mode)| && Special(Encoded(s, mode)[i], mode)
    ensures Encoded(s, mode)[i] == '&' && StartsEscape(Encoded(s, mode)[i..])
    decreases |s|
  {
    EscapeShape(s[0], mode);
    var e, rest := Escape(s[0], mode), Encoded(s[1..], mode);
    assert Encoded(s, mode) == e + rest;
    if i >= |e| {
      assert (e + rest)[i] == rest[i - |e|] && (e + rest)[i..] == rest[i - |e|..];
      NothingSpecialLeft(s[1..], mode, i - |e|);
    } else {
      assert (e + rest)[i] == e[i];
      assert i == 0;
      assert (e + rest)[0..] == e + rest;
      EscapeStays(e, rest);
    }
  }

  lemma EscapeStays(e: string, rest: string)
    requires StartsEscape(e)
    ensures StartsEscape(e + rest)
  {
  }

  /** A text without special characters is its own encoding. */
  lemma {:induction false} NothingToEncode(s: string, mode: Mode)
    requires forall i :: 0 <= i < |s| ==> !Special(s[i], mode)
    ensures Encoded(s, mode) == s
  {
    if s != [] {
      EscapeShape(s[0], mode);
      NothingToEncode(s[1..], mode);
    }
  }
}
