/** Escaping and unescaping of character data in src/components/lib/ezxml/ezxml.c, with its default entities. */
module Ezxml {
  import opened Seqs

  /** The two uses of ezxml_decode that undo ezxml_ampencode: character content ('&') and attributes (' '). */
  datatype Mode = Text | Attribute

  predicate IsSpace(c: char) {
    c == ' ' || c == '\t' || c == '\n' || c == '\U{b}' || c == '\U{c}' || c == '\r'
  }

  // ----- encoding

  /** What ezxml_ampencode appends for a character. */
  function Escape(c: char, mode: Mode): string {
    if c == '&' then "&amp;"
    else if c == '<' then "&lt;"
    else if c == '>' then "&gt;"
    else if c == '"' then if mode.Attribute? then "&quot;" else "\""
    else if c == '\n' then if mode.Attribute? then "&#xA;" else "\n"
    else if c == '\t' then if mode.Attribute? then "&#x9;" else "\t"
    else if c == '\r' then "&#xD;"
    else [c]
  }

  function Encoded(s: string, mode: Mode): string {
    if s == [] || s[0] == '\0' then [] else Escape(s[0], mode) + Encoded(s[1..], mode)
  }

  /** ezxml_ampencode, appending to dst. */
  method Ampencode(s: string, dst: string, mode: Mode) returns (r: string)
    ensures r == dst + Encoded(s, mode)
  {
    r := dst;
    var i := 0;
    while i != |s|
      invariant 0 <= i <= |s| && r + Encoded(s[i..], mode) == dst + Encoded(s, mode)
      decreases |s| - i
    {
      if s[i] == '\0' {
        return;
      }
      assert s[i..][1..] == s[i + 1..];
      r := r + Escape(s[i], mode);
      i := i + 1;
    }
  }

  // ----- numbers, as strtol reads them

  const LONG_MAX: int := 0x7FFF_FFFF

  function DigitValue(c: char): int {
    if '0' <= c <= '9' then c as int - '0' as int
    else if 'a' <= c <= 'z' then c as int - 'a' as int + 10
    else if 'A' <= c <= 'Z' then c as int - 'A' as int + 10
    else 99
  }

  predicate IsDigit(s: string, i: nat, base: int) {
    i < |s| && DigitValue(s[i]) < base
  }

  function SkipSpace(s: string, i: nat): (r: nat)
    ensures r >= i
    decreases |s| - i
  {
    if i < |s| && IsSpace(s[i]) then SkipSpace(s, i + 1) else i
  }

  /** The digits from position i on: the value, with `acc` in front, and the position behind. */
  function Digits(s: string, i: nat, base: nat, acc: int): (r: (int, nat))
    ensures r.1 >= i
    decreases |s| - i
  {
    if IsDigit(s, i, base) then Digits(s, i + 1, base, acc * base + DigitValue(s[i])) else (acc, i)
  }

  /** strtol from position i on: the value, and the position behind the number. */
  function StrToL(s: string, i: nat, base: nat): (int, nat) {
    var j := SkipSpace(s, i);
    var neg := j < |s| && s[j] == '-';
    var k := if j < |s| && (s[j] == '-' || s[j] == '+') then j + 1 else j;
    var hex := base == 16 && k + 1 < |s| && s[k] == '0' && (s[k + 1] == 'x' || s[k + 1] == 'X');
    var l := if hex && IsDigit(s, k + 2, base) then k + 2 else k;
    if !IsDigit(s, l, base) then (0, i)
    else
      var (v, e) := Digits(s, l, base, 0);
      (if neg then (if v > LONG_MAX + 1 then -LONG_MAX - 1 else -v) else if v > LONG_MAX then LONG_MAX else v, e)
  }

  // ----- decoding

  predicate StartsWith(s: string, p: string) {
    |p| <= |s| && s[..|p|] == p
  }

  /** A character reference at the start of the text: the character, and the length of the reference. */
  function CharRef(s: string): (r: Option<(int, nat)>)
    ensures r.Some? ==> 0 < r.value.1 <= |s|
  {
    if !StartsWith(s, "&#") then None
    else
      var (c, e) := if |s| > 2 && s[2] == 'x' then StrToL(s, 3, 16) else StrToL(s, 2, 10);
      if c != 0 && e < |s| && s[e] == ';' then Some((c, e + 1)) else None
  }

  function Bits(c: nat): (r: nat)
    ensures c >= 1 ==> r >= 1
    ensures c >= 2 ==> r >= 2
  {
    if c == 0 then 0 else 1 + Bits(c / 2)
  }

  /** The upper bits of the first byte of a sequence with n more bytes. */
  function Lead(n: nat): nat {
    if n == 1 then 0xC0 else if n == 2 then 0xE0 else if n == 3 then 0xF0 else if n == 4 then 0xF8 else 0xFC
  }

  /** c without its lowest 6 * n bits. */
  function Shifted(c: nat, n: nat): nat {
    if n == 0 then c else Shifted(c / 64, n - 1)
  }

  /** The n payload bytes of a multi-byte sequence. */
  function Payload(c: nat, n: nat): string {
    if n == 0 then [] else Payload(c / 64, n - 1) + [(0x80 + c % 64) as char]
  }

  /** The bytes of a character: itself below 0x80, a multi-byte sequence from there on. */
  function CharBytes(c: int): string {
    if c < 0x80 then [(c % 256) as char]
    else
      var n := (Bits(c) - 2) / 5;
      [((Lead(n) + Shifted(c, n)) % 256) as char] + Payload(c, n)
  }

  /** The number that the upper bits h and the payload bytes stand for. */
  function Assembled(h: nat, bytes: string): int {
    if bytes == [] then h else Assembled(h, bytes[..|bytes| - 1]) * 64 + bytes[|bytes| - 1] as int - 0x80
  }

  /** The bytes of a sequence hold the whole character. */
  lemma {:induction false} PayloadHoldsCharacter(c: nat, n: nat)
    ensures Assembled(Shifted(c, n), Payload(c, n)) == c && |Payload(c, n)| == n
    ensures forall i :: 0 <= i < n ==> 0x80 <= Payload(c, n)[i] as int < 0xC0
  {
    if n > 0 {
      PayloadHoldsCharacter(c / 64, n - 1);
      var p := Payload(c, n);
      assert p[..n - 1] == Payload(c / 64, n - 1);
    }
  }

  // ----- a character takes no more room than its reference

  lemma {:induction false} BitsMonotone(a: nat, b: nat)
    requires a <= b
    ensures Bits(a) <= Bits(b)
  {
    if a > 0 {
      BitsMonotone(a / 2, b / 2);
    }
  }

  lemma OneBitMore(a: nat)
    ensures Bits(2 * a + 1) == 1 + Bits(a)
  {
    assert (2 * a + 1) / 2 == a;
  }

  lemma DigitBound(a: nat, base: nat, d: nat)
    requires d < base <= 16
    ensures 0 <= a * base + d <= 16 * a + 15
  {
    assert a * base <= a * 16;
  }

  lemma FourBitsMore(a: nat)
    ensures Bits(16 * a + 15) == 4 + Bits(a)
  {
    hide Bits;
    var a1 := 2 * a + 1;
    var a2 := 2 * a1 + 1;
    var a3 := 2 * a2 + 1;
    OneBitMore(a);
    OneBitMore(a1);
    OneBitMore(a2);
    OneBitMore(a3);
    assert 2 * a3 + 1 == 16 * a + 15;
  }

  lemma BitsOfDigit(a: nat, base: nat, d: nat)
    requires d < base <= 16
    ensures a * base + d >= 0 && Bits(a * base + d) <= Bits(a) + 4
  {
    hide Bits;
    DigitBound(a, base, d);
    FourBitsMore(a);
    BitsMonotone(a * base + d, 16 * a + 15);
  }

  /** A digit stands for at most four bits. */
  lemma {:induction false} BitsOfDigits(s: string, i: nat, base: nat, acc: nat)
    requires base <= 16
    ensures var (v, e) := Digits(s, i, base, acc); v >= 0 && Bits(v) <= Bits(acc) + 4 * (e - i)
    decreases |s| - i
  {
    if IsDigit(s, i, base) {
      var a := acc * base + DigitValue(s[i]);
      BitsOfDigit(acc, base, DigitValue(s[i]));
      BitsOfDigits(s, i + 1, base, a);
    }
  }

  lemma BitsOfNumber(s: string, i: nat, base: nat)
    requires base <= 16
    ensures var (c, e) := StrToL(s, i, base); c >= 0 ==> e >= i && Bits(c) <= 4 * (e - i)
  {
    hide Bits;
    var j := SkipSpace(s, i);
    var k := if j < |s| && (s[j] == '-' || s[j] == '+') then j + 1 else j;
    var hex := base == 16 && k + 1 < |s| && s[k] == '0' && (s[k + 1] == 'x' || s[k + 1] == 'X');
    var l := if hex && IsDigit(s, k + 2, base) then k + 2 else k;
    BitsOfZero();
    BitsOfDigits(s, l, base, 0);
    var (v, e) := Digits(s, l, base, 0);
    if v > LONG_MAX {
      BitsMonotone(LONG_MAX, v);
    }
  }

  lemma BitsOfZero()
    ensures Bits(0) == 0
  {
  }

  /** The bytes of a character leave the semicolon of its reference, which is looked for behind them, untouched. */
  lemma RoomForCharacter(s: string)
    requires CharRef(s).Some?
    ensures var (c, n) := CharRef(s).value; |CharBytes(c)| < n && s[n - 1] == ';'
  {
    BitsOfNumber(s, 3, 16);
    BitsOfNumber(s, 2, 10);
    hide StrToL;
    hide Bits;
    var (c, n) := CharRef(s).value;
    assert n >= 4 && s[n - 1] == ';';
    assert c >= 0 ==> Bits(c) <= 4 * (n - 3);
    hide CharRef;
    BytesOf(c, n - 1);
  }

  lemma BytesOf(c: int, n: nat)
    requires n >= 1 && (c >= 0 ==> Bits(c) <= 4 * n)
    ensures |CharBytes(c)| <= n
  {
    hide Bits;
    hide Lead;
    hide Shifted;
    hide Payload;
    if c >= 0x80 {
      PayloadHoldsCharacter(c, (Bits(c) - 2) / 5);
    }
  }

  /** The default entities and what they stand for. */
  function Entity(s: string): Option<(string, string)> {
    if StartsWith(s, "lt;") then Some(("lt;", "&#60;"))
    else if StartsWith(s, "gt;") then Some(("gt;", "&#62;"))
    else if StartsWith(s, "quot;") then Some(("quot;", "&#34;"))
    else if StartsWith(s, "apos;") then Some(("apos;", "&#39;"))
    else if StartsWith(s, "amp;") then Some(("amp;", "&#38;"))
    else None
  }

  /** The number of ampersands that start no character reference. */
  function Ampersands(s: string): nat {
    if s == [] then 0
    else Ampersands(s[1..]) + if s[0] == '&' && !(|s| > 1 && s[1] == '#') then 1 else 0
  }

  lemma {:induction false} AmpersandsBehind(s: string, k: nat)
    requires k <= |s|
    ensures Ampersands(s[k..]) <= Ampersands(s)
  {
    if k > 0 {
      AmpersandsBehind(s[1..], k - 1);
      assert s[1..][k - 1..] == s[k..];
    } else {
      assert s[0..] == s;
    }
  }

  /** An entity starts with a letter, and stands for a character reference of two digits. */
  lemma EntityShape(s: string)
    requires Entity(s).Some?
    ensures var (name, val) := Entity(s).value;
            && StartsWith(s, name) && |name| > 0 && name[0] != '#' && |s| > 0 && s[0] == name[0]
            && |val| == 5 && val[0] == '&' && val[1] == '#' && val[2] != '&' && val[3] != '&' && val[4] == ';'
  {
    var (name, val) := Entity(s).value;
    assert s[0] == s[..|name|][0];
  }

  /** Replacing an entity leaves fewer of them. */
  lemma EntityReplaced(s: string)
    requires s != [] && s[0] == '&' && Entity(s[1..]).Some?
    ensures var (name, val) := Entity(s[1..]).value;
            |name| < |s| && Ampersands(val + s[1 + |name|..]) < Ampersands(s)
  {
    EntityShape(s[1..]);
    var (name, val) := Entity(s[1..]).value;
    hide Entity;
    hide StartsWith;
    FewerAmpersands(s, |name|, val);
  }

  lemma FewerAmpersands(s: string, n: nat, val: string)
    requires 0 < n < |s| && s[0] == '&' && s[1] != '#'
    requires |val| == 5 && val[0] == '&' && val[1] == '#' && val[2] != '&' && val[3] != '&' && val[4] == ';'
    ensures Ampersands(val + s[1 + n..]) < Ampersands(s)
  {
    var after := s[1 + n..];
    AmpersandsBehind(s[1..], n);
    assert s[1..][n..] == after;
    FiveMore(val + after, after);
  }

  lemma FiveMore(t: string, after: string)
    requires |t| == 5 + |after| && t[5..] == after && t[0] == '&'
    requires t[1] == '#' && t[2] != '&' && t[3] != '&' && t[4] == ';'
    ensures Ampersands(t) == Ampersands(after)
  {
    assert t[1..][0] == t[1] && t[1..][1..] == t[2..] && t[2..][0] == t[2] && t[2..][1..] == t[3..];
    assert t[3..][0] == t[3] && t[3..][1..] == t[4..] && t[4..][0] == t[4] && t[4..][1..] == t[5..];
    assert Ampersands(t[4..]) == Ampersands(after);
    assert Ampersands(t[3..]) == Ampersands(after);
    assert Ampersands(t[2..]) == Ampersands(after);
    assert Ampersands(t[1..]) == Ampersands(after);
  }

  /** A round of the main loop of ezxml_decode: what is decoded, and the text that is left. */
  function NextPiece(s: string, mode: Mode): (string, string)
    requires s != []
  {
    var ref := CharRef(s);
    if ref.Some? then (CharBytes(ref.value.0), s[ref.value.1..])
    else if s[0] == '&' && !StartsWith(s, "&#") && Entity(s[1..]).Some? then
      EntityReplaced(s);
      var (name, val) := Entity(s[1..]).value;
      ("", val + s[1 + |name|..])
    else if mode.Attribute? && IsSpace(s[0]) then (" ", s[1..])
    else ([s[0]], s[1..])
  }

  lemma LessIsLeft(s: string, mode: Mode)
    requires s != []
    ensures var rest := NextPiece(s, mode).1;
            Ampersands(rest) < Ampersands(s) || (Ampersands(rest) <= Ampersands(s) && |rest| < |s|)
  {
    AmpersandsBehind(s, 1);
    var ref := CharRef(s);
    if ref.Some? {
      AmpersandsBehind(s, ref.value.1);
    } else if s[0] == '&' && Entity(s[1..]).Some? {
      EntityReplaced(s);
    }
  }

  /** What the main loop makes of a text. */
  function Decoded(s: string, mode: Mode): string
    decreases Ampersands(s), |s|
  {
    if s == [] then []
    else
      LessIsLeft(s, mode);
      NextPiece(s, mode).0 + Decoded(NextPiece(s, mode).1, mode)
  }

  /** Line endings are normalised first. */
  function Normalised(s: string): string {
    if s == [] then []
    else if s[0] == '\r' then "\n" + Normalised(if |s| > 1 && s[1] == '\n' then s[2..] else s[1..])
    else [s[0]] + Normalised(s[1..])
  }

  lemma {:induction false} NothingToNormalise(s: string)
    requires '\r' !in s
    ensures Normalised(s) == s
  {
    if s != [] {
      assert s[0] != '\r';
      NothingToNormalise(s[1..]);
    }
  }

  /** The first loop of ezxml_decode stops at the terminator of this text: a line ending that is replaced is not the
      last thing in it. */
  function StopsAtEnd(s: string): bool {
    if s == [] then true
    else if s[0] == '\r' then
      var rest := if |s| > 1 && s[1] == '\n' then s[2..] else s[1..];
      rest != [] && StopsAtEnd(rest)
    else StopsAtEnd(s[1..])
  }

  /** The text ends in a carriage return, or in a carriage return and a newline. */
  predicate EndsInReturn(s: string) {
    || (|s| >= 1 && s[|s| - 1] == '\r')
    || (|s| >= 2 && s[|s| - 2] == '\r' && s[|s| - 1] == '\n')
  }

  /** The loop steps over the terminator of exactly the texts that end in a carriage return, or in one and a newline. */
  lemma {:induction false} StopsUnlessReturn(s: string)
    ensures StopsAtEnd(s) <==> !EndsInReturn(s)
  {
    if s == [] {
    } else if s[0] == '\r' {
      var k := if |s| > 1 && s[1] == '\n' then 2 else 1;
      var rest := s[k..];
      if rest != [] {
        StopsUnlessReturn(rest);
        SameEnd(s, k);
      }
    } else {
      StopsUnlessReturn(s[1..]);
      if |s| > 1 {
        SameEnd(s, 1);
      }
    }
  }

  /** The ends of a text are those of what follows its first character, or its first two if they are a line ending. */
  lemma SameEnd(s: string, k: nat)
    requires 1 <= k < |s| && (s[k - 1] == '\r' ==> s[k] != '\n')
    ensures EndsInReturn(s) <==> EndsInReturn(s[k..])
  {
  }

  /** The smallest texts on which the loop does not stop. */
  lemma OverrunTexts()
    ensures !StopsAtEnd("\r") && !StopsAtEnd("\r\n") && !StopsAtEnd("a\r\n") && StopsAtEnd("\r\na") && StopsAtEnd("\n")
  {
    StopsUnlessReturn("\r");
    StopsUnlessReturn("\r\n");
    StopsUnlessReturn("a\r\n");
    assert "a\r\n"[1..] == "\r\n";
    assert "\r\na"[2..] == "a" && "a"[1..] == "" && "\n"[1..] == "";
  }

  /** The first loop of ezxml_decode, on the text t in the buffer, whose terminator is at position |t|.  The text is
      rewritten in place; the model ends where the loop steps over the terminator. */
  method NormaliseLines(s: string) returns (t: string, stopped: bool)
    ensures t == Normalised(s) && (stopped <==> StopsAtEnd(s))
  {
    hide Normalised;
    hide StopsAtEnd;
    t := s;
    var i := 0;
    NoText();
    assert t[..0] == [] && t[0..] == t;
    while i < |t|
      invariant 0 <= i <= |t| && t[..i] + Normalised(t[i..]) == Normalised(s)
      invariant StopsAtEnd(t[i..]) == StopsAtEnd(s)
      decreases |t| - i
    {
      ghost var t0, i0 := t, i;
      t, i := ReplaceReturns(t, i);
      if i == |t| {
        assert t[i..] == [];
        assert t[..i] == t;
        return t, false;
      }
      OneOther(t[i..]);
      assert t[i..][1..] == t[i + 1..];
      assert t[..i + 1] == t[..i] + [t[i]];
      i := i + 1;
    }
    assert t[i..] == [] && t[..i] == t;
    stopped := true;
  }

  /** The inner loop: carriage returns at position i become newlines, and a newline behind one is moved over. */
  method ReplaceReturns(s: string, start: nat) returns (t: string, i: nat)
    requires start < |s|
    ensures start <= i <= |t| && |t| - i <= |s| - start && (i < |t| ==> t[i] != '\r')
    ensures t[..i] + Normalised(t[i..]) == s[..start] + Normalised(s[start..])
    ensures if i == |t| then !StopsAtEnd(s[start..]) else StopsAtEnd(t[i..]) == StopsAtEnd(s[start..])
  {
    hide Normalised;
    hide StopsAtEnd;
    NoText();
    t, i := s, start;
    while i < |t| && t[i] == '\r'
      invariant start <= i <= |t| && |t| - i <= |s| - start
      invariant t[..i] + Normalised(t[i..]) == s[..start] + Normalised(s[start..])
      invariant i == |t| ==> !StopsAtEnd(s[start..])
      invariant i < |t| ==> StopsAtEnd(t[i..]) == StopsAtEnd(s[start..])
      decreases |t| - i
    {
      ghost var rest := t[i..];
      ghost var before := t[..i];
      t := t[i := '\n'];
      i := i + 1;
      if i < |t| && t[i] == '\n' {
        t := t[..i] + t[i + 1..];
      }
      OneReturn(rest, t[i..]);
      assert t[..i] == before + "\n";
    }
  }

  lemma NoText()
    ensures Normalised("") == "" && StopsAtEnd("")
  {
  }

  lemma OneOther(s: string)
    requires s != [] && s[0] != '\r'
    ensures Normalised(s) == [s[0]] + Normalised(s[1..]) && (StopsAtEnd(s) <==> StopsAtEnd(s[1..]))
  {
  }

  lemma OneReturn(s: string, rest: string)
    requires s != [] && s[0] == '\r' && rest == if |s| > 1 && s[1] == '\n' then s[2..] else s[1..]
    ensures Normalised(s) == "\n" + Normalised(rest)
    ensures StopsAtEnd(s) <==> rest != [] && StopsAtEnd(rest)
  {
  }

  /** An entity that does not fit in the place of its name: the buffer has to be replaced by a larger one. */
  predicate Outgrows(s: string) {
    s != [] && CharRef(s).None? && s[0] == '&' && !StartsWith(s, "&#") && Entity(s[1..]).Some?
    && var (name, val) := Entity(s[1..]).value; |val| - 1 > |name|
  }

  /** The length that is computed for the larger buffer, when `done` characters are in front: room for the entity's
      value and for the text from the semicolon on. */
  function NewLength(s: string, done: nat): int
    requires s != [] && Entity(s[1..]).Some?
  {
    done + |Entity(s[1..]).value.1| + |s| - |Entity(s[1..]).value.0|
  }

  /** A round needs no more room than it finds, but for entities that outgrow their name; for these the length computed
      is what the new text needs with its terminator, and holds the old text. */
  lemma RoomForPiece(s: string, mode: Mode, done: nat)
    requires s != []
    ensures var (piece, rest) := NextPiece(s, mode);
            if Outgrows(s)
            then done + |piece| + |rest| + 1 == NewLength(s, done) && done + |s| + 1 <= NewLength(s, done)
            else |piece| + |rest| <= |s|
    ensures var (piece, rest) := NextPiece(s, mode); Outgrows(s) <==> |piece| + |rest| > |s|
  {
    if CharRef(s).Some? {
      RoomForCharacter(s);
      hide CharBytes;
    } else if s[0] == '&' && !StartsWith(s, "&#") && Entity(s[1..]).Some? {
      EntityReplaced(s);
    }
  }

  /** The main loop of ezxml_decode: what has been decoded, and what is left.  Both are in a buffer of `cap` characters,
      which has room for the text given and its terminator at first. */
  method DecodeLoop(s: string, mode: Mode) returns (r: string, cap: int)
    ensures r == Decoded(s, mode) && |r| + 1 <= cap
  {
    hide NextPiece;
    hide Ampersands;
    r, cap := [], |s| + 1;
    var rest := s;
    while rest != []
      invariant r + Decoded(rest, mode) == Decoded(s, mode)
      invariant |r| + |rest| + 1 <= cap
      decreases Ampersands(rest), |rest|
    {
      LessIsLeft(rest, mode);
      RoomForPiece(rest, mode, |r|);
      if Outgrows(rest) {
        cap := NewLength(rest, |r|);
      }
      var (piece, left) := NextPiece(rest, mode);
      r, rest := r + piece, left;
    }
  }

  /** ezxml_decode.  It is done within its buffer if and only if the text ends neither in a carriage return nor in one
      and a newline; otherwise the model ends where the first loop steps over the terminator. */
  method Decode(s: string, mode: Mode) returns (r: string, cap: int, done: bool)
    ensures done <==> !EndsInReturn(s)
    ensures done ==> r == Decoded(Normalised(s), mode) && |r| + 1 <= cap
  {
    StopsUnlessReturn(s);
    var t;
    t, done := NormaliseLines(s);
    r, cap := t, |s| + 1;
    if done {
      r, cap := DecodeLoop(t, mode);
    }
  }

  // ----- decoding undoes encoding

  lemma DecimalRef(s: string)
    requires |s| >= 5 && s[0] == '&' && s[1] == '#' && '1' <= s[2] <= '9' && '0' <= s[3] <= '9' && s[4] == ';'
    ensures CharRef(s) == Some((DigitValue(s[2]) * 10 + DigitValue(s[3]), 5))
  {
    assert SkipSpace(s, 2) == 2;
    assert !IsDigit(s, 4, 10);
    var v := DigitValue(s[2]) * 10 + DigitValue(s[3]);
    assert Digits(s, 4, 10, v) == (v, 4);
    assert Digits(s, 3, 10, DigitValue(s[2])) == (v, 4);
    assert Digits(s, 2, 10, 0) == (v, 4);
    assert StrToL(s, 2, 10) == (v, 4);
    assert s[..2] == "&#";
  }

  lemma HexRef(s: string)
    requires |s| >= 5 && s[0] == '&' && s[1] == '#' && s[2] == 'x' && s[4] == ';'
    requires !IsSpace(s[3]) && 0 < DigitValue(s[3]) < 16
    ensures CharRef(s) == Some((DigitValue(s[3]), 5))
  {
    assert SkipSpace(s, 3) == 3;
    assert !IsDigit(s, 4, 16);
    var v := DigitValue(s[3]);
    assert Digits(s, 4, 16, v) == (v, 4);
    assert Digits(s, 3, 16, 0) == (v, 4);
    assert StrToL(s, 3, 16) == (v, 4);
    assert s[..2] == "&#";
  }

  lemma DecodedRef(s: string, mode: Mode, c: char, rest: string)
    requires |s| >= 5 && s[5..] == rest && CharRef(s) == Some((c as int, 5)) && 0 < c as int < 0x80
    ensures Decoded(s, mode) == [c] + Decoded(rest, mode)
  {
    assert NextPiece(s, mode) == ([c], rest);
  }

  lemma NoRef(s: string)
    requires |s| >= 2 ==> s[0] != '&' || s[1] != '#'
    ensures !StartsWith(s, "&#") && CharRef(s).None?
  {
    assert |s| >= 2 ==> s[..2][0] == s[0] && s[..2][1] == s[1];
  }

  lemma DecodedEntity(s: string, mode: Mode, name: string, val: string, rest: string)
    requires s == "&" + name + rest && Entity(name + rest) == Some((name, val)) && name != [] && name[0] != '#'
    ensures Decoded(s, mode) == Decoded(val + rest, mode)
  {
    assert s[1..] == name + rest;
    assert s[1] == name[0];
    assert s[1 + |name|..] == rest;
    NoRef(s);
    assert NextPiece(s, mode) == ("", val + rest);
  }

  /** A character that is not escaped is decoded as itself, or as a space. */
  lemma DecodedPlain(c: char, rest: string, mode: Mode)
    requires c != '&'
    ensures Decoded([c] + rest, mode) == [if mode.Attribute? && IsSpace(c) then ' ' else c] + Decoded(rest, mode)
  {
    var s := [c] + rest;
    NoRef(s);
    assert s[1..] == rest;
    assert NextPiece(s, mode) == ([if mode.Attribute? && IsSpace(c) then ' ' else c], rest);
  }

  /** The character that the entity stands for. */
  lemma DecodedNamed(c: char, name: string, val: string, rest: string, mode: Mode)
    requires Entity(name + rest) == Some((name, val)) && name != [] && name[0] != '#'
    requires |val| == 5 && val[0] == '&' && val[1] == '#'
    requires '1' <= val[2] <= '9' && '0' <= val[3] <= '9' && val[4] == ';'
    requires DigitValue(val[2]) * 10 + DigitValue(val[3]) == c as int
    ensures Decoded("&" + name + rest, mode) == [c] + Decoded(rest, mode)
  {
    hide Entity;
    hide CharRef;
    hide NextPiece;
    DecodedEntity("&" + name + rest, mode, name, val, rest);
    var s := val + rest;
    assert s[0] == val[0] && s[1] == val[1] && s[2] == val[2] && s[3] == val[3] && s[4] == val[4] && s[5..] == rest;
    DecimalRef(s);
    DecodedRef(s, mode, c, rest);
  }

  lemma DecodedHex(c: char, d: char, rest: string, mode: Mode)
    requires !IsSpace(d) && 0 < DigitValue(d) < 16 && DigitValue(d) == c as int
    ensures Decoded("&#x" + [d] + ";" + rest, mode) == [c] + Decoded(rest, mode)
  {
    var s := "&#x" + [d] + ";" + rest;
    HexRef(s);
    assert s[5..] == rest;
    DecodedRef(s, mode, c, rest);
  }

  /** What a character comes back as. */
  function Returned(c: char, mode: Mode): char {
    if mode.Attribute? && (c == '\U{b}' || c == '\U{c}') then ' ' else c
  }

  lemma EntityFound(name: string, rest: string)
    requires name == "lt;" || name == "gt;" || name == "quot;" || name == "apos;" || name == "amp;"
    ensures Entity(name + rest) == Some((name, if name == "lt;" then "&#60;" else if name == "gt;" then "&#62;"
                                               else if name == "quot;" then "&#34;"
                                               else if name == "apos;" then "&#39;" else "&#38;"))
  {
    var s := name + rest;
    assert s[..|name|] == name;
    assert s[0] == name[0] && s[1] == name[1];
    OtherStart(s, "lt;");
    OtherStart(s, "gt;");
    OtherStart(s, "quot;");
    OtherStart(s, "apos;");
  }

  lemma OtherStart(s: string, p: string)
    requires |s| >= 2 && |p| >= 2
    ensures s[0] != p[0] || s[1] != p[1] ==> !StartsWith(s, p)
  {
    assert |p| <= |s| ==> s[..|p|][0] == s[0] && s[..|p|][1] == s[1];
  }

  /** Decoding undoes the escape of a character. */
  lemma Unescaped(c: char, rest: string, mode: Mode)
    ensures Decoded(Escape(c, mode) + rest, mode) == [Returned(c, mode)] + Decoded(rest, mode)
  {
    hide Entity;
    hide NextPiece;
    hide Decoded;
    if c == '&' {
      EntityFound("amp;", rest);
      DecodedNamed(c, "amp;", "&#38;", rest, mode);
      assert "&amp;" + rest == "&" + "amp;" + rest;
    } else if c == '<' {
      EntityFound("lt;", rest);
      DecodedNamed(c, "lt;", "&#60;", rest, mode);
      assert "&lt;" + rest == "&" + "lt;" + rest;
    } else if c == '>' {
      EntityFound("gt;", rest);
      DecodedNamed(c, "gt;", "&#62;", rest, mode);
      assert "&gt;" + rest == "&" + "gt;" + rest;
    } else if c == '"' && mode.Attribute? {
      EntityFound("quot;", rest);
      DecodedNamed(c, "quot;", "&#34;", rest, mode);
      assert "&quot;" + rest == "&" + "quot;" + rest;
    } else if c == '\r' {
      DecodedHex(c, 'D', rest, mode);
      assert "&#xD;" + rest == "&#x" + ['D'] + ";" + rest;
    } else if c == '\n' && mode.Attribute? {
      DecodedHex(c, 'A', rest, mode);
      assert "&#xA;" + rest == "&#x" + ['A'] + ";" + rest;
    } else if c == '\t' && mode.Attribute? {
      DecodedHex(c, '9', rest, mode);
      assert "&#x9;" + rest == "&#x" + ['9'] + ";" + rest;
    } else {
      DecodedPlain(c, rest, mode);
    }
  }

  /** The text that comes back: up to the first NUL, with some spaces made plain in an attribute. */
  function CameBack(s: string, mode: Mode): string {
    if s == [] || s[0] == '\0' then [] else [Returned(s[0], mode)] + CameBack(s[1..], mode)
  }

  lemma {:induction false} DecodeUndoesEncode(s: string, mode: Mode)
    ensures Decoded(Encoded(s, mode), mode) == CameBack(s, mode)
  {
    if s != [] && s[0] != '\0' {
      DecodeUndoesEncode(s[1..], mode);
      Unescaped(s[0], Encoded(s[1..], mode), mode);
    }
  }

  lemma {:induction false} NoReturnEncoded(s: string, mode: Mode)
    ensures '\r' !in Encoded(s, mode)
  {
    if s != [] && s[0] != '\0' {
      NoReturnEncoded(s[1..], mode);
    }
  }

  /** A text comes back as it was exactly if it has no NUL and, in an attribute, no vertical tab or form feed. */
  lemma {:induction false} ComesBackUnchanged(s: string, mode: Mode)
    ensures CameBack(s, mode) == s <==> '\0' !in s && (mode.Attribute? ==> '\U{b}' !in s && '\U{c}' !in s)
    ensures |CameBack(s, mode)| <= |s|
  {
    if s != [] {
      assert s == [s[0]] + s[1..];
      ComesBackUnchanged(s[1..], mode);
      if s[0] != '\0' {
        assert CameBack(s, mode) == s <==> Returned(s[0], mode) == s[0] && CameBack(s[1..], mode) == s[1..];
      }
    }
  }

  /** ezxml_decode inverts ezxml_ampencode, for exactly these texts. */
  lemma RoundTrip(s: string, mode: Mode)
    ensures Decoded(Normalised(Encoded(s, mode)), mode) == s
            <==> '\0' !in s && (mode.Attribute? ==> '\U{b}' !in s && '\U{c}' !in s)
    ensures StopsAtEnd(Encoded(s, mode))
  {
    NoReturnEncoded(s, mode);
    StopsUnlessReturn(Encoded(s, mode));
    NothingToNormalise(Encoded(s, mode));
    DecodeUndoesEncode(s, mode);
    ComesBackUnchanged(s, mode);
  }
}
