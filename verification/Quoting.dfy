/**
  The %q verb, as the list keys of internal/store/cache.go use it: a Go string
  literal, from which the string can be read back. Which runes are printable is
  left open.
*/
module Quoting {
  import opened ByteStrings
  import opened Truncation

  const DOUBLE_QUOTE: Byte := 34
  const BACKSLASH: Byte := 92

  /** strconv.IsPrint, on the bytes of a rune. */
  type Printable = Bytes -> bool

  predicate IsChar(c: Bytes) {
    c != [] && CharLength(c) == |c|
  }

  /** The rune a well-formed sequence encodes. */
  function RuneOf(c: Bytes): int
    requires IsChar(c)
  {
    match |c|
    case 1 => c[0] as int
    case 2 => (c[0] as int - 0xC0) * 0x40 + (c[1] as int - 0x80)
    case 3 => (c[0] as int - 0xE0) * 0x1000 + (c[1] as int - 0x80) * 0x40 + (c[2] as int - 0x80)
    case _ => (c[0] as int - 0xF0) * 0x40000 + (c[1] as int - 0x80) * 0x1000
              + (c[2] as int - 0x80) * 0x40 + (c[3] as int - 0x80)
  }

  lemma RuneRange(c: Bytes)
    requires IsChar(c)
    ensures |c| == 1 ==> 0 <= RuneOf(c) < 0x80
    ensures |c| == 2 ==> 0x80 <= RuneOf(c) < 0x800
    ensures |c| == 3 ==> 0x800 <= RuneOf(c) < 0x1_0000
    ensures |c| == 4 ==> 0x1_0000 <= RuneOf(c) < 0x11_0000
  {}

  lemma TwoBytes(a: nat, b: nat)
    requires 2 <= a < 0x20 && b < 0x40
    ensures var c := [(0xC0 + a) as Byte, (0x80 + b) as Byte];
            IsChar(c) && RuneOf(c) == a * 0x40 + b
  {}

  lemma ThreeBytes(a: nat, b: nat, d: nat)
    requires a < 0x10 && b < 0x40 && d < 0x40 && (a == 0 ==> b >= 0x20) && (a == 0xD ==> b < 0x20)
    ensures var c := [(0xE0 + a) as Byte, (0x80 + b) as Byte, (0x80 + d) as Byte];
            IsChar(c) && RuneOf(c) == a * 0x1000 + b * 0x40 + d
  {}

  lemma FourBytes(a: nat, b: nat, d: nat, e: nat)
    requires a <= 4 && b < 0x40 && d < 0x40 && e < 0x40 && (a == 0 ==> b >= 0x10) && (a == 4 ==> b < 0x10)
    ensures var c := [(0xF0 + a) as Byte, (0x80 + b) as Byte, (0x80 + d) as Byte, (0x80 + e) as Byte];
            IsChar(c) && RuneOf(c) == a * 0x4_0000 + b * 0x1000 + d * 0x40 + e
  {}

  /** Every Unicode scalar value has a well-formed sequence: with RuneInjective, exactly one. */
  lemma RuneEncoded(v: nat) returns (c: Bytes)
    requires v < 0x11_0000 && !(0xD800 <= v <= 0xDFFF)
    ensures IsChar(c) && RuneOf(c) == v
  {
    hide IsChar;
    hide RuneOf;
    var u := v / 0x40;
    if v < 0x80 {
      OneByte(v);
      c := [v as Byte];
    } else if v < 0x800 {
      TwoBytes(u, v % 0x40);
      c := [(0xC0 + u) as Byte, (0x80 + v % 0x40) as Byte];
    } else if v < 0x1_0000 {
      ThreeBytes(u / 0x40, u % 0x40, v % 0x40);
      c := [(0xE0 + u / 0x40) as Byte, (0x80 + u % 0x40) as Byte, (0x80 + v % 0x40) as Byte];
    } else {
      var w := u / 0x40;
      FourBytes(w / 0x40, w % 0x40, u % 0x40, v % 0x40);
      c := [(0xF0 + w / 0x40) as Byte, (0x80 + w % 0x40) as Byte, (0x80 + u % 0x40) as Byte, (0x80 + v % 0x40) as Byte];
    }
  }

  lemma OneByte(v: nat)
    requires v < 0x80
    ensures IsChar([v as Byte]) && RuneOf([v as Byte]) == v
  {}

  lemma NoSurrogates(c: Bytes)
    requires IsChar(c)
    ensures 0 <= RuneOf(c) < 0x11_0000 && !(0xD800 <= RuneOf(c) <= 0xDFFF)
  {}

  lemma SameDigits(a: int, b: int, x: int, y: int)
    requires 0 <= b < 0x40 && 0 <= y < 0x40 && a * 0x40 + b == x * 0x40 + y
    ensures a == x && b == y
  {}

  lemma RuneInjective(c: Bytes, d: Bytes)
    requires IsChar(c) && IsChar(d) && RuneOf(c) == RuneOf(d)
    ensures c == d
  {
    RuneRange(c);
    RuneRange(d);
    assert |c| == |d|;
    if |c| == 2 {
      SameDigits(c[0] as int - 0xC0, c[1] as int - 0x80, d[0] as int - 0xC0, d[1] as int - 0x80);
    } else if |c| == 3 {
      var x, y := (c[0] as int - 0xE0) * 0x40 + (c[1] as int - 0x80), (d[0] as int - 0xE0) * 0x40 + (d[1] as int - 0x80);
      SameDigits(x, c[2] as int - 0x80, y, d[2] as int - 0x80);
      SameDigits(c[0] as int - 0xE0, c[1] as int - 0x80, d[0] as int - 0xE0, d[1] as int - 0x80);
    } else if |c| == 4 {
      var x, y := (c[0] as int - 0xF0) * 0x40 + (c[1] as int - 0x80), (d[0] as int - 0xF0) * 0x40 + (d[1] as int - 0x80);
      var u, v := x * 0x40 + (c[2] as int - 0x80), y * 0x40 + (d[2] as int - 0x80);
      SameDigits(u, c[3] as int - 0x80, v, d[3] as int - 0x80);
      SameDigits(x, c[2] as int - 0x80, y, d[2] as int - 0x80);
      SameDigits(c[0] as int - 0xF0, c[1] as int - 0x80, d[0] as int - 0xF0, d[1] as int - 0x80);
    }
  }

  /** The first byte of a well-formed sequence gives its length. */
  function LengthByHead(b: Byte): nat {
    if b <= 0x7F then 1 else if b <= 0xDF then 2 else if b <= 0xEF then 3 else 4
  }

  lemma CharLengthByHead(s: Bytes)
    requires CharLength(s) > 0
    ensures CharLength(s) == LengthByHead(s[0]) <= |s|
    ensures IsChar(s[..CharLength(s)])
  {
    var c := s[..CharLength(s)];
    assert forall i | 0 <= i < |c| :: c[i] == s[i];
  }

  // ---------------------------------------------------------------- hexadecimal

  function HexDigit(d: nat): Byte
    requires d < 16
  {
    (if d < 10 then 48 + d else 87 + d) as Byte
  }

  function Hex(v: nat, k: nat): (h: Bytes)
    ensures |h| == k
  {
    if k == 0 then [] else Hex(v / 16, k - 1) + [HexDigit(v % 16)]
  }

  function Pow16(k: nat): nat {
    if k == 0 then 1 else 16 * Pow16(k - 1)
  }

  lemma {:induction false} HexInjective(v: nat, w: nat, k: nat)
    requires v < Pow16(k) && w < Pow16(k) && Hex(v, k) == Hex(w, k)
    ensures v == w
  {
    if k > 0 {
      CancelPrefix(Hex(v / 16, k - 1), Hex(w / 16, k - 1), [HexDigit(v % 16)], [HexDigit(w % 16)]);
      HexInjective(v / 16, w / 16, k - 1);
      assert HexDigit(v % 16) == [HexDigit(v % 16)][0] == [HexDigit(w % 16)][0] == HexDigit(w % 16);
    }
  }

  lemma HexSizes()
    ensures Pow16(2) == 0x100 && Pow16(4) == 0x1_0000 && Pow16(8) == 0x1_0000_0000
  {
    assert Pow16(2) == 0x100;
    assert Pow16(4) == 0x1_0000;
    assert Pow16(6) == 0x100_0000;
  }

  // ---------------------------------------------------------------- escapes

  /** The letter of a one-letter escape, 0 if the byte has none. */
  function ShortEscape(b: Byte): Byte {
    if b == 7 then 97 else if b == 8 then 98 else if b == 12 then 102 else if b == 10 then 110
    else if b == 13 then 114 else if b == 9 then 116 else if b == 11 then 118 else 0
  }

  /** What is consumed at a time: a well-formed sequence, or one byte of anything else. */
  function Unit(s: Bytes): (c: Bytes)
    requires s != []
    ensures 0 < |c| <= |s| && c == s[..|c|]
  {
    if CharLength(s) > 0 then s[..CharLength(s)] else s[..1]
  }

  /** The letter after the backslash, and the number behind it in how many digits; no letter for a literal. */
  datatype Form = Literal | Letter(l: Byte) | Number(l: Byte, v: nat, k: nat)

  function FormOf(printable: Printable, c: Bytes): (f: Form)
    requires c != []
  {
    if !IsChar(c) then Number(120, c[0] as nat, 2)
    else if c == [DOUBLE_QUOTE] || c == [BACKSLASH] then Letter(c[0])
    else if printable(c) then Literal
    else if |c| == 1 && ShortEscape(c[0]) != 0 then Letter(ShortEscape(c[0]))
    else
      RuneRange(c);
      if RuneOf(c) < 32 || RuneOf(c) == 127 then Number(120, RuneOf(c), 2)
      else if RuneOf(c) < 0x1_0000 then Number(117, RuneOf(c), 4)
      else Number(85, RuneOf(c), 8)
  }

  function Written(c: Bytes, f: Form): Bytes {
    match f
    case Literal => c
    case Letter(l) => [BACKSLASH, l]
    case Number(l, v, k) => [BACKSLASH, l] + Hex(v, k)
  }

  function Escaped(printable: Printable, s: Bytes): Bytes
    decreases |s|
  {
    if s == [] then []
    else
      var c := Unit(s);
      Written(c, FormOf(printable, c)) + Escaped(printable, s[|c|..])
  }

  function Quoted(printable: Printable, s: Bytes): Bytes {
    [DOUBLE_QUOTE] + (Escaped(printable, s) + [DOUBLE_QUOTE])
  }

  /** Printable text without double quotes and backslashes is only put between quotes. */
  lemma {:induction false} QuotedPlain(printable: Printable, s: Bytes)
    requires ValidUtf8(s) && DOUBLE_QUOTE !in s && BACKSLASH !in s
    requires forall c | IsChar(c) && c[0] !in {DOUBLE_QUOTE, BACKSLASH} :: printable(c)
    ensures Escaped(printable, s) == s
    decreases |s|
  {
    if s != [] {
      PlainUnit(printable, s);
      hide Unit;
      hide CharLength;
      hide FormOf;
      var rest := s[|Unit(s)|..];
      assert s == Unit(s) + rest && Escaped(printable, s) == Unit(s) + Escaped(printable, rest);
      hide Escaped;
      QuotedPlain(printable, rest);
    }
  }

  lemma PlainUnit(printable: Printable, s: Bytes)
    requires s != [] && ValidUtf8(s) && s[0] != DOUBLE_QUOTE && s[0] != BACKSLASH
    requires forall c | IsChar(c) && c[0] !in {DOUBLE_QUOTE, BACKSLASH} :: printable(c)
    ensures Written(Unit(s), FormOf(printable, Unit(s))) == Unit(s)
    ensures |Unit(s)| == CharLength(s) && ValidUtf8(s[|Unit(s)|..])
  {
    CharLengthByHead(s);
    hide CharLength;
  }

  // ---------------------------------------------------------------- reading it back

  /** The form decides the unit: its bytes for a literal, otherwise letter and number do. */
  lemma FormDetermines(printable: Printable, c: Bytes, d: Bytes)
    requires c != [] && d != [] && (!IsChar(c) ==> |c| == 1) && (!IsChar(d) ==> |d| == 1)
    requires FormOf(printable, c) == FormOf(printable, d) && !FormOf(printable, c).Literal?
    ensures c == d
  {
    hide CharLength;
    var f := FormOf(printable, c);
    if f.Number? && IsChar(c) && IsChar(d) {
      RuneInjective(c, d);
    } else {
      if IsChar(c) { RuneRange(c); }
      if IsChar(d) { RuneRange(d); }
      NonCharHigh(c);
      NonCharHigh(d);
    }
  }

  /** A byte that is no sequence of its own is not ASCII. */
  lemma NonCharHigh(c: Bytes)
    requires |c| == 1
    ensures !IsChar(c) ==> c[0] > 0x7F
    ensures IsChar(c) ==> c[0] <= 0x7F
  {}

  /** Letters and digit counts never clash, and numbers fit their digits. */
  lemma FormShape(printable: Printable, c: Bytes)
    requires c != []
    ensures match FormOf(printable, c)
            case Literal => IsChar(c) && c[0] != DOUBLE_QUOTE && c[0] != BACKSLASH
            case Letter(l) => l != 120 && l != 117 && l != 85
            case Number(l, v, k) => v < Pow16(k) && ((l == 120 && k == 2) || (l == 117 && k == 4) || (l == 85 && k == 8))
  {
    HexSizes();
    hide Pow16;
    if IsChar(c) {
      RuneRange(c);
    }
  }

  lemma NumberPrefix(l: Byte, v: nat, k: nat, m: Byte, w: nat, n: nat, x: Bytes, y: Bytes)
    requires [BACKSLASH, l] + Hex(v, k) + x == [BACKSLASH, m] + Hex(w, n) + y
    requires (l == m ==> k == n) && v < Pow16(k) && w < Pow16(n)
    ensures l == m && v == w && x == y
  {
    hide Hex;
    assert ([BACKSLASH, l] + Hex(v, k) + x)[1] == l && ([BACKSLASH, m] + Hex(w, n) + y)[1] == m;
    CancelPrefix([BACKSLASH, l] + Hex(v, k), [BACKSLASH, m] + Hex(w, n), x, y);
    CancelPrefix([BACKSLASH, l], [BACKSLASH, m], Hex(v, k), Hex(w, n));
    HexInjective(v, w, k);
  }

  /** The first two bytes tell the forms apart. */
  lemma FormHead(c: Bytes, f: Form, x: Bytes)
    requires c != [] && (f.Literal? ==> c[0] != BACKSLASH)
    ensures Written(c, f) != []
    ensures (Written(c, f) + x)[0] == BACKSLASH <==> !f.Literal?
    ensures f.Literal? ==> (Written(c, f) + x)[0] == c[0]
    ensures f.Letter? || f.Number? ==> |Written(c, f) + x| >= 2 && (Written(c, f) + x)[1] == f.l
  {
    hide Hex;
  }

  /** A written unit can be read off the front of any byte string. */
  lemma UnitPrefix(printable: Printable, s: Bytes, t: Bytes, x: Bytes, y: Bytes)
    requires s != [] && t != []
    requires var c, d := Unit(s), Unit(t);
             Written(c, FormOf(printable, c)) + x == Written(d, FormOf(printable, d)) + y
    ensures Unit(s) == Unit(t) && x == y
  {
    var c, d := Unit(s), Unit(t);
    UnitShape(s);
    UnitShape(t);
    hide Unit;
    hide CharLength;
    FormShape(printable, c);
    FormShape(printable, d);
    var f, g := FormOf(printable, c), FormOf(printable, d);
    hide FormOf;
    FormHead(c, f, x);
    FormHead(d, g, y);
    hide Hex;
    hide Pow16;
    if f.Literal? {
      CancelPrefix(c, d, x, y);
    } else if f.Number? {
      NumberPrefix(f.l, f.v, f.k, g.l, g.v, g.k, x, y);
      FormDetermines(printable, c, d);
    } else {
      CancelPrefix([BACKSLASH, f.l], [BACKSLASH, g.l], x, y);
      FormDetermines(printable, c, d);
    }
  }

  lemma UnitShape(s: Bytes)
    requires s != []
    ensures IsChar(Unit(s)) ==> |Unit(s)| == LengthByHead(s[0]) && Unit(s)[0] == s[0]
    ensures !IsChar(Unit(s)) ==> |Unit(s)| == 1
    ensures IsChar(Unit(s)) <==> CharLength(s) > 0
  {
    if CharLength(s) > 0 {
      CharLengthByHead(s);
    } else {
      assert s[0] > 0x7F;
      NonCharHigh(s[..1]);
    }
  }

  /** A quoted body ends at its first bare double quote, and determines the string. */
  lemma {:induction false} EscapedPrefix(printable: Printable, s: Bytes, t: Bytes, x: Bytes, y: Bytes)
    requires Escaped(printable, s) + ([DOUBLE_QUOTE] + x) == Escaped(printable, t) + ([DOUBLE_QUOTE] + y)
    ensures s == t && x == y
    decreases |s|
  {
    hide Escaped;
    hide FormOf;
    hide Written;
    hide Unit;
    EscapedHead(printable, s, x);
    EscapedHead(printable, t, y);
    if s == [] || t == [] {
      CancelPrefix([DOUBLE_QUOTE], [DOUBLE_QUOTE], x, y);
    } else {
      var c, d := Unit(s), Unit(t);
      var a, b := s[|c|..], t[|d|..];
      EscapedStep(printable, s, [DOUBLE_QUOTE] + x);
      EscapedStep(printable, t, [DOUBLE_QUOTE] + y);
      UnitPrefix(printable, s, t, Escaped(printable, a) + ([DOUBLE_QUOTE] + x), Escaped(printable, b) + ([DOUBLE_QUOTE] + y));
      EscapedPrefix(printable, a, b, x, y);
      assert s == c + a && t == d + b;
    }
  }

  lemma EscapedStep(printable: Printable, s: Bytes, z: Bytes)
    requires s != []
    ensures var c := Unit(s);
            Escaped(printable, s) + z == Written(c, FormOf(printable, c)) + (Escaped(printable, s[|c|..]) + z)
  {
    hide Unit;
    hide FormOf;
    hide Written;
    var c := Unit(s);
    assert Escaped(printable, s) == Written(c, FormOf(printable, c)) + Escaped(printable, s[|c|..]);
    hide Escaped;
    Reassociate(Written(c, FormOf(printable, c)), Escaped(printable, s[|c|..]), z);
  }

  lemma EscapedHead(printable: Printable, s: Bytes, x: Bytes)
    ensures s == [] ==> Escaped(printable, s) + ([DOUBLE_QUOTE] + x) == [DOUBLE_QUOTE] + x
    ensures s != [] ==> (Escaped(printable, s) + ([DOUBLE_QUOTE] + x))[0] != DOUBLE_QUOTE
  {
    if s == [] {
      assert Escaped(printable, s) == [];
    } else {
      var c, tail := Unit(s), [DOUBLE_QUOTE] + x;
      EscapedStep(printable, s, tail);
      hide Escaped;
      FormShape(printable, c);
      hide FormOf;
      FormHead(c, FormOf(printable, c), Escaped(printable, s[|c|..]) + tail);
    }
  }

  lemma QuotedPrefix(printable: Printable, s: Bytes, t: Bytes, x: Bytes, y: Bytes)
    requires Quoted(printable, s) + x == Quoted(printable, t) + y
    ensures s == t && x == y
  {
    hide Escaped;
    QuotedThen(printable, s, x);
    QuotedThen(printable, t, y);
    hide Quoted;
    var u, v := Escaped(printable, s) + ([DOUBLE_QUOTE] + x), Escaped(printable, t) + ([DOUBLE_QUOTE] + y);
    CancelPrefix([DOUBLE_QUOTE], [DOUBLE_QUOTE], u, v);
    EscapedPrefix(printable, s, t, x, y);
  }

  lemma QuotedThen(printable: Printable, s: Bytes, x: Bytes)
    ensures Quoted(printable, s) + x == [DOUBLE_QUOTE] + (Escaped(printable, s) + ([DOUBLE_QUOTE] + x))
  {
    hide Escaped;
    Reassociate([DOUBLE_QUOTE], Escaped(printable, s) + [DOUBLE_QUOTE], x);
    Reassociate(Escaped(printable, s), [DOUBLE_QUOTE], x);
  }
}
