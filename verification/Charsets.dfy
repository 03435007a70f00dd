/** Texts are sequences of code points. Oracle compares the bytes that they have in a character set. */
module Charsets {
  import opened Machine
  import opened FilterValues

  /** AL32UTF8; UTF8, which is CESU-8; AL16UTF16; and sets that extend ASCII by characters of one or more bytes, the
      first of which is not ASCII. */
  datatype Charset = Utf8 | Cesu8 | Utf16 | AsciiBased(lead: char -> nat, trail: char -> seq<uint8>)

  function Utf8Bytes(n: nat): (bytes: seq<uint8>)
    requires n < 0x11_0000
    ensures |bytes| > 0
  {
    if n < 0x80 then [n]
    else if n < 0x800 then [0xC0 + n / 0x40, 0x80 + n % 0x40]
    else if n < 0x1_0000 then [0xE0 + n / 0x1000, 0x80 + n / 0x40 % 0x40, 0x80 + n % 0x40]
    else [0xF0 + n / 0x4_0000, 0x80 + n / 0x1000 % 0x40, 0x80 + n / 0x40 % 0x40, 0x80 + n % 0x40]
  }

  /** A 16-bit code unit in CESU-8 or in UTF-16. */
  function UnitBytes(cs: Charset, unit: nat): seq<uint8>
    requires unit < 0x1_0000
  {
    if cs.Utf16? then [unit / 0x100, unit % 0x100] else Utf8Bytes(unit)
  }

  function HighUnit(c: char): (unit: nat)
    ensures unit < 0x1_0000 && (c as int >= 0x1_0000 <==> 0xD800 <= unit < 0xDC00)
  {
    if c as int < 0x1_0000 then c as int else 0xD800 + (c as int - 0x1_0000) / 0x400
  }

  function LowUnit(c: char): (unit: nat)
    requires c as int >= 0x1_0000
    ensures 0xDC00 <= unit < 0xE000
  {
    0xDC00 + (c as int - 0x1_0000) % 0x400
  }

  function CharBytes(cs: Charset, c: char): seq<uint8> {
    match cs
    case Utf8 => Utf8Bytes(c as int)
    case AsciiBased(lead, trail) => if c as int < 0x80 then [c as int] else [0x80 + lead(c) % 0x80] + trail(c)
    case _ => UnitBytes(cs, HighUnit(c)) + if c as int < 0x1_0000 then [] else UnitBytes(cs, LowUnit(c))
  }

  function Encode(cs: Charset, text: string): seq<uint8> {
    if text == "" then [] else CharBytes(cs, text[0]) + Encode(cs, text[1..])
  }

  function ByteOrder(a: seq<uint8>, b: seq<uint8>): int {
    if a == [] then (if b == [] then 0 else -1)
    else if b == [] then 1
    else if a[0] < b[0] then -1
    else if a[0] > b[0] then 1
    else ByteOrder(a[1..], b[1..])
  }

  lemma {:induction false} ByteOrderZero(a: seq<uint8>, b: seq<uint8>)
    ensures ByteOrder(a, b) == 0 <==> a == b
  {
    if a != [] && b != [] && a[0] == b[0] {
      ByteOrderZero(a[1..], b[1..]);
      assert a == [a[0]] + a[1..] && b == [b[0]] + b[1..];
    }
  }

  /** The first difference is inside both, and there x is smaller. */
  predicate Before(x: seq<uint8>, y: seq<uint8>) {
    x != [] && y != [] && (x[0] < y[0] || (x[0] == y[0] && Before(x[1..], y[1..])))
  }

  lemma {:induction false} OrderBefore(x: seq<uint8>, y: seq<uint8>, s: seq<uint8>, t: seq<uint8>)
    requires Before(x, y)
    ensures ByteOrder(x + s, y + t) == -1 && ByteOrder(y + t, x + s) == 1 && Before(x + s, y + t)
  {
    assert (x + s)[0] == x[0] && (y + t)[0] == y[0];
    assert (x + s)[1..] == x[1..] + s && (y + t)[1..] == y[1..] + t;
    if x[0] == y[0] { OrderBefore(x[1..], y[1..], s, t); }
  }

  lemma ConsOrder(h: uint8, s: seq<uint8>, t: seq<uint8>)
    ensures ByteOrder([h] + s, [h] + t) == ByteOrder(s, t) && Before([h] + s, [h] + t) == Before(s, t)
  {
    assert ([h] + s)[1..] == s && ([h] + t)[1..] == t;
  }

  lemma {:induction false} OrderSame(x: seq<uint8>, s: seq<uint8>, t: seq<uint8>)
    ensures ByteOrder(x + s, x + t) == ByteOrder(s, t) && (Before(s, t) ==> Before(x + s, x + t))
  {
    hide ByteOrder, Before;
    if x == [] {
      assert x + s == s && x + t == t;
    } else {
      OrderSame(x[1..], s, t);
      ConsOrder(x[0], x[1..] + s, x[1..] + t);
      assert x + s == [x[0]] + (x[1..] + s) && x + t == [x[0]] + (x[1..] + t);
    }
  }

  /** The last digit in base 64 decides when the others are equal. */
  lemma LastDigit(m: nat, n: nat)
    requires m < n
    ensures m / 0x40 < n / 0x40 || (m / 0x40 == n / 0x40 && m % 0x40 < n % 0x40)
  {}

  lemma FirstByte(n: nat)
    requires n < 0x11_0000
    ensures var first := Utf8Bytes(n)[0];
            if n < 0x80 then first == n
            else if n < 0x800 then 0xC0 <= first < 0xE0
            else if n < 0x1_0000 then 0xE0 <= first < 0xF0
            else 0xF0 <= first
  {}

  lemma TwoBytes(m: nat, n: nat)
    requires 0x80 <= m < n < 0x800
    ensures Before(Utf8Bytes(m), Utf8Bytes(n))
  {
    hide Before;
    SmallBefore(Utf8Bytes(m), Utf8Bytes(n));
    LastDigit(m, n);
  }

  lemma ThreeBytes(m: nat, n: nat)
    requires 0x800 <= m < n < 0x1_0000
    ensures Before(Utf8Bytes(m), Utf8Bytes(n))
  {
    hide Before;
    SmallBefore(Utf8Bytes(m), Utf8Bytes(n));
    LastDigit(m, n);
    if m / 0x40 < n / 0x40 { LastDigit(m / 0x40, n / 0x40); }
    Digits64(m);
    Digits64(n);
  }

  lemma FourBytes(m: nat, n: nat)
    requires 0x1_0000 <= m < n < 0x11_0000
    ensures Before(Utf8Bytes(m), Utf8Bytes(n))
  {
    hide Before;
    SmallBefore(Utf8Bytes(m), Utf8Bytes(n));
    LastDigit(m, n);
    if m / 0x40 < n / 0x40 { HigherDigits(m / 0x40, n / 0x40); }
    Digits64(m);
    Digits64(n);
  }

  lemma Utf8Before(m: nat, n: nat)
    requires m < n < 0x11_0000
    ensures Before(Utf8Bytes(m), Utf8Bytes(n))
  {
    hide Before, Utf8Bytes;
    if 0x80 <= m && n < 0x800 { TwoBytes(m, n); }
    else if 0x800 <= m && n < 0x1_0000 { ThreeBytes(m, n); }
    else if 0x1_0000 <= m { FourBytes(m, n); }
    else {
      FirstByte(m);
      FirstByte(n);
      SmallBefore(Utf8Bytes(m), Utf8Bytes(n));
    }
  }

  lemma HigherDigits(m: nat, n: nat)
    requires m < n
    ensures m / 0x40 / 0x40 < n / 0x40 / 0x40
         || (m / 0x40 / 0x40 == n / 0x40 / 0x40
             && (m / 0x40 % 0x40 < n / 0x40 % 0x40 || (m / 0x40 % 0x40 == n / 0x40 % 0x40 && m % 0x40 < n % 0x40)))
  {
    LastDigit(m, n);
    if m / 0x40 < n / 0x40 { LastDigit(m / 0x40, n / 0x40); }
  }

  lemma Digits64(n: nat)
    ensures n / 0x1000 == n / 0x40 / 0x40 && n / 0x4_0000 == n / 0x40 / 0x40 / 0x40
  {}

  /** Up to four bytes compared one after the other. */
  lemma SmallBefore(x: seq<uint8>, y: seq<uint8>)
    ensures |x| > 0 && |y| > 0 && x[0] < y[0] ==> Before(x, y)
    ensures |x| > 1 && |y| > 1 && x[0] == y[0] && x[1] < y[1] ==> Before(x, y)
    ensures |x| > 2 && |y| > 2 && x[0] == y[0] && x[1] == y[1] && x[2] < y[2] ==> Before(x, y)
    ensures |x| > 3 && |y| > 3 && x[0] == y[0] && x[1] == y[1] && x[2] == y[2] && x[3] < y[3] ==> Before(x, y)
  {
    if |x| > 1 && |y| > 1 && x[0] == y[0] { Deeper(x, y); }
    if |x| > 2 && |y| > 2 && x[0] == y[0] && x[1] == y[1] { Deeper(x[1..], y[1..]); }
    if |x| > 3 && |y| > 3 && x[0] == y[0] && x[1] == y[1] && x[2] == y[2] {
      assert x[1..][1..] == x[2..] && y[1..][1..] == y[2..];
      Deeper(x[2..], y[2..]);
    }
  }

  lemma Deeper(x: seq<uint8>, y: seq<uint8>)
    requires |x| > 1 && |y| > 1 && x[0] == y[0]
    ensures Before(x, y) == Before(x[1..], y[1..])
    ensures x[1] < y[1] ==> Before(x[1..], y[1..])
  {}

  /** UTF-8 bytes have the order of the code points. */
  lemma {:induction false} Utf8Order(a: string, b: string)
    ensures ByteOrder(Encode(Utf8, a), Encode(Utf8, b)) == TextOrder(a, b)
  {
    hide ByteOrder, Before, Utf8Bytes;
    if a == "" || b == "" {
      EmptyOrder(a, b);
    } else {
      var x, y, s, t := Utf8Bytes(a[0] as int), Utf8Bytes(b[0] as int), Encode(Utf8, a[1..]), Encode(Utf8, b[1..]);
      if a[0] < b[0] {
        Utf8Before(a[0] as int, b[0] as int);
        OrderBefore(x, y, s, t);
      } else if a[0] > b[0] {
        Utf8Before(b[0] as int, a[0] as int);
        OrderBefore(y, x, t, s);
      } else {
        OrderSame(x, s, t);
        Utf8Order(a[1..], b[1..]);
      }
    }
  }

  lemma NotEmpty(cs: Charset, c: char)
    ensures CharBytes(cs, c) != []
  {}

  lemma EmptyOrder(a: string, b: string)
    requires a == "" || b == ""
    ensures ByteOrder(Encode(Utf8, a), Encode(Utf8, b)) == TextOrder(a, b)
  {
    if a != "" { NotEmpty(Utf8, a[0]); }
    if b != "" { NotEmpty(Utf8, b[0]); }
  }

  /** Code units in CESU-8 and UTF-16 have their own order. */
  lemma UnitBefore(cs: Charset, m: nat, n: nat)
    requires m < n < 0x1_0000
    ensures Before(UnitBytes(cs, m), UnitBytes(cs, n))
  {
    hide Before, Utf8Bytes;
    if cs.Utf16? {
      SmallBefore(UnitBytes(cs, m), UnitBytes(cs, n));
    } else {
      Utf8Before(m, n);
    }
  }

  predicate Apart(x: seq<uint8>, y: seq<uint8>) {
    Before(x, y) || Before(y, x)
  }

  /** Different characters differ inside both of their encodings, so that none begins another. */
  lemma CharsApart(cs: Charset, c: char, d: char)
    requires c != d && (cs.AsciiBased? ==> d as int < 0x80)
    ensures Apart(CharBytes(cs, c), CharBytes(cs, d))
  {
    hide Before, Utf8Bytes, UnitBytes, HighUnit, LowUnit;
    match cs
    case Utf8 => if c < d { Utf8Before(c as int, d as int); } else { Utf8Before(d as int, c as int); }
    case AsciiBased(_, _) =>
      SmallBefore(CharBytes(cs, c), CharBytes(cs, d));
      SmallBefore(CharBytes(cs, d), CharBytes(cs, c));
    case _ =>
      if HighUnit(c) != HighUnit(d) {
        HighApart(cs, c, d);
      } else {
        UnitsDiffer(c, d);
        LowApart(cs, c, d);
      }
  }

  lemma UnitsDiffer(c: char, d: char)
    requires c != d && HighUnit(c) == HighUnit(d)
    ensures c as int >= 0x1_0000 && d as int >= 0x1_0000 && LowUnit(c) != LowUnit(d)
  {}

  lemma HighApart(cs: Charset, c: char, d: char)
    requires HighUnit(c) != HighUnit(d) && (cs.Cesu8? || cs.Utf16?)
    ensures Apart(CharBytes(cs, c), CharBytes(cs, d))
  {
    hide Before, UnitBytes, HighUnit, LowUnit;
    var x, y := UnitBytes(cs, HighUnit(c)), UnitBytes(cs, HighUnit(d));
    var s := if c as int < 0x1_0000 then [] else UnitBytes(cs, LowUnit(c));
    var t := if d as int < 0x1_0000 then [] else UnitBytes(cs, LowUnit(d));
    if HighUnit(c) < HighUnit(d) {
      UnitBefore(cs, HighUnit(c), HighUnit(d));
      OrderBefore(x, y, s, t);
    } else {
      UnitBefore(cs, HighUnit(d), HighUnit(c));
      OrderBefore(y, x, t, s);
    }
  }

  lemma LowApart(cs: Charset, c: char, d: char)
    requires HighUnit(c) == HighUnit(d) && c as int >= 0x1_0000 && d as int >= 0x1_0000 && LowUnit(c) != LowUnit(d)
    requires cs.Cesu8? || cs.Utf16?
    ensures Apart(CharBytes(cs, c), CharBytes(cs, d))
  {
    hide Before, UnitBytes, HighUnit, LowUnit;
    var x, s, t := UnitBytes(cs, HighUnit(c)), UnitBytes(cs, LowUnit(c)), UnitBytes(cs, LowUnit(d));
    OrderSame(x, s, t);
    OrderSame(x, t, s);
    if LowUnit(c) < LowUnit(d) {
      UnitBefore(cs, LowUnit(c), LowUnit(d));
    } else {
      UnitBefore(cs, LowUnit(d), LowUnit(c));
    }
  }

  predicate IsAscii(s: string) {
    forall i :: 0 <= i < |s| ==> s[i] < 128 as char
  }

  /** Equal bytes come from equal texts: of two texts in a Unicode set, and of any text and one in ASCII otherwise. */
  lemma {:induction false} SameBytes(cs: Charset, a: string, b: string)
    requires cs.AsciiBased? ==> IsAscii(b)
    ensures ByteOrder(Encode(cs, a), Encode(cs, b)) == 0 <==> a == b
  {
    hide CharBytes, Before, ByteOrder;
    ByteOrderZero(Encode(cs, a), Encode(cs, b));
    if a != "" { NotEmpty(cs, a[0]); }
    if b != "" { NotEmpty(cs, b[0]); }
    if a != "" && b != "" {
      var x, y, s, t := CharBytes(cs, a[0]), CharBytes(cs, b[0]), Encode(cs, a[1..]), Encode(cs, b[1..]);
      if a[0] != b[0] {
        CharsApart(cs, a[0], b[0]);
        if Before(x, y) { OrderBefore(x, y, s, t); } else { OrderBefore(y, x, t, s); }
      } else {
        OrderSame(x, s, t);
        SameBytes(cs, a[1..], b[1..]);
        assert a == [a[0]] + a[1..] && b == [b[0]] + b[1..];
      }
    }
  }

  lemma OneChar(c: char)
    ensures Encode(Utf8, [c]) == Utf8Bytes(c as int) && |Encode(Utf8, [c])| <= 4
  {
    assert [c][1..] == "";
  }

  /** U+FFFD comes before U+10000, but not in CESU-8 and not in UTF-16. */
  lemma OtherOrder(cs: Charset)
    requires cs.Cesu8? || cs.Utf16?
    ensures var a, b := [0xFFFD as char], [0x1_0000 as char];
            TextOrder(a, b) < 0 && ByteOrder(Encode(cs, a), Encode(cs, b)) > 0
  {
    hide Before, ByteOrder;
    var a, b := [0xFFFD as char], [0x1_0000 as char];
    UnitBefore(cs, HighUnit(b[0]), HighUnit(a[0]));
    OrderBefore(UnitBytes(cs, HighUnit(b[0])), UnitBytes(cs, HighUnit(a[0])), UnitBytes(cs, LowUnit(b[0])), []);
    assert Encode(cs, b) == UnitBytes(cs, HighUnit(b[0])) + UnitBytes(cs, LowUnit(b[0])) by {
      assert b[1..] == "";
    }
    assert Encode(cs, a) == UnitBytes(cs, HighUnit(a[0])) + [] by { assert a[1..] == ""; }
  }
}
