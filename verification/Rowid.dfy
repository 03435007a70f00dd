/** Oracle's extended ROWID: 18 digits in the base-64 alphabet of RFC 4648, section 4. */
module Rowid {
  import opened Machine
  import opened Digits
  import opened NumberOrder

  /** The letter of a base-64 digit: A-Z a-z 0-9 + / */
  function Letter(v: nat): char
    requires v < 64
  {
    if v < 26 then 'A' + v as char
    else if v < 52 then 'a' + (v - 26) as char
    else if v < 62 then '0' + (v - 52) as char
    else if v == 62 then '+'
    else '/'
  }

  /** The digit of a letter; other characters, which no ROWID holds, count as 0. */
  function DigitOfLetter(c: char): (v: nat)
    ensures v < 64
  {
    if 'A' <= c <= 'Z' then (c - 'A') as nat
    else if 'a' <= c <= 'z' then (c - 'a') as nat + 26
    else if '0' <= c <= '9' then (c - '0') as nat + 52
    else if c == '+' then 62
    else if c == '/' then 63
    else 0
  }

  function LetterDigits(t: string): (s: seq<nat>)
    ensures |s| == |t| && AllBelow(s, 64)
  {
    seq(|t|, i requires 0 <= i < |t| => DigitOfLetter(t[i]))
  }

  /** The last n base-64 digits of a value. */
  function Base64(value: nat, n: nat): (s: seq<nat>)
    ensures |s| == n && AllBelow(s, 64)
  {
    if n == 0 then [] else Base64(value / 64, n - 1) + [value % 64]
  }

  function Letters(s: seq<nat>): (t: string)
    requires AllBelow(s, 64)
    ensures |t| == |s| && forall i :: 0 <= i < |s| ==> t[i] == Letter(s[i])
  {
    seq(|s|, i requires 0 <= i < |s| => Letter(s[i]))
  }

  lemma {:induction false} Base64At(value: nat, n: nat, k: nat)
    requires k < n
    ensures Base64(value, n)[n - 1 - k] == value / Pow(64, k) % 64
  {
    if k > 0 {
      Base64At(value / 64, n - 1, k - 1);
      DivDiv(value, 64, Pow(64, k - 1));
    }
  }

  lemma DivDiv(n: nat, a: nat, b: nat)
    requires a > 0 && b > 0
    ensures a * b > 0 && n / a / b == n / (a * b)
  {
    MulGrows(a, b);
    DivMod(n, a);
    DivMod(n / a, b);
    var q, r := n / a / b, n / a % b;
    assert n == q * (a * b) + (r * a + n % a) by {
      Distribute(q * b, r, a);
      MulAssoc(q, b, a);
    }
    MulMonotone(r, b - 1, a);
    Distribute(b, 1, a);
    DivModUnique(n, a * b, q, r * a + n % a);
  }

  lemma {:induction false} FoldBase64(value: nat, n: nat)
    requires value < Pow(64, n)
    ensures Fold(Base64(value, n), 64) == value
  {
    if n > 0 {
      DivBelow(value, 64, Pow(64, n - 1));
      FoldBase64(value / 64, n - 1);
      FoldAppend(Base64(value / 64, n - 1), value % 64, 64);
      DivMod(value, 64);
    }
  }

  lemma LettersRead(s: seq<nat>)
    requires AllBelow(s, 64)
    ensures LetterDigits(Letters(s)) == s
  {
    forall i | 0 <= i < |s| ensures DigitOfLetter(Letter(s[i])) == s[i] {}
  }

  /** Appends the last `digits` base-64 digits of a value, most significant first. */
  method AppendBase64(start: string, value: uint64, digits: nat) returns (out: string)
    ensures out == start + Letters(Base64(value, digits))
  {
    hide Letter, Base64;
    out := start;
    ghost var all := Base64(value, digits);
    var i := digits;
    while i > 0
      invariant 0 <= i <= digits
      invariant out == start + Letters(all[..digits - i])
    {
      i := i - 1;
      Base64At(value, digits, i);
      out := out + [Letter(value / Pow(64, i) % 64)];
      assert Letters(all[..digits - i]) == Letters(all[..digits - i - 1]) + [Letter(all[digits - i - 1])];
    }
    assert all[..digits] == all;
  }

  /** File and block fields: the two parts of a bigfile's block number, or a relative file and its block. */
  function FileField(fno: uint32, block: uint32): nat {
    if fno == 1024 then block / 0x400000 else fno
  }

  function BlockField(fno: uint32, block: uint32): nat {
    if fno == 1024 then block % 0x400000 else block
  }

  function RowidText(obj: uint32, file: nat, block: nat, row: nat): string {
    Letters(Base64(obj, 6)) + Letters(Base64(file, 3)) + Letters(Base64(block, 6)) + Letters(Base64(row, 3))
  }

  method EncodeRowid(obj: uint32, fno: uint32, block: uint32, row: nat) returns (out: string)
    requires row < 0x10000
    ensures out == RowidText(obj, FileField(fno, block), BlockField(fno, block), row)
    ensures fno != 1024 ==> out == RowidText(obj, fno, block, row)
    ensures fno == 1024 ==>
        exists file: nat, b: nat :: block == file * 0x400000 + b && b < 0x400000 && out == RowidText(obj, file, b, row)
  {
    hide Letters, Base64;
    out := AppendBase64("", obj, 6);
    out := AppendBase64(out, FileField(fno, block), 3);
    out := AppendBase64(out, BlockField(fno, block), 6);
    out := AppendBase64(out, row, 3);
  }

  const ROWS: nat := 0x4_0000
  const FILES: nat := 0x40_0000_0000_0000
  const OBJECTS: nat := 0x100_0000_0000_0000_0000

  /** A ROWID as one number: its digits in base 64. */
  function Position(rowid: string): nat {
    Fold(LetterDigits(rowid), 64)
  }

  /** A field value that its digits can hold. */
  predicate FieldsFit(obj: nat, file: nat, block: nat, row: nat) {
    obj < 0x1_0000_0000 && file < 0x4_0000 && block < 0x10_0000_0000 && row < 0x4_0000
  }

  lemma Powers64()
    ensures Pow(64, 3) == 0x4_0000 && Pow(64, 6) == 0x10_0000_0000
  {
    assert Pow(64, 2) == 0x1000;
    PowAdd(64, 3, 3);
  }

  lemma RowidDigits(obj: uint32, file: nat, block: nat, row: nat)
    ensures LetterDigits(RowidText(obj, file, block, row))
         == Base64(obj, 6) + Base64(file, 3) + Base64(block, 6) + Base64(row, 3)
  {
    hide Base64, Letters, LetterDigits;
    LettersRead(Base64(obj, 6));
    LettersRead(Base64(file, 3));
    LettersRead(Base64(block, 6));
    LettersRead(Base64(row, 3));
    var t := Letters(Base64(obj, 6));
    ReadConcat(t, Letters(Base64(file, 3)));
    t := t + Letters(Base64(file, 3));
    ReadConcat(t, Letters(Base64(block, 6)));
    t := t + Letters(Base64(block, 6));
    ReadConcat(t, Letters(Base64(row, 3)));
  }

  lemma ReadConcat(s: string, t: string)
    ensures LetterDigits(s + t) == LetterDigits(s) + LetterDigits(t)
  {}

  /** Every field keeps its full value. */
  lemma PositionOfRowid(obj: uint32, file: nat, block: nat, row: nat)
    requires FieldsFit(obj, file, block, row)
    ensures Position(RowidText(obj, file, block, row)) == obj * OBJECTS + file * FILES + block * ROWS + row
  {
    hide Base64, Letters, LetterDigits, Fold, Pow, RowidText;
    RowidDigits(obj, file, block, row);
    Powers64();
    FoldBase64(obj, 6);
    FoldBase64(file, 3);
    FoldBase64(block, 6);
    FoldBase64(row, 3);
    var s := Base64(obj, 6);
    FoldConcat(s, Base64(file, 3), 64);
    s := s + Base64(file, 3);
    FoldConcat(s, Base64(block, 6), 64);
    s := s + Base64(block, 6);
    FoldConcat(s, Base64(row, 3), 64);
  }

  /** The digits of two ROWIDs compare as their positions do. */
  lemma {:induction false} DigitsInOrder(s: seq<nat>, t: seq<nat>)
    requires |s| == |t| && AllBelow(s, 64) && AllBelow(t, 64)
    ensures LexLess(s, t) <==> Fold(s, 64) < Fold(t, 64)
  {
    hide Fold, Pow;
    if |s| == 0 {
      assert s == t;
    } else {
      FoldHead(s, 64);
      FoldHead(t, 64);
      FoldBound(s[1..], 64);
      FoldBound(t[1..], 64);
      var p := Pow(64, |s| - 1);
      if s[0] < t[0] {
        HeadLess(s[0], t[0], p, Fold(s[1..], 64), Fold(t[1..], 64));
      } else if s[0] > t[0] {
        HeadLess(t[0], s[0], p, Fold(t[1..], 64), Fold(s[1..], 64));
      } else {
        DigitsInOrder(s[1..], t[1..]);
      }
    }
  }

  lemma DigitsLong(obj: uint32, file: nat, block: nat, row: nat)
    ensures |LetterDigits(RowidText(obj, file, block, row))| == 18
  {
    hide Base64, Letters;
  }

  lemma HeadLess(a: nat, b: nat, p: nat, x: nat, y: nat)
    requires a < b && x < p
    ensures a * p + x < b * p + y
  {
    MulMonotone(a + 1, b, p);
    Distribute(a, 1, p);
  }

  predicate FieldsLess(o1: nat, f1: nat, b1: nat, r1: nat, o2: nat, f2: nat, b2: nat, r2: nat) {
    o1 < o2 || (o1 == o2 && (f1 < f2 || (f1 == f2 && (b1 < b2 || (b1 == b2 && r1 < r2)))))
  }

  /** ROWIDs are ordered by object, file, block and row, and no two share a text. */
  lemma RowidOrder(o1: uint32, f1: nat, b1: nat, r1: nat, o2: uint32, f2: nat, b2: nat, r2: nat)
    requires FieldsFit(o1, f1, b1, r1) && FieldsFit(o2, f2, b2, r2)
    ensures LexLess(LetterDigits(RowidText(o1, f1, b1, r1)), LetterDigits(RowidText(o2, f2, b2, r2)))
       <==> FieldsLess(o1, f1, b1, r1, o2, f2, b2, r2)
    ensures RowidText(o1, f1, b1, r1) == RowidText(o2, f2, b2, r2)
       <==> o1 == o2 && f1 == f2 && b1 == b2 && r1 == r2
  {
    hide Base64, Letters, LetterDigits, Fold, Pow, RowidText, LexLess;
    PositionOfRowid(o1, f1, b1, r1);
    PositionOfRowid(o2, f2, b2, r2);
    DigitsLong(o1, f1, b1, r1);
    DigitsLong(o2, f2, b2, r2);
    DigitsInOrder(LetterDigits(RowidText(o1, f1, b1, r1)), LetterDigits(RowidText(o2, f2, b2, r2)));
  }
}
