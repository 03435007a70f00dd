/** The conditions that filters are translated to: their SQL text, its placeholders, and how it is read. */
module SqlConditions {
  import opened Digits
  import opened Numerals
  import opened NumberReading
  import opened SqlTokens

  datatype Op = Eq | Ne | Lt | Le | Gt | Ge

  /** The n-th bind of the statement, by itself or converted from text to a timestamp. */
  datatype Operand = Bind(n: nat) | TimestampBind(n: nat)

  datatype Cond =
    | Group(child: Cond)
    | Junction(isAnd: bool, children: seq<Cond>)
    | NullTest(column: string, isNull: bool)
    | Compare(column: string, op: Op, operand: Operand)
    | InList(column: string, operands: seq<Operand>)
    | DayRange(column: string, lo: nat, hi: nat)

  function Symbol(op: Op): string {
    match op
    case Eq => " = "
    case Ne => " <> "
    case Lt => " < "
    case Le => " <= "
    case Gt => " > "
    case Ge => " >= "
  }

  /** The parts a condition's text is put together from. */
  datatype Lex = Plain(text: string) | Name(name: string) | Slot(operand: Operand)

  const TIMESTAMP_FORMAT: string := "YYYY-MM-DD HH24:MI:SS.FF6"

  function Quoted(name: string): string {
    "\"" + name + "\""
  }

  function OperandText(o: Operand): string {
    match o
    case Bind(n) => ":b" + Decimal(n)
    case TimestampBind(n) => "TO_TIMESTAMP(:b" + Decimal(n) + ", '" + TIMESTAMP_FORMAT + "')"
  }

  function LexText(l: Lex): string {
    match l
    case Plain(text) => text
    case Name(name) => Quoted(name)
    case Slot(o) => OperandText(o)
  }

  function Concat(ls: seq<Lex>): string {
    if ls == [] then "" else LexText(ls[0]) + Concat(ls[1..])
  }

  lemma {:induction false} ConcatAppend(s: seq<Lex>, t: seq<Lex>)
    ensures Concat(s + t) == Concat(s) + Concat(t)
  {
    hide LexText;
    if s == [] {
      assert s + t == t;
    } else {
      ConcatAppend(s[1..], t);
      assert (s + t)[1..] == s[1..] + t;
      ConcatAssoc(LexText(s[0]), Concat(s[1..]), Concat(t));
    }
  }

  function JoinSlots(operands: seq<Operand>): seq<Lex> {
    if operands == [] then []
    else if |operands| == 1 then [Slot(operands[0])]
    else JoinSlots(operands[..|operands| - 1]) + [Plain(", "), Slot(operands[|operands| - 1])]
  }

  function Glue(isAnd: bool): string {
    if isAnd then " AND " else " OR "
  }

  function JoinLexes(parts: seq<seq<Lex>>, glue: string): seq<Lex> {
    if parts == [] then []
    else if |parts| == 1 then parts[0]
    else JoinLexes(parts[..|parts| - 1], glue) + [Plain(glue)] + parts[|parts| - 1]
  }

  function Lexes(c: Cond): seq<Lex> {
    match c
    case Group(child) => [Plain("(")] + Lexes(child) + [Plain(")")]
    case Junction(isAnd, children) =>
      [Plain("(")] + JoinLexes(seq(|children|, i requires 0 <= i < |children| => Lexes(children[i])), Glue(isAnd))
      + [Plain(")")]
    case NullTest(column, isNull) => [Plain("("), Name(column), Plain(if isNull then " IS NULL)" else " IS NOT NULL)")]
    case Compare(column, op, operand) => [Plain("("), Name(column), Plain(Symbol(op)), Slot(operand), Plain(")")]
    case InList(column, operands) => [Plain("("), Name(column), Plain(" IN (")] + JoinSlots(operands) + [Plain("))")]
    case DayRange(column, lo, hi) =>
      [Plain("("), Name(column), Plain(" >= "), Slot(Bind(lo)), Plain(" AND "), Name(column), Plain(" < "),
       Slot(Bind(hi)), Plain(" + 1)")]
  }

  function Text(c: Cond): string {
    Concat(Lexes(c))
  }

  predicate QuoteFree(name: string) {
    forall i :: 0 <= i < |name| ==> name[i] != '"'
  }

  /** A condition as the translation builds it. Oracle names hold no double quote. */
  predicate WellFormed(c: Cond) {
    match c
    case Group(child) => WellFormed(child)
    case Junction(_, children) => |children| > 1 && forall i :: 0 <= i < |children| ==> WellFormed(children[i])
    case NullTest(column, _) => QuoteFree(column)
    case Compare(column, _, _) => QuoteFree(column)
    case InList(column, operands) => QuoteFree(column) && operands != []
    case DayRange(column, _, _) => QuoteFree(column)
  }

  // Placeholders

  function ShiftOperand(o: Operand, k: nat): Operand {
    match o
    case Bind(n) => Bind(n + k)
    case TimestampBind(n) => TimestampBind(n + k)
  }

  function ShiftLex(l: Lex, k: nat): Lex {
    if l.Slot? then Slot(ShiftOperand(l.operand, k)) else l
  }

  function ShiftLexes(ls: seq<Lex>, k: nat): (r: seq<Lex>)
    ensures |r| == |ls| && forall i :: 0 <= i < |ls| ==> r[i] == ShiftLex(ls[i], k)
  {
    seq(|ls|, i requires 0 <= i < |ls| => ShiftLex(ls[i], k))
  }

  function ShiftCond(c: Cond, k: nat): Cond {
    match c
    case Group(child) => Group(ShiftCond(child, k))
    case Junction(isAnd, children) =>
      Junction(isAnd, seq(|children|, i requires 0 <= i < |children| => ShiftCond(children[i], k)))
    case NullTest(_, _) => c
    case Compare(column, op, operand) => Compare(column, op, ShiftOperand(operand, k))
    case InList(column, operands) =>
      InList(column, seq(|operands|, i requires 0 <= i < |operands| => ShiftOperand(operands[i], k)))
    case DayRange(column, lo, hi) => DayRange(column, lo + k, hi + k)
  }

  function SlotNumbers(ls: seq<Lex>): seq<nat> {
    if ls == [] then [] else (if ls[0].Slot? then [ls[0].operand.n] else []) + SlotNumbers(ls[1..])
  }

  /** Plain text holds no quote and no colon; texts next to each other do not run into a placeholder. */
  ghost predicate LexFits(l: Lex) {
    match l
    case Plain(text) => text != "" && (forall i :: 0 <= i < |text| ==> text[i] != ':' && !IsQuote(text[i]))
                        && text[0] != 'b' && !IsDigit(text[0])
    case Name(name) => QuoteFree(name)
    case Slot(_) => true
  }

  ghost predicate AllFit(ls: seq<Lex>) {
    forall i :: 0 <= i < |ls| ==> LexFits(ls[i])
  }

  /** A text that ends outside quotes, with these placeholders, and becomes `shifted` when shifted by k. */
  ghost predicate Piece(s: string, numbers: seq<nat>, k: nat, shifted: string) {
    EndQuote(s, None) == None && Placeholders(s) == numbers && Shift(s, k) == shifted
  }

  lemma {:induction false} RenderConcat(s: seq<Token>, t: seq<Token>)
    ensures Render(s + t) == Render(s) + Render(t)
  {
    hide TokenText;
    if s == [] {
      assert s + t == t;
    } else {
      RenderConcat(s[1..], t);
      assert (s + t)[1..] == s[1..] + t;
      ConcatAssoc(TokenText(s[0]), Render(s[1..]), Render(t));
    }
  }

  lemma PieceConcat(s: string, n1: seq<nat>, s': string, t: string, n2: seq<nat>, t': string, k: nat)
    requires Piece(s, n1, k, s') && Piece(t, n2, k, t') && Joinable(s, t)
    ensures Piece(s + t, n1 + n2, k, s' + t')
  {
    hide Scan, Render, Numbers, ShiftTokens, Joinable, EndQuote;
    EndQuoteConcat(s, t, None);
    ScanConcat(s, t, None);
    NumbersConcat(Scan(s, None), Scan(t, None));
    assert ShiftTokens(Scan(s, None) + Scan(t, None), k)
        == ShiftTokens(Scan(s, None), k) + ShiftTokens(Scan(t, None), k);
    RenderConcat(ShiftTokens(Scan(s, None), k), ShiftTokens(Scan(t, None), k));
  }

  lemma EmptyPiece(k: nat)
    ensures Piece("", [], k, "")
  {}

  lemma PieceHead(c: char, s: string, quote: Option<char>, k: nat)
    requires quote.Some? || !StartsPlace([c] + s)
    ensures EndQuote([c] + s, quote) == EndQuote(s, QuoteAfter(c, quote))
    ensures Numbers(Scan([c] + s, quote)) == Numbers(Scan(s, QuoteAfter(c, quote)))
    ensures ShiftRest([c] + s, quote, k) == [c] + ShiftRest(s, QuoteAfter(c, quote), k)
  {
    hide Scan, EndQuote, ShiftRest;
    var t := [c] + s;
    assert t[1..] == s;
    EndQuoteUnfold(t, quote);
    ScanLetter(c, s, quote);
    ShiftLetter(t, quote, k);
  }

  lemma {:induction false} PlainPiece(s: string, k: nat)
    requires forall i :: 0 <= i < |s| ==> s[i] != ':' && s[i] != '"' && s[i] != '\''
    ensures Piece(s, [], k, s)
  {
    hide Scan, EndQuote, Numbers, ShiftTokens, Render;
    if s == "" {
      EmptyPiece(k);
    } else {
      PlainPiece(s[1..], k);
      assert s == [s[0]] + s[1..];
      PieceHead(s[0], s[1..], None, k);
    }
  }

  /** Inside quotes nothing is a placeholder. */
  lemma {:induction false} QuotedRest(q: char, body: string, k: nat)
    requires (q == '"' || q == '\'') && forall i :: 0 <= i < |body| ==> body[i] != q
    ensures EndQuote(body + [q], Some(q)) == None && Numbers(Scan(body + [q], Some(q))) == []
    ensures ShiftRest(body + [q], Some(q), k) == body + [q]
  {
    hide Scan, EndQuote, ShiftRest;
    EmptyPiece(k);
    if body == "" {
      assert [q] + "" == [q] == body + [q];
      PieceHead(q, "", Some(q), k);
      NoRest(None, k);
      NoScan(None);
    } else {
      QuotedRest(q, body[1..], k);
      assert body + [q] == [body[0]] + (body[1..] + [q]);
      PieceHead(body[0], body[1..] + [q], Some(q), k);
    }
  }

  lemma QuotedPiece(q: char, body: string, k: nat)
    requires (q == '"' || q == '\'') && forall i :: 0 <= i < |body| ==> body[i] != q
    ensures Piece([q] + body + [q], [], k, [q] + body + [q])
  {
    hide Scan, EndQuote, ShiftRest, Numbers;
    QuotedRest(q, body, k);
    assert [q] + body + [q] == [q] + (body + [q]);
    PieceHead(q, body + [q], None, k);
    ShiftIsRest([q] + body + [q], k);
  }

  lemma PlacePiece(n: nat, k: nat)
    ensures Piece(":b" + Decimal(n), [n], k, ":b" + Decimal(n + k))
  {
    hide Decimal, Scan, EndQuote;
    ScanPlace(n, "");
    NoScan(None);
    var s := ":b" + Decimal(n);
    assert s + "" == s;
    NumberOfDecimal(n);
    DecimalDigits(n);
    assert [Place(n)] + [] == [Place(n)];
    OnePlace(n, k);
    assert s[2..] == Decimal(n);
    var m := |Decimal(n)|;
    assert Decimal(n)[..m] == Decimal(n);
    EndQuoteOfDigits(Decimal(n), m);
    EndQuoteUnfold(s, None);
    EndQuoteUnfold(s[1..], None);
    assert s[1..][1..] == s[2..];
  }

  lemma OnePlace(n: nat, k: nat)
    ensures Numbers([Place(n)]) == [n] && Render(ShiftTokens([Place(n)], k)) == ":b" + Decimal(n + k)
  {
    hide Decimal;
    assert [Place(n)][1..] == [];
    assert ShiftTokens([Place(n)], k) == [Place(n + k)];
    assert [Place(n + k)][1..] == [];
  }

  lemma FormatHasNoQuote()
    ensures forall i :: 0 <= i < |TIMESTAMP_FORMAT| ==> TIMESTAMP_FORMAT[i] != '\''
  {}

  lemma SafeJoin(s: string, t: string)
    requires t == "" || (t[0] != 'b' && !IsDigit(t[0]))
    ensures Joinable(s, t)
  {}

  lemma TimestampPiece(n: nat, k: nat)
    ensures Piece(OperandText(TimestampBind(n)), [n], k, OperandText(TimestampBind(n + k)))
  {
    hide Piece, Decimal, Joinable;
    var open: string, place, place', comma: string := "TO_TIMESTAMP(", ":b" + Decimal(n), ":b" + Decimal(n + k), ", ";
    var format := ['\''] + TIMESTAMP_FORMAT + ['\''];
    PlainPiece(open, k);
    PlacePiece(n, k);
    SafeJoin(open, place);
    PieceConcat(open, [], open, place, [n], place', k);
    PlainPiece(comma, k);
    SafeJoin(open + place, comma);
    PieceConcat(open + place, [] + [n], open + place', comma, [], comma, k);
    FormatHasNoQuote();
    QuotedPiece('\'', TIMESTAMP_FORMAT, k);
    SafeJoin(open + place + comma, format);
    PieceConcat(open + place + comma, [] + [n] + [], open + place' + comma, format, [], format, k);
    PlainPiece(")", k);
    SafeJoin(open + place + comma + format, ")");
    PieceConcat(open + place + comma + format, [] + [n] + [] + [], open + place' + comma + format, ")", [], ")", k);
    assert [] + [n] + [] + [] + [] == [n];
    TimestampParts(n);
    TimestampParts(n + k);
  }

  lemma TimestampParts(n: nat)
    ensures OperandText(TimestampBind(n))
         == "TO_TIMESTAMP(" + (":b" + Decimal(n)) + ", " + (['\''] + TIMESTAMP_FORMAT + ['\'']) + ")"
  {
    hide Decimal;
    assert "TO_TIMESTAMP(:b" == "TO_TIMESTAMP(" + ":b";
    assert ", '" == ", " + ['\''] && "')" == ['\''] + ")";
  }

  lemma LexPiece(l: Lex, k: nat)
    requires LexFits(l)
    ensures Piece(LexText(l), SlotNumbers([l]), k, LexText(ShiftLex(l, k)))
    ensures LexText(l) != "" && LexText(l)[0] != 'b' && !IsDigit(LexText(l)[0])
  {
    hide Piece, Decimal, SlotNumbers;
    OneSlot(l);
    match l
    case Plain(text) => PlainPiece(text, k);
    case Name(name) =>
      QuotedPiece('"', name, k);
      assert Quoted(name) == ['"'] + name + ['"'];
    case Slot(o) =>
      if o.Bind? { PlacePiece(o.n, k); } else { TimestampPiece(o.n, k); }
  }

  lemma {:induction false} ConcatPiece(ls: seq<Lex>, k: nat)
    requires AllFit(ls)
    ensures Piece(Concat(ls), SlotNumbers(ls), k, Concat(ShiftLexes(ls, k)))
    ensures Concat(ls) != "" ==> Concat(ls)[0] != 'b' && !IsDigit(Concat(ls)[0])
  {
    hide Piece, LexText, ShiftLex, Joinable;
    if ls == [] {
      EmptyPiece(k);
    } else {
      ConcatPiece(ls[1..], k);
      LexPiece(ls[0], k);
      SafeJoin(LexText(ls[0]), Concat(ls[1..]));
      PieceConcat(LexText(ls[0]), SlotNumbers([ls[0]]), LexText(ShiftLex(ls[0], k)),
                  Concat(ls[1..]), SlotNumbers(ls[1..]), Concat(ShiftLexes(ls[1..], k)), k);
      OneSlot(ls[0]);
      assert ShiftLexes(ls, k)[1..] == ShiftLexes(ls[1..], k);
    }
  }

  lemma OneSlot(l: Lex)
    ensures SlotNumbers([l]) == if l.Slot? then [l.operand.n] else []
  {
    assert [l][1..] == [];
  }

  lemma BracketsFit()
    ensures LexFits(Plain("(")) && LexFits(Plain(")")) && LexFits(Plain("))")) && LexFits(Plain(", "))
  {}

  lemma KeywordsFit()
    ensures LexFits(Plain(" IN (")) && LexFits(Plain(" AND ")) && LexFits(Plain(" OR ")) && LexFits(Plain(" + 1)"))
  {}

  lemma NullTestsFit()
    ensures LexFits(Plain(" IS NULL)")) && LexFits(Plain(" IS NOT NULL)"))
  {}

  lemma SymbolFits(op: Op)
    ensures LexFits(Plain(Symbol(op)))
  {}

  lemma {:induction false} JoinFits(parts: seq<seq<Lex>>, isAnd: bool)
    requires forall i :: 0 <= i < |parts| ==> AllFit(parts[i])
    ensures AllFit(JoinLexes(parts, Glue(isAnd)))
  {
    hide LexFits;
    KeywordsFit();
    if |parts| > 1 { JoinFits(parts[..|parts| - 1], isAnd); }
  }

  lemma {:induction false} SlotsFit(operands: seq<Operand>)
    ensures AllFit(JoinSlots(operands))
  {
    hide LexFits;
    BracketsFit();
    SlotFits();
    if |operands| > 1 { SlotsFit(operands[..|operands| - 1]); }
  }

  lemma SlotFits()
    ensures forall o: Operand :: LexFits(Slot(o))
  {}

  lemma NameFits(name: string)
    requires QuoteFree(name)
    ensures LexFits(Name(name))
  {}

  lemma {:induction false} LexesFit(c: Cond)
    requires WellFormed(c)
    ensures AllFit(Lexes(c))
  {
    hide LexFits, JoinLexes, JoinSlots, Glue, Symbol;
    BracketsFit();
    KeywordsFit();
    SlotFits();
    match c
    case Group(child) => LexesFit(child);
    case Junction(isAnd, children) =>
      var parts := seq(|children|, i requires 0 <= i < |children| => Lexes(children[i]));
      forall i | 0 <= i < |children| ensures AllFit(parts[i]) {
        LexesFit(children[i]);
      }
      JoinFits(parts, isAnd);
    case InList(column, operands) =>
      NameFits(column);
      SlotsFit(operands);
    case NullTest(column, _) =>
      NameFits(column);
      NullTestsFit();
    case Compare(column, op, _) =>
      NameFits(column);
      SymbolFits(op);
    case DayRange(column, _, _) =>
      NameFits(column);
      RangeSymbolsFit();
  }

  lemma RangeSymbolsFit()
    ensures LexFits(Plain(" >= ")) && LexFits(Plain(" < "))
  {}

  lemma {:induction false} ShiftJoin(parts: seq<seq<Lex>>, glue: string, k: nat)
    ensures ShiftLexes(JoinLexes(parts, glue), k)
         == JoinLexes(seq(|parts|, i requires 0 <= i < |parts| => ShiftLexes(parts[i], k)), glue)
  {
    hide ShiftLex;
    var shifted := seq(|parts|, i requires 0 <= i < |parts| => ShiftLexes(parts[i], k));
    if |parts| > 1 {
      var n := |parts| - 1;
      ShiftJoin(parts[..n], glue, k);
      assert shifted[..n] == seq(n, i requires 0 <= i < n => ShiftLexes(parts[..n][i], k));
      PlainStays(glue, k);
      ShiftConcat(JoinLexes(parts[..n], glue), [Plain(glue)], k);
      ShiftConcat(JoinLexes(parts[..n], glue) + [Plain(glue)], parts[n], k);
    }
  }

  lemma PlainStays(text: string, k: nat)
    ensures ShiftLexes([Plain(text)], k) == [Plain(text)]
  {}

  lemma ShiftConcat(s: seq<Lex>, t: seq<Lex>, k: nat)
    ensures ShiftLexes(s + t, k) == ShiftLexes(s, k) + ShiftLexes(t, k)
  {}

  lemma {:induction false} ShiftSlots(operands: seq<Operand>, k: nat)
    ensures ShiftLexes(JoinSlots(operands), k)
         == JoinSlots(seq(|operands|, i requires 0 <= i < |operands| => ShiftOperand(operands[i], k)))
  {
    var shifted := seq(|operands|, i requires 0 <= i < |operands| => ShiftOperand(operands[i], k));
    if |operands| > 1 {
      var n := |operands| - 1;
      ShiftSlots(operands[..n], k);
      assert shifted[..n] == seq(n, i requires 0 <= i < n => ShiftOperand(operands[..n][i], k));
    }
  }

  lemma ShiftBracketed(ls: seq<Lex>, open: seq<Lex>, close: string, k: nat)
    requires forall i :: 0 <= i < |open| ==> !open[i].Slot?
    ensures ShiftLexes(open + ls + [Plain(close)], k) == open + ShiftLexes(ls, k) + [Plain(close)]
  {}

  lemma {:induction false} ShiftedLexes(c: Cond, k: nat)
    ensures ShiftLexes(Lexes(c), k) == Lexes(ShiftCond(c, k))
    decreases c, 1
  {
    hide JoinLexes, JoinSlots, Glue, Symbol;
    match c
    case Group(child) =>
      ShiftedLexes(child, k);
      ShiftBracketed(Lexes(child), [Plain("(")], ")", k);
    case Junction(isAnd, children) =>
      ShiftedChildren(c, k);
      var parts := seq(|children|, i requires 0 <= i < |children| => Lexes(children[i]));
      ShiftBracketed(JoinLexes(parts, Glue(isAnd)), [Plain("(")], ")", k);
    case InList(column, operands) =>
      ShiftSlots(operands, k);
      ShiftBracketed(JoinSlots(operands), [Plain("("), Name(column), Plain(" IN (")], "))", k);
    case _ =>
  }

  lemma {:induction false} ShiftedChildren(c: Cond, k: nat)
    requires c.Junction?
    ensures var n, glue := |c.children|, Glue(c.isAnd);
            ShiftLexes(JoinLexes(seq(n, i requires 0 <= i < n => Lexes(c.children[i])), glue), k)
            == JoinLexes(seq(n, i requires 0 <= i < n => Lexes(ShiftCond(c, k).children[i])), glue)
    decreases c, 0
  {
    hide JoinLexes, Glue, Symbol, ShiftLexes, Lexes;
    var n, shifted := |c.children|, ShiftCond(c, k).children;
    var parts := seq(n, i requires 0 <= i < n => Lexes(c.children[i]));
    forall i | 0 <= i < n ensures ShiftLexes(parts[i], k) == Lexes(shifted[i]) {
      ShiftedLexes(c.children[i], k);
    }
    ShiftJoin(parts, Glue(c.isAnd), k);
    assert seq(n, i requires 0 <= i < n => ShiftLexes(parts[i], k))
        == seq(n, i requires 0 <= i < n => Lexes(shifted[i]));
  }

  /** Shifting the text of a condition shifts its binds, and the placeholders of the text are its binds. */
  lemma ShiftedText(c: Cond, k: nat)
    requires WellFormed(c)
    ensures Shift(Text(c), k) == Text(ShiftCond(c, k))
    ensures Placeholders(Text(c)) == SlotNumbers(Lexes(c))
    ensures EndQuote(Text(c), None) == None
  {
    hide Lexes, Concat, ShiftCond, ShiftLexes, SlotNumbers;
    LexesFit(c);
    ConcatPiece(Lexes(c), k);
    ShiftedLexes(c, k);
  }
}
