/** Placeholders in SQL text. A text is read as tokens: placeholders :bN outside quotes, and single characters. */
module SqlTokens {
  import opened Digits
  import opened Numerals
  import opened NumberReading

  datatype Token = Letter(c: char) | Place(n: nat)

  predicate IsQuote(c: char) {
    c == '"' || c == '\''
  }

  /** A placeholder starts here: a colon, a b and a digit. */
  predicate StartsPlace(s: string) {
    |s| > 2 && s[0] == ':' && s[1] == 'b' && IsDigit(s[2])
  }

  /** The quote state after a character. */
  function QuoteAfter(c: char, quote: Option<char>): Option<char> {
    if quote.Some? then (if c == quote.value then None else quote)
    else if IsQuote(c) then Some(c)
    else None
  }

  /** Length of the digits of the placeholder at the start of a text. */
  function PlaceDigits(s: string): (m: nat)
    requires StartsPlace(s)
    ensures 0 < m && 2 + m <= |s| && AllDecimal(s[2..2 + m]) && (2 + m < |s| ==> !IsDigit(s[2 + m]))
  {
    var m := DigitRun(s[2..]);
    assert s[2..][0] == s[2];
    assert s[2..][..m] == s[2..2 + m];
    m
  }

  function Scan(s: string, quote: Option<char>): seq<Token>
    decreases |s|
  {
    if s == "" then []
    else if quote == None && StartsPlace(s) then
      [Place(NumberOf(s[2..2 + PlaceDigits(s)]))] + Scan(s[2 + PlaceDigits(s)..], None)
    else [Letter(s[0])] + Scan(s[1..], QuoteAfter(s[0], quote))
  }

  function EndQuote(s: string, quote: Option<char>): Option<char>
    decreases |s|
  {
    if s == "" then quote else EndQuote(s[1..], QuoteAfter(s[0], quote))
  }

  function TokenText(t: Token): string {
    match t
    case Letter(c) => [c]
    case Place(n) => ":b" + Decimal(n)
  }

  function Render(tokens: seq<Token>): string {
    if tokens == [] then "" else TokenText(tokens[0]) + Render(tokens[1..])
  }

  function ShiftToken(t: Token, k: nat): Token {
    match t
    case Letter(_) => t
    case Place(n) => Place(n + k)
  }

  function ShiftTokens(tokens: seq<Token>, k: nat): (r: seq<Token>)
    ensures |r| == |tokens| && forall i :: 0 <= i < |tokens| ==> r[i] == ShiftToken(tokens[i], k)
  {
    if tokens == [] then [] else [ShiftToken(tokens[0], k)] + ShiftTokens(tokens[1..], k)
  }

  /** The text with every placeholder outside quotes moved up by k. */
  function Shift(s: string, k: nat): string {
    Render(ShiftTokens(Scan(s, None), k))
  }

  function ShiftRest(s: string, quote: Option<char>, k: nat): string {
    Render(ShiftTokens(Scan(s, quote), k))
  }

  lemma RenderHead(t: Token, tokens: seq<Token>, k: nat)
    ensures Render(ShiftTokens([t] + tokens, k)) == TokenText(ShiftToken(t, k)) + Render(ShiftTokens(tokens, k))
  {
    assert ([t] + tokens)[1..] == tokens;
    assert ShiftTokens([t] + tokens, k) == [ShiftToken(t, k)] + ShiftTokens(tokens, k);
    assert ([ShiftToken(t, k)] + ShiftTokens(tokens, k))[1..] == ShiftTokens(tokens, k);
  }

  lemma ShiftLetter(s: string, quote: Option<char>, k: nat)
    requires s != "" && (quote.Some? || !StartsPlace(s))
    ensures ShiftRest(s, quote, k) == [s[0]] + ShiftRest(s[1..], QuoteAfter(s[0], quote), k)
  {
    hide Render, ShiftTokens;
    RenderHead(Letter(s[0]), Scan(s[1..], QuoteAfter(s[0], quote)), k);
  }

  lemma ShiftPlace(s: string, k: nat)
    requires StartsPlace(s)
    ensures ShiftRest(s, None, k)
         == ":b" + Decimal(NumberOf(s[2..2 + PlaceDigits(s)]) + k) + ShiftRest(s[2 + PlaceDigits(s)..], None, k)
  {
    hide Render, ShiftTokens, Decimal, NumberOf;
    RenderHead(Place(NumberOf(s[2..2 + PlaceDigits(s)])), Scan(s[2 + PlaceDigits(s)..], None), k);
  }

  /** The loop over the characters, with its quote state. */
  method ShiftPlaceholders(sql: string, offset: nat) returns (out: string)
    ensures out == Shift(sql, offset)
  {
    hide Render, ShiftTokens, Scan, Decimal, NumberOf, ShiftRest;
    out := "";
    var quote: Option<char> := None;
    var i := 0;
    assert sql[0..] == sql;
    ShiftIsRest(sql, offset);
    while i < |sql|
      invariant 0 <= i <= |sql|
      invariant out + ShiftRest(sql[i..], quote, offset) == Shift(sql, offset)
    {
      var c := sql[i];
      if quote.Some? {
        ShiftLetter(sql[i..], quote, offset);
        if c == quote.value {
          quote := None;
        }
        out := out + [c];
        assert sql[i..][1..] == sql[i + 1..];
        i := i + 1;
      } else if c == '"' || c == '\'' {
        ShiftLetter(sql[i..], quote, offset);
        quote := Some(c);
        out := out + [c];
        assert sql[i..][1..] == sql[i + 1..];
        i := i + 1;
      } else if c == ':' && i + 2 < |sql| && sql[i + 1] == 'b' && IsDigit(sql[i + 2]) {
        assert StartsPlace(sql[i..]);
        ShiftPlace(sql[i..], offset);
        var n, m := ReadNumber(sql[i..]);
        out := out + ":b" + Decimal(n + offset);
        assert sql[i..][2 + m..] == sql[i + 2 + m..];
        i := i + 2 + m;
      } else {
        ShiftLetter(sql[i..], quote, offset);
        out := out + [c];
        assert sql[i..][1..] == sql[i + 1..];
        i := i + 1;
      }
    }
    NoRest(quote, offset);
    assert sql[i..] == "" && out + "" == out;
  }

  lemma ShiftIsRest(s: string, k: nat)
    ensures ShiftRest(s, None, k) == Shift(s, k)
  {}

  lemma NoRest(quote: Option<char>, k: nat)
    ensures ShiftRest("", quote, k) == ""
  {}

  /** The digits of the placeholder at the start of a text, as a number. */
  method ReadNumber(s: string) returns (n: nat, m: nat)
    requires StartsPlace(s)
    ensures m == PlaceDigits(s) && n == NumberOf(s[2..2 + m])
  {
    m, n := 0, 0;
    assert s[2..2] == "" && DigitValues("") == [];
    while 2 + m < |s| && IsDigit(s[2 + m])
      invariant 2 + m <= |s| && AllDecimal(s[2..2 + m]) && n == NumberOf(s[2..2 + m])
    {
      NumberStep(s[2..2 + m], s[2 + m]);
      assert s[2..2 + m + 1] == s[2..2 + m] + [s[2 + m]];
      n := n * 10 + (s[2 + m] - '0') as nat;
      m := m + 1;
    }
    assert s[2..][..m] == s[2..2 + m];
    RunIs(s[2..], m);
  }

  lemma NumberStep(t: string, c: char)
    requires AllDecimal(t) && IsDigit(c)
    ensures AllDecimal(t + [c]) && NumberOf(t + [c]) == NumberOf(t) * 10 + (c - '0') as nat
  {
    hide Fold;
    FoldAppend(DigitValues(t), (c - '0') as nat, 10);
    assert DigitValues(t + [c]) == DigitValues(t) + [(c - '0') as nat];
  }

  lemma RunIs(s: string, n: nat)
    requires n <= |s| && AllDecimal(s[..n]) && (n < |s| ==> !IsDigit(s[n]))
    ensures DigitRun(s) == n
  {
    RunOfDigits(s[..n], s[n..]);
    assert s == s[..n] + s[n..];
  }

  /** Shifting keeps the first character. */
  lemma ShiftHead(s: string, quote: Option<char>, k: nat)
    requires s != ""
    ensures ShiftRest(s, quote, k) != "" && ShiftRest(s, quote, k)[0] == s[0]
  {
    hide Render, ShiftTokens, Decimal, NumberOf;
    if quote == None && StartsPlace(s) {
      ShiftPlace(s, k);
    } else {
      ShiftLetter(s, quote, k);
    }
  }

  /** A character that does not start a placeholder does not start one after the rest has been shifted either. */
  lemma NoNewPlace(s: string, k: nat)
    requires s != "" && !StartsPlace(s)
    ensures !StartsPlace([s[0]] + ShiftRest(s[1..], QuoteAfter(s[0], None), k))
  {
    hide ShiftRest, Scan;
    var q := QuoteAfter(s[0], None);
    var r := ShiftRest(s[1..], q, k);
    if s[0] == ':' && |s| > 1 {
      ShiftHead(s[1..], q, k);
      if s[1] == 'b' {
        assert !StartsPlace(s[1..]);
        ShiftLetter(s[1..], None, k);
        assert s[1..][1..] == s[2..];
        if |s| > 2 {
          ShiftHead(s[2..], None, k);
          assert r[1] == s[2];
        } else {
          assert s[2..] == "";
          NoRest(None, k);
        }
      }
    } else if |s| == 1 {
      NoRest(q, k);
    }
  }

  lemma ScanLetter(c: char, s: string, quote: Option<char>)
    requires quote.Some? || !StartsPlace([c] + s)
    ensures Scan([c] + s, quote) == [Letter(c)] + Scan(s, QuoteAfter(c, quote))
  {
    assert ([c] + s)[1..] == s;
  }

  lemma ScanPlace(n: nat, s: string)
    requires s == "" || !IsDigit(s[0])
    ensures Scan(":b" + Decimal(n) + s, None) == [Place(n)] + Scan(s, None)
  {
    hide Decimal, NumberOf, Scan;
    var t := ":b" + Decimal(n) + s;
    DecimalDigits(n);
    NumberOfDecimal(n);
    assert t[2..] == Decimal(n) + s;
    RunOfDigits(Decimal(n), s);
    var m := |Decimal(n)|;
    assert StartsPlace(t);
    assert t[2..2 + m] == Decimal(n) && t[2 + m..] == s;
    ScanPlaceUnfold(t);
  }

  lemma ScanPlaceUnfold(s: string)
    requires StartsPlace(s)
    ensures Scan(s, None) == [Place(NumberOf(s[2..2 + PlaceDigits(s)]))] + Scan(s[2 + PlaceDigits(s)..], None)
  {}

  /** Shifting changes the numbers of the placeholders and nothing else: quoted text, and every character that is not
      part of a placeholder, is read back as it was. */
  lemma {:induction false} ScanOfShift(s: string, quote: Option<char>, k: nat)
    ensures Scan(ShiftRest(s, quote, k), quote) == ShiftTokens(Scan(s, quote), k)
    decreases |s|
  {
    hide ShiftRest, Decimal, NumberOf;
    if s == "" {
      NoRest(quote, k);
    } else if quote == None && StartsPlace(s) {
      var n, rest := NumberOf(s[2..2 + PlaceDigits(s)]), s[2 + PlaceDigits(s)..];
      ScanOfShift(rest, None, k);
      ShiftPlace(s, k);
      if rest != "" { ShiftHead(rest, None, k); } else { NoRest(None, k); }
      ScanPlace(n + k, ShiftRest(rest, None, k));
      ShiftOne(Place(n), Scan(rest, None), k);
    } else {
      var q := QuoteAfter(s[0], quote);
      ScanOfShift(s[1..], q, k);
      ShiftLetter(s, quote, k);
      if quote == None { NoNewPlace(s, k); }
      ScanLetter(s[0], ShiftRest(s[1..], q, k), quote);
      ShiftOne(Letter(s[0]), Scan(s[1..], q), k);
    }
  }

  lemma ShiftOne(t: Token, tokens: seq<Token>, k: nat)
    ensures ShiftTokens([t] + tokens, k) == [ShiftToken(t, k)] + ShiftTokens(tokens, k)
  {}

  lemma {:induction false} EndQuoteOfShift(s: string, quote: Option<char>, k: nat)
    ensures EndQuote(ShiftRest(s, quote, k), quote) == EndQuote(s, quote)
    decreases |s|
  {
    hide ShiftRest, Decimal, NumberOf, EndQuote;
    if s == "" {
      NoRest(quote, k);
    } else if quote == None && StartsPlace(s) {
      var n, rest := NumberOf(s[2..2 + PlaceDigits(s)]), s[2 + PlaceDigits(s)..];
      EndQuoteOfShift(rest, None, k);
      ShiftPlace(s, k);
      EndQuoteOfPlace(s);
      EndQuoteBehindPlace(n + k, ShiftRest(rest, None, k));
    } else {
      EndQuoteOfShift(s[1..], QuoteAfter(s[0], quote), k);
      ShiftLetter(s, quote, k);
      EndQuoteUnfold(s, quote);
      var t := [s[0]] + ShiftRest(s[1..], QuoteAfter(s[0], quote), k);
      EndQuoteUnfold(t, quote);
      assert t[1..] == ShiftRest(s[1..], QuoteAfter(s[0], quote), k);
    }
  }

  lemma EndQuoteBehindPlace(n: nat, rest: string)
    ensures EndQuote(":b" + Decimal(n) + rest, None) == EndQuote(rest, None)
  {
    hide Decimal, EndQuote;
    var t := Decimal(n) + rest;
    var s := ":b" + Decimal(n) + rest;
    DecimalDigits(n);
    EndQuoteUnfold(s, None);
    EndQuoteUnfold(s[1..], None);
    assert s[1..][1..] == t;
    assert t[..|Decimal(n)|] == Decimal(n) && t[|Decimal(n)|..] == rest;
    EndQuoteOfDigits(t, |Decimal(n)|);
  }

  /** Shifts add up. */
  lemma ShiftTwice(s: string, j: nat, k: nat)
    ensures Shift(Shift(s, j), k) == Shift(s, j + k)
  {
    hide Scan, Render;
    ScanOfShift(s, None, j);
    ShiftIsRest(s, j);
    var tokens := Scan(s, None);
    assert ShiftTokens(ShiftTokens(tokens, j), k) == ShiftTokens(tokens, j + k);
  }

  /** The numbers of the placeholders outside quotes, in the order of the text. */
  function Numbers(tokens: seq<Token>): seq<nat> {
    if tokens == [] then []
    else (if tokens[0].Place? then [tokens[0].n] else []) + Numbers(tokens[1..])
  }

  function Placeholders(s: string): seq<nat> {
    Numbers(Scan(s, None))
  }

  lemma {:induction false} NumbersConcat(s: seq<Token>, t: seq<Token>)
    ensures Numbers(s + t) == Numbers(s) + Numbers(t)
  {
    if s == [] {
      assert s + t == t;
    } else {
      NumbersConcat(s[1..], t);
      assert (s + t)[1..] == s[1..] + t;
    }
  }

  lemma {:induction false} NumbersOfShift(tokens: seq<Token>, k: nat)
    ensures |Numbers(ShiftTokens(tokens, k))| == |Numbers(tokens)|
    ensures forall i :: 0 <= i < |Numbers(tokens)| ==> Numbers(ShiftTokens(tokens, k))[i] == Numbers(tokens)[i] + k
  {
    if tokens != [] {
      NumbersOfShift(tokens[1..], k);
      ShiftOne(tokens[0], tokens[1..], k);
      assert tokens == [tokens[0]] + tokens[1..];
    }
  }

  // Putting texts together

  /** The texts can be put together without making or breaking a placeholder. */
  predicate Joinable(s: string, t: string) {
    || t == "" || (t[0] != 'b' && !IsDigit(t[0]))
    || s == "" || (s[|s| - 1] != ':' && s[|s| - 1] != 'b' && !IsDigit(s[|s| - 1]))
  }

  lemma {:induction false} EndQuoteConcat(s: string, t: string, quote: Option<char>)
    ensures EndQuote(s + t, quote) == EndQuote(t, EndQuote(s, quote))
    decreases |s|
  {
    if s == "" {
      assert s + t == t;
    } else {
      EndQuoteConcat(s[1..], t, QuoteAfter(s[0], quote));
      assert (s + t)[1..] == s[1..] + t;
    }
  }

  lemma EndQuoteOfPlace(s: string)
    requires StartsPlace(s)
    ensures EndQuote(s, None) == EndQuote(s[2 + PlaceDigits(s)..], None)
  {
    EndQuoteOfDigits(s[2..], PlaceDigits(s));
    assert s[1..][1..] == s[2..] && s[2..][PlaceDigits(s)..] == s[2 + PlaceDigits(s)..];
    assert s[2..][..PlaceDigits(s)] == s[2..2 + PlaceDigits(s)];
  }

  lemma {:induction false} EndQuoteOfDigits(s: string, m: nat)
    requires m <= |s| && AllDecimal(s[..m])
    ensures EndQuote(s, None) == EndQuote(s[m..], None)
    decreases m
  {
    if m > 0 {
      assert s[..m][0] == s[0];
      assert s[1..][..m - 1] == s[..m][1..];
      EndQuoteOfDigits(s[1..], m - 1);
      assert s[1..][m - 1..] == s[m..];
    } else {
      assert s[0..] == s;
    }
  }

  lemma StillNoPlace(s: string, t: string)
    requires s != "" && !StartsPlace(s) && Joinable(s, t)
    ensures !StartsPlace(s + t)
  {
    var u := s + t;
    if |s| > 2 { assert u[0] == s[0] && u[1] == s[1] && u[2] == s[2]; }
  }

  lemma JoinableTail(s: string, t: string, i: nat)
    requires i <= |s| && Joinable(s, t)
    ensures Joinable(s[i..], t)
  {}

  lemma {:induction false} ScanConcat(s: string, t: string, quote: Option<char>)
    requires Joinable(s, t)
    ensures Scan(s + t, quote) == Scan(s, quote) + Scan(t, EndQuote(s, quote))
    decreases |s|
  {
    hide NumberOf, Joinable, Scan, EndQuote;
    NoScan(quote);
    if s == "" {
      assert s + t == t;
    } else if quote == None && StartsPlace(s) {
      var m := PlaceDigits(s);
      JoinableTail(s, t, 2 + m);
      ScanConcat(s[2 + m..], t, None);
      EndQuoteOfPlace(s);
      PlaceOfConcat(s, t);
      ScanPlaceUnfold(s + t);
      ScanPlaceUnfold(s);
      assert (s + t)[2..2 + m] == s[2..2 + m];
      assert (s + t)[2 + m..] == s[2 + m..] + t;
    } else {
      var q := QuoteAfter(s[0], quote);
      if quote == None { StillNoPlace(s, t); }
      JoinableTail(s, t, 1);
      ScanConcat(s[1..], t, q);
      assert [s[0]] + s[1..] == s && [s[0]] + (s[1..] + t) == s + t;
      ScanLetter(s[0], s[1..], quote);
      ScanLetter(s[0], s[1..] + t, quote);
      EndQuoteUnfold(s, quote);
    }
  }

  lemma NoScan(quote: Option<char>)
    ensures Scan("", quote) == [] && EndQuote("", quote) == quote
  {}

  lemma EndQuoteUnfold(s: string, quote: Option<char>)
    requires s != ""
    ensures EndQuote(s, quote) == EndQuote(s[1..], QuoteAfter(s[0], quote))
  {}

  lemma PlaceOfConcat(s: string, t: string)
    requires StartsPlace(s) && Joinable(s, t)
    ensures StartsPlace(s + t) && PlaceDigits(s + t) == PlaceDigits(s)
  {
    var m := PlaceDigits(s);
    var u := (s + t)[2..];
    assert u[..m] == s[2..2 + m];
    RunIs(u, m);
  }
}
