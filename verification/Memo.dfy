/** The purchase memo of the token contract: "sale_type,to_account,asset_id". */
module Memo {
  import opened Options

  /** The three fields; the account is the text handed to the name constructor. */
  datatype Order = Order(saleType: string, account: string, asset: nat)

  const UINT64: nat := 0x1_0000_0000_0000_0000
  const ACCOUNT_LENGTH: nat := 12

  // ----- white space

  /** isspace in the "C" locale: blank, tab, line feed, vertical tab, form feed, carriage return. */
  predicate IsSpace(c: char) {
    c == ' ' || (9 as char <= c <= 13 as char)
  }

  ghost predicate Blank(s: string) {
    forall i :: 0 <= i < |s| ==> IsSpace(s[i])
  }

  /** The six white characters. */
  lemma WhiteCharacters(c: char)
    ensures IsSpace(c) <==> c in [' ', '\t', '\n', 11 as char, 12 as char, '\r']
  {
    assert '\t' as int == 9 && '\n' as int == 10 && '\r' as int == 13;
    if IsSpace(c) && c != ' ' {
      assert c as int == 9 || c as int == 10 || c as int == 11 || c as int == 12 || c as int == 13;
    }
  }

  /** Neither end is white space. */
  predicate Bare(s: string) {
    s == [] || (!IsSpace(s[0]) && !IsSpace(s[|s| - 1]))
  }

  function TrimLeft(s: string): string {
    if s != [] && IsSpace(s[0]) then TrimLeft(s[1..]) else s
  }

  function TrimRight(s: string): string {
    if s != [] && IsSpace(s[|s| - 1]) then TrimRight(s[..|s| - 1]) else s
  }

  function Crop(s: string): string {
    TrimRight(TrimLeft(s))
  }

  lemma {:induction false} TrimLeftSkips(a: string, s: string)
    requires Blank(a)
    ensures TrimLeft(a + s) == TrimLeft(s)
    decreases |a|
  {
    if a == [] {
      assert a + s == s;
    } else {
      assert (a + s)[1..] == a[1..] + s;
      TrimLeftSkips(a[1..], s);
    }
  }

  lemma {:induction false} TrimRightSkips(s: string, b: string)
    requires Blank(b)
    ensures TrimRight(s + b) == TrimRight(s)
    decreases |b|
  {
    if b == [] {
      assert s + b == s;
    } else {
      assert (s + b)[..|s + b| - 1] == s + b[..|b| - 1];
      TrimRightSkips(s, b[..|b| - 1]);
    }
  }

  /** Cropping undoes padding: whatever white space surrounds a bare text, the text comes back. */
  lemma CropUndoesPadding(a: string, x: string, b: string)
    requires Blank(a) && Blank(b) && Bare(x)
    ensures Crop(a + x + b) == x
  {
    assert a + x + b == a + (x + b);
    TrimLeftSkips(a, x + b);
    if x == [] {
      assert x + b == b + [];
      TrimLeftSkips(b, []);
    } else {
      TrimRightSkips(x, b);
    }
  }

  lemma {:induction false} LeftPart(s: string) returns (a: string)
    ensures s == a + TrimLeft(s) && Blank(a)
    ensures TrimLeft(s) == [] || !IsSpace(TrimLeft(s)[0])
    decreases |s|
  {
    if s != [] && IsSpace(s[0]) {
      var b := LeftPart(s[1..]);
      a := [s[0]] + b;
      assert s == [s[0]] + s[1..];
    } else {
      a := [];
    }
  }

  lemma {:induction false} RightPart(s: string) returns (b: string)
    ensures s == TrimRight(s) + b && Blank(b)
    ensures TrimRight(s) == [] || !IsSpace(TrimRight(s)[|TrimRight(s)| - 1])
    decreases |s|
  {
    if s != [] && IsSpace(s[|s| - 1]) {
      var a := RightPart(s[..|s| - 1]);
      b := a + [s[|s| - 1]];
      assert s == s[..|s| - 1] + [s[|s| - 1]];
    } else {
      b := [];
    }
  }

  /** Cropping removes exactly a white prefix and a white suffix, and leaves a bare text. */
  lemma CropIsMaximal(s: string) returns (a: string, b: string)
    ensures Blank(a) && Blank(b) && s == a + Crop(s) + b && Bare(Crop(s))
  {
    a := LeftPart(s);
    b := RightPart(TrimLeft(s));
    assert Crop(s) != [] ==> Crop(s)[0] == TrimLeft(s)[0];
  }

  lemma CropIsIdempotent(s: string)
    ensures Crop(Crop(s)) == Crop(s)
  {
    var a, b := CropIsMaximal(s);
    CropUndoesPadding([], Crop(s), []);
    assert [] + Crop(s) + [] == Crop(s);
  }

  method Left(sub: string) returns (r: string)
    ensures r == TrimLeft(sub)
  {
    var i := 0;
    while i < |sub| && IsSpace(sub[i])
      invariant i <= |sub| && Blank(sub[..i])
    {
      i := i + 1;
    }
    assert sub == sub[..i] + sub[i..];
    TrimLeftSkips(sub[..i], sub[i..]);
    r := sub[i..];
  }

  method Right(sub: string) returns (r: string)
    ensures r == TrimRight(sub)
  {
    var i := |sub|;
    while i > 0 && IsSpace(sub[i - 1])
      invariant 0 <= i <= |sub| && Blank(sub[i..])
    {
      i := i - 1;
    }
    assert sub == sub[..i] + sub[i..];
    TrimRightSkips(sub[..i], sub[i..]);
    r := sub[..i];
  }

  // ----- numbers

  predicate IsDigit(c: char) { '0' <= c <= '9' }

  function Digit(c: char): nat
    requires IsDigit(c)
  {
    c as int - '0' as int
  }

  ghost predicate Digits(s: string) {
    forall i :: 0 <= i < |s| ==> IsDigit(s[i])
  }

  /** The longest prefix of digits. */
  function DigitPrefix(s: string): (r: string)
    ensures Digits(r)
  {
    if s != [] && IsDigit(s[0]) then [s[0]] + DigitPrefix(s[1..]) else []
  }

  function Value(s: string): nat
    requires Digits(s)
  {
    if s == [] then 0 else 10 * Value(s[..|s| - 1]) + Digit(s[|s| - 1])
  }

  /** stoull on a cropped text: an optional sign, then digits; what follows them is ignored.
      None when nothing was converted or the number does not fit. */
  function Stoull(s: string): (r: Option<nat>)
    ensures r.Some? ==> r.value < UINT64
  {
    var signed := s != [] && (s[0] == '-' || s[0] == '+');
    var digits := DigitPrefix(if signed then s[1..] else s);
    var v := Value(digits);
    if digits == [] || v >= UINT64 then None
    else if signed && s[0] == '-' && v > 0 then Some(UINT64 - v)
    else Some(v)
  }

  /** A number in decimal. */
  function Decimal(n: nat): (s: string)
    ensures Digits(s) && s != []
  {
    var last := ('0' as int + n % 10) as char;
    if n < 10 then [last] else Decimal(n / 10) + [last]
  }

  lemma {:induction false} ValueOfDecimal(n: nat)
    ensures Value(Decimal(n)) == n
  {
    var s := Decimal(n);
    if n >= 10 {
      ValueOfDecimal(n / 10);
      assert s[..|s| - 1] == Decimal(n / 10);
    } else {
      assert s[..0] == [];
    }
  }

  lemma {:induction false} AllDigits(s: string)
    requires Digits(s)
    ensures DigitPrefix(s) == s
  {
    if s != [] {
      AllDigits(s[1..]);
    }
  }

  /** Reading a number back from its decimal form. */
  lemma StoullOfDecimal(n: nat)
    requires n < UINT64
    ensures Stoull(Decimal(n)) == Some(n) && Bare(Decimal(n))
  {
    var s := Decimal(n);
    assert IsDigit(s[0]) && IsDigit(s[|s| - 1]);
    AllDigits(s);
    ValueOfDecimal(n);
  }

  lemma {:induction false} DigitPrefixIs(digits: string, rest: string)
    requires Digits(digits) && (rest == [] || !IsDigit(rest[0]))
    ensures DigitPrefix(digits + rest) == digits
    decreases |digits|
  {
    if digits == [] {
      assert digits + rest == rest;
    } else {
      assert (digits + rest)[1..] == digits[1..] + rest;
      DigitPrefixIs(digits[1..], rest);
      assert [digits[0]] + digits[1..] == digits;
    }
  }

  /** A sign or none, digits, and anything that does not go on with a digit: the number, negated in 64
      bits for a minus sign, unless it does not fit. */
  lemma StoullReads(sign: string, digits: string, rest: string)
    requires sign in ["", "+", "-"] && Digits(digits) && digits != [] && (rest == [] || !IsDigit(rest[0]))
    ensures Stoull(sign + digits + rest) ==
            if Value(digits) >= 0x1_0000_0000_0000_0000 then None
            else if sign == "-" && Value(digits) > 0 then Some(0x1_0000_0000_0000_0000 - Value(digits))
            else Some(Value(digits))
  {
    var s := sign + digits + rest;
    DigitPrefixIs(digits, rest);
    if sign == "" {
      assert s == digits + rest && s[0] == digits[0];
    } else {
      assert s[0] == sign[0] && s[1..] == digits + rest;
    }
  }

  lemma {:induction false} PrefixEnds(s: string) returns (rest: string)
    ensures s == DigitPrefix(s) + rest && (rest == [] || !IsDigit(rest[0]))
    decreases |s|
  {
    if s != [] && IsDigit(s[0]) {
      rest := PrefixEnds(s[1..]);
      assert s == [s[0]] + s[1..];
    } else {
      rest := s;
    }
  }

  /** No other text is read as a number. */
  lemma StoullNeedsDigits(s: string) returns (sign: string, digits: string, rest: string)
    requires Stoull(s).Some?
    ensures sign in ["", "+", "-"] && Digits(digits) && digits != [] && s == sign + digits + rest
    ensures rest == [] || !IsDigit(rest[0])
  {
    sign := if s[0] == '-' || s[0] == '+' then [s[0]] else [];
    var tail := s[|sign|..];
    digits := DigitPrefix(tail);
    rest := PrefixEnds(tail);
    assert sign == "" || sign == "+" || sign == "-";
    assert s == sign + tail;
  }

  // ----- the memo

  /** The first comma at or after `from`, -1 when there is none. */
  function FindComma(s: string, from: nat): (i: int)
    requires from <= |s|
    ensures i == -1 || (from <= i < |s| && s[i] == ',')
    ensures forall k :: from <= k < (if i == -1 then |s| else i) ==> s[k] != ','
    decreases |s| - from
  {
    if from == |s| then -1 else if s[from] == ',' then from else FindComma(s, from + 1)
  }

  function Parse(memo: string): Option<Order> {
    var first := FindComma(memo, 0);
    var second := FindComma(memo, first + 1);
    if first == -1 || second == -1 || second == |memo| - 1 || second - first != ACCOUNT_LENGTH + 1 then None
    else
      match Stoull(Crop(memo[second + 1..]))
      case None => None
      case Some(id) => Some(Order(Crop(memo[..first]), Crop(memo[first + 1..second]), id))
  }

  ghost predicate CommaFree(s: string) {
    forall i :: 0 <= i < |s| ==> s[i] != ','
  }

  /** A memo made of three fields: the first two without a comma, the account of twelve
      characters, the last one not empty. */
  ghost predicate Fields(memo: string, sale: string, account: string, rest: string) {
    && memo == sale + "," + account + "," + rest
    && CommaFree(sale) && CommaFree(account) && |account| == 12 && rest != []
  }

  lemma CommaAt(s: string, from: nat, i: nat)
    requires from <= i < |s| && s[i] == ',' && forall k :: from <= k < i ==> s[k] != ','
    ensures FindComma(s, from) == i
  {}

  /** A memo of three fields is read field by field, whatever the fields contain. */
  lemma ParseFields(memo: string, sale: string, account: string, rest: string)
    requires Fields(memo, sale, account, rest)
    ensures Parse(memo) == match Stoull(Crop(rest))
                           case None => None
                           case Some(id) => Some(Order(Crop(sale), Crop(account), id))
  {
    var first, second := |sale|, |sale| + 1 + |account|;
    assert forall k :: 0 <= k < |sale| ==> memo[k] == sale[k];
    assert forall k :: 0 <= k < |account| ==> memo[first + 1 + k] == account[k];
    assert forall k :: first + 1 <= k < second ==> memo[k] == account[k - first - 1];
    CommaAt(memo, 0, first);
    CommaAt(memo, first + 1, second);
    assert memo[..first] == sale && memo[first + 1..second] == account && memo[second + 1..] == rest;
  }

  /** Only such memos are accepted. */
  lemma AcceptedHasFields(memo: string)
    requires Parse(memo).Some?
    ensures exists sale, account, rest :: Fields(memo, sale, account, rest)
  {
    var first := FindComma(memo, 0);
    var second := FindComma(memo, first + 1);
    var sale, account, rest := memo[..first], memo[first + 1..second], memo[second + 1..];
    assert memo == sale + "," + account + "," + rest;
    assert Fields(memo, sale, account, rest);
  }

  /** A memo is accepted exactly when it has two commas, twelve characters between the first two and
      something behind them that begins, white space aside, with a number that fits. */
  lemma AcceptedIff(memo: string)
    ensures Parse(memo).Some? <==>
            exists sale, account, rest :: Fields(memo, sale, account, rest) && Stoull(Crop(rest)).Some?
  {
    if Parse(memo).Some? {
      AcceptedHasFields(memo);
      var sale, account, rest :| Fields(memo, sale, account, rest);
      ParseFields(memo, sale, account, rest);
    }
    forall sale, account, rest | Fields(memo, sale, account, rest) && Stoull(Crop(rest)).Some?
      ensures Parse(memo).Some?
    {
      ParseFields(memo, sale, account, rest);
    }
  }

  /** Printing an order, with any white space around the type and the number, and parsing it. */
  lemma MemoRoundTrip(a: string, sale: string, b: string, account: string, c: string, id: nat, d: string)
    requires Blank(a) && Blank(b) && Blank(c) && Blank(d)
    requires CommaFree(sale) && Bare(sale) && CommaFree(account) && |account| == 12 && id < UINT64
    ensures Parse((a + sale + b) + "," + account + "," + (c + Decimal(id) + d)) == Some(Order(sale, Crop(account), id))
  {
    var x, z := a + sale + b, c + Decimal(id) + d;
    StoullOfDecimal(id);
    CropUndoesPadding(a, sale, b);
    CropUndoesPadding(c, Decimal(id), d);
    ParseFields(x + "," + account + "," + z, x, account, z);
  }
}
