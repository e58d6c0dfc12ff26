/** The string operations of the standard library that the parsers here are built from. */
module Text {
  import opened Sequences
  import opened Wrappers

  // ---------------------------------------------------------------- searching

  /** Where `c` first stands, or the length of the text. */
  function Find(text: string, c: char): (i: nat)
    ensures i <= |text|
    ensures c !in text[..i]
    ensures i < |text| ==> text[i] == c
  {
    if text == [] || text[0] == c then 0 else
    var rest := Find(text[1..], c);
    assert text[..1 + rest] == [text[0]] + text[1..][..rest];
    1 + rest
  }

  lemma {:induction false} FindSkips(x: string, c: char, y: string)
    requires c !in x
    ensures Find(x + [c] + y, c) == |x|
    ensures Find(x, c) == |x|
  {
    if x == [] {
      assert x + [c] + y == [c] + y;
    } else {
      assert (x + [c] + y)[1..] == x[1..] + [c] + y;
      FindSkips(x[1..], c, y);
    }
  }

  function SplitN(text: string, separator: char, n: nat): (parts: seq<string>)
    requires n > 0
    ensures parts != []
  {
    var i := Find(text, separator);
    if n == 1 || i == |text| then [text] else [text[..i]] + SplitN(text[i + 1..], separator, n - 1)
  }

  lemma SplitNStep(x: string, separator: char, y: string, n: nat)
    requires separator !in x && n > 1
    ensures SplitN(x + [separator] + y, separator, n) == [x] + SplitN(y, separator, n - 1)
    ensures SplitN(x, separator, n) == [x] && SplitN(y, separator, 1) == [y]
  {
    FindSkips(x, separator, y);
    assert (x + [separator] + y)[..|x|] == x && (x + [separator] + y)[|x| + 1..] == y;
  }

  function Split(text: string, separator: char): (parts: seq<string>)
    ensures parts != []
    decreases |text|
  {
    var i := Find(text, separator);
    if i == |text| then [text] else [text[..i]] + Split(text[i + 1..], separator)
  }

  function Join(parts: seq<string>, separator: char): string {
    if parts == [] then []
    else if |parts| == 1 then parts[0]
    else parts[0] + [separator] + Join(parts[1..], separator)
  }

  lemma {:induction false} SplitUndoesJoin(parts: seq<string>, separator: char)
    requires parts != [] && forall p | p in parts :: separator !in p
    ensures Split(Join(parts, separator), separator) == parts
  {
    assert parts[0] in parts;
    if |parts| == 1 {
      FindSkips(parts[0], separator, []);
    } else {
      var rest := Join(parts[1..], separator);
      SplitUndoesJoin(parts[1..], separator);
      FindSkips(parts[0], separator, rest);
      var text := parts[0] + [separator] + rest;
      assert text[..|parts[0]|] == parts[0] && text[|parts[0]| + 1..] == rest;
    }
  }

  // ----------------------------------------------------------------- trimming

  /** The characters Unicode gives the White_Space property. */
  predicate Whitespace(c: char) {
    || '\t' <= c <= '\r' || c == ' ' || c == '\U{85}' || c == '\U{a0}' || c == '\U{1680}'
    || '\U{2000}' <= c <= '\U{200a}' || c == '\U{2028}' || c == '\U{2029}' || c == '\U{202f}'
    || c == '\U{205f}' || c == '\U{3000}'
  }

  function Trim(text: string): string {
    if text == [] then []
    else if Whitespace(text[0]) then Trim(text[1..])
    else if Whitespace(text[|text| - 1]) then Trim(text[..|text| - 1])
    else text
  }

  lemma TrimKeeps(text: string)
    requires text == [] || (!Whitespace(text[0]) && !Whitespace(text[|text| - 1]))
    ensures Trim(text) == text
  {
  }

  ghost predicate AllWhitespace(text: string) {
    forall c | c in text :: Whitespace(c)
  }

  /** Whatever whitespace stands before or after a text, trimming leaves what it leaves of the text. */
  lemma {:induction false} TrimIgnoresOuter(before: string, text: string, after: string)
    requires AllWhitespace(before) && AllWhitespace(after)
    ensures Trim(before + text + after) == Trim(text)
    decreases |before| + |text| + |after|
  {
    var all := before + text + after;
    if before != [] {
      assert before[0] in before && all[0] == before[0] && all[1..] == before[1..] + text + after;
      TrimIgnoresOuter(before[1..], text, after);
    } else if text != [] && Whitespace(text[0]) {
      assert all[0] == text[0] && all[1..] == before + text[1..] + after;
      TrimIgnoresOuter(before, text[1..], after);
    } else if after != [] {
      TrimIgnoresAfter(text, after);
      assert all == text + after;
    } else {
      assert all == text;
    }
  }

  lemma {:induction false} TrimIgnoresAfter(text: string, after: string)
    requires AllWhitespace(after) && (text == [] || !Whitespace(text[0]))
    ensures Trim(text + after) == Trim(text)
    decreases |after|
  {
    var all := text + after;
    if after == [] {
      assert all == text;
    } else {
      assert after[|after| - 1] in after && all[..|all| - 1] == text + after[..|after| - 1];
      if text == [] {
        AllWhitespaceTrims(all);
      } else {
        TrimIgnoresAfter(text, after[..|after| - 1]);
      }
    }
  }

  lemma {:induction false} AllWhitespaceTrims(text: string)
    requires AllWhitespace(text)
    ensures Trim(text) == []
  {
    if text != [] { AllWhitespaceTrims(text[1..]); }
  }

  /** A text trims to what stands between its outer whitespace, which neither starts nor ends with any. */
  lemma {:induction false} TrimIsTheCore(text: string) returns (before: string, after: string)
    ensures text == before + Trim(text) + after && AllWhitespace(before) && AllWhitespace(after)
    ensures var core := Trim(text);
            core == [] || (!Whitespace(core[0]) && !Whitespace(core[|core| - 1]))
  {
    before, after := [], [];
    if text != [] && Whitespace(text[0]) {
      before, after := TrimIsTheCore(text[1..]);
      before := [text[0]] + before;
    } else if text != [] && Whitespace(text[|text| - 1]) {
      before, after := TrimIsTheCore(text[..|text| - 1]);
      after := after + [text[|text| - 1]];
    }
  }

  // ----------------------------------------------------------------- integers

  predicate Digit(c: char) {
    '0' <= c <= '9'
  }

  function Digits(n: nat): (text: string)
    ensures text != []
  {
    var last := [('0' as int + n % 10) as char];
    if n < 10 then last else Digits(n / 10) + last
  }

  function PrintInt(n: int): (text: string)
    ensures text != []
  {
    if n < 0 then ['-'] + Digits(-n) else Digits(n)
  }

  function ParseDigits(text: string): Option<nat> {
    if text == [] || !Digit(text[|text| - 1]) then None
    else
      var last := text[|text| - 1] as int - '0' as int;
      if |text| == 1 then Some(last)
      else match ParseDigits(text[..|text| - 1])
        case None => None
        case Some(n) => Some(n * 10 + last)
  }

  /** An optional sign and at least one digit, within the integer type's range. */
  function ParseInt(text: string, low: int, high: int): Option<int> {
    if text == [] then None
    else
      var signed := text[0] == '-' || text[0] == '+';
      match ParseDigits(if signed then text[1..] else text)
      case None => None
      case Some(n) =>
        var value: int := if text[0] == '-' then 0 - n else n;
        if low <= value <= high then Some(value) else None
  }

  lemma {:induction false} DigitsAreDigits(n: nat)
    ensures forall i | 0 <= i < |Digits(n)| :: Digit(Digits(n)[i])
  {
    if n >= 10 { DigitsAreDigits(n / 10); }
  }

  lemma {:induction false} DigitsParse(n: nat)
    ensures ParseDigits(Digits(n)) == Some(n)
  {
    if n >= 10 {
      DigitsParse(n / 10);
      assert Digits(n)[..|Digits(n)| - 1] == Digits(n / 10);
    }
  }

  /** What is printed parses back, and holds only digits and a leading minus. */
  lemma PrintIntParses(n: int, low: int, high: int)
    ensures ParseInt(PrintInt(n), low, high) == if low <= n <= high then Some(n) else None
    ensures forall c | c in PrintInt(n) :: Digit(c) || c == '-'
    ensures Digit(PrintInt(n)[|PrintInt(n)| - 1])
  {
    var magnitude := if n < 0 then 0 - n else n;
    DigitsAreDigits(magnitude);
    DigitsParse(magnitude);
    if n < 0 { assert PrintInt(n)[1..] == Digits(magnitude); }
  }

  // ------------------------------------------------------- which texts are integers

  function Zeros(k: nat): string {
    if k == 0 then [] else Zeros(k - 1) + ['0']
  }

  /** One more digit at the end of a number's text, after any zeros. */
  lemma OneMoreDigit(k: nat, n: nat, last: char)
    requires Digit(last)
    ensures var digit := last as int - '0' as int;
            Zeros(k) + Digits(n) + [last] ==
              if n == 0 then Zeros(k + 1) + Digits(digit) else Zeros(k) + Digits(n * 10 + digit)
  {
    var digit := last as int - '0' as int;
    if n == 0 {
      DigitAlone(k + 1, 0);
      DigitAlone(k + 2, digit);
    } else {
      DigitsGrow(n, digit);
      Assoc(Zeros(k), Digits(n), [last]);
    }
  }

  lemma ParseOneMoreDigit(text: string, last: char)
    requires text != [] && Digit(last)
    ensures ParseDigits(text + [last]) == match ParseDigits(text)
              case None => None
              case Some(n) => Some(n * 10 + (last as int - '0' as int))
  {
    assert (text + [last])[..|text|] == text;
  }

  lemma {:induction false} ZerosParse(k: nat, n: nat)
    ensures ParseDigits(Zeros(k) + Digits(n)) == Some(n)
    decreases n, k
  {
    if n >= 10 {
      ZerosParse(k, n / 10);
      ZerosParseGrows(k, n / 10, n % 10);
    } else {
      ZerosParseDigit(k, n);
    }
  }

  lemma {:induction false} ZerosAreNothing(k: nat)
    requires k > 0
    ensures Zeros(k) != [] && ParseDigits(Zeros(k)) == Some(0)
  {
    if k == 1 {
      assert Zeros(1) == ['0'];
    } else {
      ZerosAreNothing(k - 1);
      ParseOneMoreDigit(Zeros(k - 1), '0');
    }
  }

  lemma ZerosParseDigit(k: nat, n: nat)
    requires n < 10
    ensures ParseDigits(Zeros(k) + Digits(n)) == Some(n)
  {
    DigitAlone(k + 1, n);
    if k == 0 {
      assert Zeros(0) + [('0' as int + n) as char] == [('0' as int + n) as char];
    } else {
      ZerosAreNothing(k);
      ParseOneMoreDigit(Zeros(k), ('0' as int + n) as char);
    }
  }

  lemma ZerosParseGrows(k: nat, n: nat, digit: nat)
    requires n > 0 && digit < 10 && ParseDigits(Zeros(k) + Digits(n)) == Some(n)
    ensures ParseDigits(Zeros(k) + Digits(n * 10 + digit)) == Some(n * 10 + digit)
  {
    var last := ('0' as int + digit) as char;
    DigitsGrow(n, digit);
    Assoc(Zeros(k), Digits(n), [last]);
    ParseOneMoreDigit(Zeros(k) + Digits(n), last);
  }

  lemma DigitAlone(k: nat, n: nat)
    requires k > 0 && n < 10
    ensures Zeros(k - 1) + Digits(n) == Zeros(k - 1) + [('0' as int + n) as char]
    ensures Zeros(k - 1) + Digits(0) == Zeros(k)
  {
  }

  lemma DigitsGrow(n: nat, digit: nat)
    requires n > 0 && digit < 10
    ensures Digits(n * 10 + digit) == Digits(n) + [('0' as int + digit) as char]
  {
    assert (n * 10 + digit) / 10 == n && (n * 10 + digit) % 10 == digit;
  }

  lemma {:induction false} ParsedDigitsAre(text: string, n: nat) returns (k: nat)
    requires ParseDigits(text) == Some(n)
    ensures text == Zeros(k) + Digits(n)
    decreases |text|
  {
    if |text| == 1 {
      OneDigitIs(text, n);
      k := 0;
    } else {
      var front, m := ParsedFront(text, n);
      k := ParsedDigitsAre(front, m);
      k := PaddedGrows(front, k, m, text[|text| - 1]);
    }
  }

  lemma PaddedGrows(front: string, k: nat, m: nat, last: char) returns (zeros: nat)
    requires front == Zeros(k) + Digits(m) && Digit(last)
    ensures front + [last] == Zeros(zeros) + Digits(m * 10 + (last as int - '0' as int))
  {
    OneMoreDigit(k, m, last);
    zeros := if m == 0 then k + 1 else k;
  }

  lemma OneDigitIs(text: string, n: nat)
    requires ParseDigits(text) == Some(n) && |text| == 1
    ensures text == Zeros(0) + Digits(n)
  {
    assert text == [text[0]] && Digits(n) == [text[0]];
  }

  lemma ParsedFront(text: string, n: nat) returns (front: string, m: nat)
    requires ParseDigits(text) == Some(n) && |text| > 1
    ensures ParseDigits(front) == Some(m) && Digit(text[|text| - 1])
    ensures |front| < |text| && text == front + [text[|text| - 1]]
    ensures n == m * 10 + (text[|text| - 1] as int - '0' as int)
  {
    front := text[..|text| - 1];
    m := ParseDigits(front).value;
  }

  lemma {:induction false} StartsWithDigit(k: nat, n: nat)
    ensures Digit((Zeros(k) + Digits(n))[0])
  {
    if k == 0 {
      DigitsAreDigits(n);
    } else {
      StartsWithDigit(k - 1, n);
      assert (Zeros(k) + Digits(n))[0] == Zeros(k)[0];
      if k > 1 { assert Zeros(k)[0] == Zeros(k - 1)[0] == (Zeros(k - 1) + Digits(n))[0]; }
    }
  }

  /** The texts of a number: its digits after any zeros, and a plus or, for none above zero, a minus. */
  ghost predicate IsTextOf(text: string, n: int, sign: string, k: nat) {
    && text == sign + Zeros(k) + Digits(if n < 0 then 0 - n else n)
    && ((n >= 0 && (sign == "" || sign == "+")) || (n <= 0 && sign == "-"))
  }

  lemma ParsedParts(text: string, low: int, high: int, n: int) returns (sign: string, body: string)
    requires ParseInt(text, low, high) == Some(n)
    ensures text == sign + body && ParseDigits(body) == Some(if n < 0 then 0 - n else n)
    ensures low <= n <= high && ((n >= 0 && (sign == "" || sign == "+")) || (n <= 0 && sign == "-"))
  {
    var signed := text[0] == '-' || text[0] == '+';
    sign, body := if signed then [text[0]] else "", if signed then text[1..] else text;
  }

  lemma ParsedIsTextOf(text: string, low: int, high: int, n: int) returns (sign: string, k: nat)
    requires ParseInt(text, low, high) == Some(n)
    ensures low <= n <= high && IsTextOf(text, n, sign, k)
  {
    var body;
    sign, body := ParsedParts(text, low, high, n);
    k := ParsedDigitsAre(body, if n < 0 then 0 - n else n);
    Assoc(sign, Zeros(k), Digits(if n < 0 then 0 - n else n));
  }

  lemma SignedParses(text: string, sign: string, body: string, low: int, high: int, n: int)
    requires text == sign + body && body != [] && Digit(body[0]) && low <= n <= high
    requires ParseDigits(body) == Some(if n < 0 then 0 - n else n)
    requires (n >= 0 && (sign == "" || sign == "+")) || (n <= 0 && sign == "-")
    ensures ParseInt(text, low, high) == Some(n)
  {
    if sign == "" { assert text == body; } else { assert text[1..] == body && text[0] == sign[0]; }
  }

  lemma TextOfParses(text: string, low: int, high: int, n: int, sign: string, k: nat)
    requires low <= n <= high && IsTextOf(text, n, sign, k)
    ensures ParseInt(text, low, high) == Some(n)
  {
    var magnitude := if n < 0 then 0 - n else n;
    ZerosParse(k, magnitude);
    StartsWithDigit(k, magnitude);
    Assoc(sign, Zeros(k), Digits(magnitude));
    SignedParses(text, sign, Zeros(k) + Digits(magnitude), low, high, n);
  }

  /** A text of a number within the bounds. */
  ghost predicate IsNumeral(text: string, n: int, low: int, high: int) {
    low <= n <= high && exists sign, k: nat :: IsTextOf(text, n, sign, k)
  }

  /** A text is an integer exactly when it is one of the texts of a number the type holds. */
  lemma ParsesExactlyNumerals(text: string, low: int, high: int, n: int)
    ensures ParseInt(text, low, high) == Some(n) <==> IsNumeral(text, n, low, high)
  {
    if ParseInt(text, low, high) == Some(n) {
      var sign, k := ParsedIsTextOf(text, low, high, n);
    }
    if sign, k: nat :| low <= n <= high && IsTextOf(text, n, sign, k) {
      TextOfParses(text, low, high, n, sign, k);
    }
  }

  lemma {:induction false} ZerosAreDigits(k: nat)
    ensures forall c | c in Zeros(k) :: Digit(c)
  {
    if k > 0 { ZerosAreDigits(k - 1); }
  }

  lemma NumeralHolds(text: string, n: int, low: int, high: int)
    requires IsNumeral(text, n, low, high)
    ensures forall c | c in text :: Digit(c) || c == '+' || c == '-'
  {
    var sign, k: nat :| IsTextOf(text, n, sign, k);
    var magnitude := if n < 0 then 0 - n else n;
    ZerosAreDigits(k);
    DigitsAreDigits(magnitude);
    forall c | c in text ensures Digit(c) || c == '+' || c == '-' {
      assert c in sign || c in Zeros(k) || c in Digits(magnitude);
    }
  }
}
