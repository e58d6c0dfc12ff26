/**
 * Framing untrusted text: one line of JSON between two marker lines. The line
 * is printed first and rewritten afterwards, and still has to decode to the
 * value while holding neither the closing marker nor any line break.
 */
module UntrustedText {
  import opened Sequences
  import opened Wrappers
  import opened Json

  const LINE_BREAKS: seq<(char, string)> :=
    [('\U{85}', "\\u0085"), ('\U{2028}', "\\u2028"), ('\U{2029}', "\\u2029")]

  datatype Boundary = Boundary(open: string, close: string, escapedClose: string)

  function WithMarker(marker: string): Boundary {
    Boundary("<data-" + marker + ">", "</data-" + marker + ">", "<\\/data-" + marker + ">")
  }

  /** What the rewriting relies on of the markers. */
  predicate Sound(b: Boundary) {
    && |b.open| > 1 && b.open[0] == '<' && b.open[1] != '/'
    && (forall i | 1 <= i < |b.open| :: Plain(b.open[i]))
    && |b.close| > 1 && b.close[0] == '<' && b.close[1] == '/'
    && (forall i | 1 <= i < |b.close| :: Plain(b.close[i]))
    && b.escapedClose == ['<', '\\'] + b.close[1..]
  }

  lemma WithMarkerIsSound(marker: string)
    requires PlainText(marker)
    ensures Sound(WithMarker(marker))
  {
    var b := WithMarker(marker);
    assert b.escapedClose == ['<', '\\'] + b.close[1..];
  }

  /** Every character some reader takes to end a line. */
  predicate EndsLine(c: char) {
    '\n' <= c <= '\r' || c == '\U{85}' || c == '\U{2028}' || c == '\U{2029}'
  }

  /** A character JSON prints as itself, and that starts no marker. */
  predicate Plain(c: char) {
    ' ' <= c && c != '\"' && c != '\\' && c != '<' && !EndsLine(c)
  }

  predicate PlainText(text: string) {
    forall i | 0 <= i < |text| :: Plain(text[i])
  }

  predicate HexMarker(marker: string) {
    |marker| == 16 && forall c | c in marker :: '0' <= c <= '9' || 'a' <= c <= 'f'
  }

  lemma HexMarkerIsPlain(marker: string)
    requires HexMarker(marker)
    ensures PlainText(marker)
  {
    forall i | 0 <= i < |marker| ensures Plain(marker[i]) {
      assert marker[i] in marker;
    }
  }

  /** A number in lower-case hexadecimal, zero-padded to a width, as the marker is drawn. */
  function HexDigits(n: nat, width: nat): string {
    if width == 0 then [] else HexDigits(n / 16, width - 1) + [HexDigit(n % 16)]
  }

  function Pow16(width: nat): nat {
    if width == 0 then 1 else 16 * Pow16(width - 1)
  }

  lemma {:induction false} HexDigitsAreHex(n: nat, width: nat)
    ensures |HexDigits(n, width)| == width
    ensures forall c | c in HexDigits(n, width) :: '0' <= c <= '9' || 'a' <= c <= 'f'
    decreases width
  {
    if width > 0 { HexDigitsAreHex(n / 16, width - 1); }
  }

  /** Two numbers that fit the width have the same digits only when they are the same. */
  lemma {:induction false} HexDigitsDiffer(m: nat, n: nat, width: nat)
    requires m < Pow16(width) && n < Pow16(width)
    ensures HexDigits(m, width) == HexDigits(n, width) <==> m == n
    decreases width
  {
    if width > 0 {
      HexDigitsDiffer(m / 16, n / 16, width - 1);
      var left, right := HexDigits(m / 16, width - 1), HexDigits(n / 16, width - 1);
      HexDigitsAreHex(m / 16, width - 1);
      HexDigitsAreHex(n / 16, width - 1);
      var one, other := left + [HexDigit(m % 16)], right + [HexDigit(n % 16)];
      assert one[..width - 1] == left && other[..width - 1] == right;
      assert one[width - 1] == HexDigit(m % 16) && other[width - 1] == HexDigit(n % 16);
    }
  }

  /** Whatever 64-bit number is drawn, its sixteen digits make a marker, and no other number makes the same. */
  lemma DrawnMarkers(m: nat, n: nat)
    requires m < 0x1_0000_0000_0000_0000 && n < 0x1_0000_0000_0000_0000
    ensures HexMarker(HexDigits(m, 16)) && HexMarker(HexDigits(n, 16))
    ensures HexDigits(m, 16) == HexDigits(n, 16) <==> m == n
  {
    HexDigitsAreHex(m, 16);
    HexDigitsAreHex(n, 16);
    SixteenDigits();
    HexDigitsDiffer(m, n, 16);
  }

  lemma SixteenDigits()
    ensures Pow16(16) == 0x1_0000_0000_0000_0000
  {
    assert Pow16(4) == 0x1_0000;
    assert Pow16(8) == 0x1_0000_0000;
    assert Pow16(12) == 0x1_0000_0000_0000;
  }

  // ------------------------------------------------------------ the text passes

  predicate Contains(text: string, pattern: string) {
    pattern <= text || (text != [] && Contains(text[1..], pattern))
  }

  /** Replaces every match, left to right, none overlapping. */
  function Replace(text: string, pattern: string, instead: string): string
    requires pattern != []
    decreases |text|
  {
    if text == [] then []
    else if pattern <= text then instead + Replace(text[|pattern|..], pattern, instead)
    else [text[0]] + Replace(text[1..], pattern, instead)
  }

  lemma {:induction false} ReplaceAbsent(text: string, pattern: string, instead: string)
    requires pattern != [] && !Contains(text, pattern)
    ensures Replace(text, pattern, instead) == text
  {
    if text != [] { ReplaceAbsent(text[1..], pattern, instead); }
  }

  lemma {:induction false} ReplaceSkips(x: string, y: string, pattern: string, instead: string)
    requires pattern != [] && pattern[0] !in x
    ensures Replace(x + y, pattern, instead) == x + Replace(y, pattern, instead)
  {
    if x == [] {
      assert x + y == y;
    } else {
      assert (x + y)[0] == x[0] && (x + y)[1..] == x[1..] + y;
      ReplaceSkips(x[1..], y, pattern, instead);
    }
  }

  lemma ReplaceCharStep(text: string, raw: char, instead: string)
    requires text != []
    ensures Replace(text, [raw], instead)
         == (if text[0] == raw then instead else [text[0]]) + Replace(text[1..], [raw], instead)
  {
    assert [raw] <= text <==> text[0] == raw;
  }

  lemma {:induction false} ReplaceCharJoins(x: string, y: string, raw: char, instead: string)
    ensures Replace(x + y, [raw], instead) == Replace(x, [raw], instead) + Replace(y, [raw], instead)
  {
    if x == [] {
      assert x + y == y;
    } else {
      assert (x + y)[0] == x[0] && (x + y)[1..] == x[1..] + y;
      ReplaceCharStep(x + y, raw, instead);
      ReplaceCharStep(x, raw, instead);
      ReplaceCharJoins(x[1..], y, raw, instead);
    }
  }

  // ----------------------------------------------------------- the single pass

  /** One character as it stands once the first `n` line breaks are escaped. */
  function EscapeUpTo(c: char, n: nat): string
    requires n <= |LINE_BREAKS|
  {
    if n > 0 && c == '\U{85}' then "\\u0085"
    else if n > 1 && c == '\U{2028}' then "\\u2028"
    else if n > 2 && c == '\U{2029}' then "\\u2029"
    else EscapeChar(c)
  }

  /** An escape is the character itself, or a backslash followed by safe ASCII. */
  lemma EscapeShape(c: char, n: nat)
    requires n <= |LINE_BREAKS|
    ensures var e := EscapeUpTo(c, n);
            && (e == [c] || (|e| > 1 && e[0] == '\\' && forall x | x in e :: ' ' <= x <= '~' && x != '<'))
            && (e == [c] ==> ' ' <= c && c != '\"' && c != '\\')
            && (n == 3 && e == [c] ==> !EndsLine(c))
            && (Plain(c) || c == '<' ==> e == [c])
            && EscapeUpTo(c, 0) == EscapeChar(c)
  {
  }

  function SafeBody(text: string, b: Boundary, n: nat): string
    requires b.close != [] && n <= |LINE_BREAKS|
    decreases |text|
  {
    if text == [] then []
    else if b.close <= text then
      b.escapedClose + SafeBody(text[|b.close|..], b, n)
    else EscapeUpTo(text[0], n) + SafeBody(text[1..], b, n)
  }

  function SafeToken(token: Token, b: Boundary, n: nat): string
    requires b.close != [] && n <= |LINE_BREAKS|
  {
    match token
    case Chr(c) => [c]
    case Str(text) => ['\"'] + SafeBody(text, b, n) + ['\"']
  }

  function SafePrint(tokens: seq<Token>, b: Boundary, n: nat): string
    requires b.close != [] && n <= |LINE_BREAKS|
  {
    if tokens == [] then []
    else SafeToken(tokens[0], b, n) + SafePrint(tokens[1..], b, n)
  }

  /** The line the frame holds, described in one pass over the value. */
  function SafeLine(value: Value, b: Boundary): string
    requires b.close != []
  {
    SafePrint(Tokens(value), b, |LINE_BREAKS|)
  }

  predicate PlainOutside(tokens: seq<Token>) {
    forall t | t in tokens && t.Chr? :: Plain(t.c)
  }

  lemma LiteralPlainOutside(text: string)
    requires Printable(Literal(text))
    ensures PlainOutside(Tokens(Literal(text)))
  {
    var tokens := Tokens(Literal(text));
    forall t | t in tokens ensures t.Chr? && Plain(t.c) {
      var i :| 0 <= i < |text| && t == Chr(text[i]);
      assert LiteralChar(text[i]);
    }
  }

  lemma {:induction false} TokensPlainOutside(value: Value)
    requires Printable(value)
    ensures PlainOutside(Tokens(value))
    decreases value
  {
    match value
    case Literal(text) => LiteralPlainOutside(text);
    case Text(_) =>
    case Array(items) =>
      ItemsPlainOutside(items);
      PlainAround([Chr('[')], ItemTokens(items), [Chr(']')]);
    case Object(fields) =>
      FieldsPlainOutside(fields);
      PlainAround([Chr('{')], FieldTokens(fields), [Chr('}')]);
  }

  lemma PlainAround(before: seq<Token>, tokens: seq<Token>, after: seq<Token>)
    requires PlainOutside(before) && PlainOutside(tokens) && PlainOutside(after)
    ensures PlainOutside(before + tokens + after)
  {
  }

  lemma {:induction false} ItemsPlainOutside(items: Items)
    requires PrintableItems(items)
    ensures PlainOutside(ItemTokens(items))
    decreases items
  {
    if items.Item? { TokensPlainOutside(items.head); ItemsPlainOutside(items.tail); }
  }

  lemma {:induction false} FieldsPlainOutside(fields: Fields)
    requires PrintableFields(fields)
    ensures PlainOutside(FieldTokens(fields))
    decreases fields
  {
    if fields.Field? { TokensPlainOutside(fields.value); FieldsPlainOutside(fields.rest); }
  }

  // ------------------------------------------- the passes make the single pass

  lemma SafeBodyStarts(text: string, b: Boundary, n: nat, after: string)
    requires Sound(b) && n <= |LINE_BREAKS|
    ensures var printed := SafeBody(text, b, n) + ['\"'] + after;
            && (text == [] ==> printed[0] == '\"')
            && (text != [] && b.close <= text ==> printed[0] == '<')
            && (text != [] && !(b.close <= text) ==>
                  printed == EscapeUpTo(text[0], n) + (SafeBody(text[1..], b, n) + ['\"'] + after))
  {
    if text != [] && !(b.close <= text) {
      Assoc4(EscapeUpTo(text[0], n), SafeBody(text[1..], b, n), ['\"'], after);
    }
  }

  lemma EscapeStarts(text: string, after: string)
    ensures var printed := Escape(text) + ['\"'] + after;
            && (text == [] ==> printed[0] == '\"')
            && (text != [] ==> printed == EscapeChar(text[0]) + (Escape(text[1..]) + ['\"'] + after))
  {
  }

  lemma {:induction false} PlainPrefixSurvives(text: string, prefix: string, b: Boundary, n: nat, after: string)
    requires Sound(b) && n <= |LINE_BREAKS| && PlainText(prefix)
    requires prefix <= SafeBody(text, b, n) + ['\"'] + after
    ensures prefix <= text
    decreases |text|
  {
    if prefix != [] {
      var printed := SafeBody(text, b, n) + ['\"'] + after;
      assert prefix[0] == printed[0];
      SafeBodyStarts(text, b, n, after);
      if text != [] {
        EscapeShape(text[0], n);
        assert printed[1..] == SafeBody(text[1..], b, n) + ['\"'] + after;
        PlainPrefixSurvives(text[1..], prefix[1..], b, n, after);
        assert prefix == [prefix[0]] + prefix[1..];
      }
    }
  }

  /** Where no closing marker is left to escape, a printed string is its plain escape. */
  lemma {:induction false} EscapeJoins(x: string, y: string)
    ensures Escape(x + y) == Escape(x) + Escape(y)
  {
    if x == [] {
      assert x + y == y;
    } else {
      assert (x + y)[0] == x[0] && (x + y)[1..] == x[1..] + y;
      EscapeJoins(x[1..], y);
    }
  }

  lemma {:induction false} PlainEscapes(text: string)
    requires forall i | 0 <= i < |text| :: Plain(text[i]) || text[i] == '<'
    ensures Escape(text) == text
  {
    if text != [] {
      EscapeShape(text[0], 0);
      PlainEscapes(text[1..]);
    }
  }

  lemma CloseEscapes(b: Boundary)
    requires Sound(b)
    ensures Escape(b.close) == b.close
  {
    PlainEscapes(b.close);
  }

  lemma {:induction false} PlainPrefixOfEscape(text: string, prefix: string, after: string)
    requires PlainText(prefix) && prefix <= Escape(text) + ['\"'] + after
    ensures prefix <= text
  {
    if prefix != [] {
      var printed := Escape(text) + ['\"'] + after;
      assert prefix[0] == printed[0];
      EscapeStarts(text, after);
      if text != [] {
        EscapeShape(text[0], 0);
        assert printed[1..] == Escape(text[1..]) + ['\"'] + after;
        PlainPrefixOfEscape(text[1..], prefix[1..], after);
        assert prefix == [prefix[0]] + prefix[1..];
      }
    }
  }

  /** Passing one character that starts no closing marker. */
  lemma CloseNotHere(text: string, b: Boundary, after: string)
    requires Sound(b) && text != [] && !(b.close <= text)
    ensures var tail := Escape(text[1..]) + ['\"'] + after;
            Replace(EscapeChar(text[0]) + tail, b.close, b.escapedClose)
            == EscapeChar(text[0]) + Replace(tail, b.close, b.escapedClose)
  {
    var tail := Escape(text[1..]) + ['\"'] + after;
    EscapeShape(text[0], 0);
    if text[0] == '<' {
      var printed := ['<'] + tail;
      assert printed[1..] == tail;
      assert text == ['<'] + text[1..] && b.close == ['<'] + b.close[1..];
      if b.close <= printed {
        PlainPrefixOfEscape(text[1..], b.close[1..], after);
      }
    } else {
      ReplaceSkips(EscapeChar(text[0]), tail, b.close, b.escapedClose);
    }
  }

  /** Passing one closing marker. */
  lemma CloseHere(text: string, b: Boundary, after: string)
    requires Sound(b) && b.close <= text
    ensures var tail := Escape(text[|b.close|..]) + ['\"'] + after;
            Replace(Escape(text) + ['\"'] + after, b.close, b.escapedClose)
            == b.escapedClose + Replace(tail, b.close, b.escapedClose)
  {
    var rest := text[|b.close|..];
    var tail := Escape(rest) + ['\"'] + after;
    assert text == b.close + rest;
    EscapeJoins(b.close, rest);
    CloseEscapes(b);
    Assoc4(b.close, Escape(rest), ['\"'], after);
    assert (b.close + tail)[|b.close|..] == tail;
  }

  /** Replacing the closing marker in a printed string. */
  lemma {:induction false} CloseReplacedInString(text: string, b: Boundary, after: string)
    requires Sound(b)
    ensures Replace(Escape(text) + ['\"'] + after, b.close, b.escapedClose)
         == SafeBody(text, b, 0) + Replace(['\"'] + after, b.close, b.escapedClose)
    decreases |text|
  {
    if text == [] {
      assert Escape(text) + ['\"'] + after == ['\"'] + after;
    } else if b.close <= text {
      CloseReplacedInString(text[|b.close|..], b, after);
      CloseStep(text, b, after);
    } else {
      CloseReplacedInString(text[1..], b, after);
      CharStep(text, b, after);
    }
  }

  lemma CloseStep(text: string, b: Boundary, after: string)
    requires Sound(b) && b.close <= text
    requires var rest := text[|b.close|..];
             Replace(Escape(rest) + ['\"'] + after, b.close, b.escapedClose)
               == SafeBody(rest, b, 0) + Replace(['\"'] + after, b.close, b.escapedClose)
    ensures Replace(Escape(text) + ['\"'] + after, b.close, b.escapedClose)
         == SafeBody(text, b, 0) + Replace(['\"'] + after, b.close, b.escapedClose)
  {
    var rest := text[|b.close|..];
    CloseHere(text, b, after);
    Assoc(b.escapedClose, SafeBody(rest, b, 0), Replace(['\"'] + after, b.close, b.escapedClose));
  }

  lemma CharStep(text: string, b: Boundary, after: string)
    requires Sound(b) && text != [] && !(b.close <= text)
    requires Replace(Escape(text[1..]) + ['\"'] + after, b.close, b.escapedClose)
               == SafeBody(text[1..], b, 0) + Replace(['\"'] + after, b.close, b.escapedClose)
    ensures Replace(Escape(text) + ['\"'] + after, b.close, b.escapedClose)
         == SafeBody(text, b, 0) + Replace(['\"'] + after, b.close, b.escapedClose)
  {
    CloseNotHere(text, b, after);
    EscapeShape(text[0], 0);
    EscapeStarts(text, after);
    Assoc(EscapeUpTo(text[0], 0), SafeBody(text[1..], b, 0), Replace(['\"'] + after, b.close, b.escapedClose));
  }

  lemma TokenReplaced(token: Token, b: Boundary, after: string)
    requires Sound(b) && PlainOutside([token])
    ensures Replace(TokenText(token) + after, b.close, b.escapedClose)
         == SafeToken(token, b, 0) + Replace(after, b.close, b.escapedClose)
  {
    assert token in [token];
    match token
    case Chr(c) =>
      ReplaceSkips([c], after, b.close, b.escapedClose);
    case Str(text) =>
      var body, tail := Escape(text), Escape(text) + ['\"'] + after;
      ReplaceSkips(['\"'], tail, b.close, b.escapedClose);
      CloseReplacedInString(text, b, after);
      ReplaceSkips(['\"'], after, b.close, b.escapedClose);
      Assoc4(['\"'], body, ['\"'], after);
      Assoc4(['\"'], SafeBody(text, b, 0), ['\"'], Replace(after, b.close, b.escapedClose));
  }

  lemma {:induction false} CloseReplaced(tokens: seq<Token>, b: Boundary)
    requires Sound(b) && PlainOutside(tokens)
    ensures Replace(Print(tokens), b.close, b.escapedClose) == SafePrint(tokens, b, 0)
  {
    if tokens != [] {
      assert tokens[0] in tokens;
      CloseReplaced(tokens[1..], b);
      TokenReplaced(tokens[0], b, Print(tokens[1..]));
    }
  }

  lemma ReplaceBreakInPlain(text: string, n: nat)
    requires n < |LINE_BREAKS| && LINE_BREAKS[n].0 !in text
    ensures Replace(text, [LINE_BREAKS[n].0], LINE_BREAKS[n].1) == text
  {
    ReplaceSkips(text, [], [LINE_BREAKS[n].0], LINE_BREAKS[n].1);
    assert text + [] == text;
  }

  lemma ReplaceBreakInChar(c: char, n: nat)
    requires n < |LINE_BREAKS|
    ensures Replace(EscapeUpTo(c, n), [LINE_BREAKS[n].0], LINE_BREAKS[n].1) == EscapeUpTo(c, n + 1)
  {
    var (raw, escaped) := LINE_BREAKS[n];
    EscapeShape(c, n);
    if EscapeUpTo(c, n) == [raw] {
      ReplaceCharStep([raw], raw, escaped);
      assert escaped + [] == escaped;
    } else {
      ReplaceBreakInPlain(EscapeUpTo(c, n), n);
    }
  }

  lemma EscapedCloseHoldsNoBreak(b: Boundary)
    requires Sound(b)
    ensures forall c | c in b.escapedClose :: !EndsLine(c)
  {
    assert forall i | 2 <= i < |b.escapedClose| :: b.escapedClose[i] == b.close[i - 1];
  }

  lemma {:induction false} BreakReplacedInString(text: string, b: Boundary, n: nat)
    requires Sound(b) && n < |LINE_BREAKS|
    ensures Replace(SafeBody(text, b, n), [LINE_BREAKS[n].0], LINE_BREAKS[n].1) == SafeBody(text, b, n + 1)
    decreases |text|
  {
    var (raw, escaped) := LINE_BREAKS[n];
    if text == [] {
    } else if b.close <= text {
      var rest := text[|b.close|..];
      BreakReplacedInString(rest, b, n);
      ReplaceCharJoins(b.escapedClose, SafeBody(rest, b, n), raw, escaped);
      EscapedCloseHoldsNoBreak(b);
      ReplaceBreakInPlain(b.escapedClose, n);
    } else {
      BreakReplacedInString(text[1..], b, n);
      ReplaceCharJoins(EscapeUpTo(text[0], n), SafeBody(text[1..], b, n), raw, escaped);
      ReplaceBreakInChar(text[0], n);
    }
  }

  lemma {:induction false} BreakReplaced(tokens: seq<Token>, b: Boundary, n: nat)
    requires Sound(b) && PlainOutside(tokens) && n < |LINE_BREAKS|
    ensures Replace(SafePrint(tokens, b, n), [LINE_BREAKS[n].0], LINE_BREAKS[n].1)
         == SafePrint(tokens, b, n + 1)
  {
    var (raw, escaped) := LINE_BREAKS[n];
    if tokens != [] {
      assert tokens[0] in tokens;
      BreakReplaced(tokens[1..], b, n);
      ReplaceCharJoins(SafeToken(tokens[0], b, n), SafePrint(tokens[1..], b, n), raw, escaped);
      match tokens[0]
      case Chr(c) =>
        ReplaceBreakInPlain([c], n);
      case Str(text) =>
        ReplaceCharJoins(['\"'] + SafeBody(text, b, n), ['\"'], raw, escaped);
        ReplaceCharJoins(['\"'], SafeBody(text, b, n), raw, escaped);
        ReplaceBreakInPlain(['\"'], n);
        BreakReplacedInString(text, b, n);
    }
  }

  function Frame(b: Boundary, line: string): string {
    b.open + ['\n'] + line + ['\n'] + b.close
  }

  /** The frame, built by replacing in the whole line what the printer left in it. */
  method Enclose(value: Value, b: Boundary) returns (frame: string)
    requires Printable(value) && Sound(b)
    ensures frame == Frame(b, SafeLine(value, b))
  {
    var tokens := Tokens(value);
    TokensPlainOutside(value);
    var line := Print(tokens);
    CloseReplaced(tokens, b);
    if Contains(line, b.close) {
      line := Replace(line, b.close, b.escapedClose);
    } else {
      ReplaceAbsent(line, b.close, b.escapedClose);
    }
    for n := 0 to |LINE_BREAKS|
      invariant line == SafePrint(tokens, b, n)
    {
      var (raw, escaped) := LINE_BREAKS[n];
      BreakReplaced(tokens, b, n);
      if Contains(line, [raw]) {
        line := Replace(line, [raw], escaped);
      } else {
        ReplaceAbsent(line, [raw], escaped);
      }
    }
    frame := b.open + ['\n'] + line + ['\n'] + b.close;
  }

  // ---------------------------------------------------- the line decodes back

  /** `text` reads as `s` followed by whatever `rest` reads as. */
  ghost predicate ReadsAs(text: string, s: string, rest: string) {
    && ReadString(rest).Some?
    && ReadString(text) == Some((s + ReadString(rest).value.0, ReadString(rest).value.1))
  }

  lemma ReadsThen(x: string, first: string, middle: string, second: string, rest: string)
    requires ReadsAs(x + middle, first, middle) && ReadsAs(middle, second, rest)
    ensures ReadsAs(x + middle, first + second, rest)
  {
    var s := ReadString(rest).value.0;
    assert first + (second + s) == first + second + s;
  }

  lemma PlainCharReads(c: char, rest: string)
    requires ' ' <= c && c != '\"' && c != '\\' && ReadString(rest).Some?
    ensures ReadsAs([c] + rest, [c], rest)
  {
    assert ([c] + rest)[1..] == rest;
  }

  lemma {:induction false} PlainReads(text: string, rest: string)
    requires PlainText(text) && ReadString(rest).Some?
    ensures ReadsAs(text + rest, text, rest)
  {
    if text == [] {
      assert text + rest == rest;
      assert [] + ReadString(rest).value.0 == ReadString(rest).value.0;
    } else {
      PlainReads(text[1..], rest);
      PlainCharReads(text[0], text[1..] + rest);
      ReadsThen([text[0]], [text[0]], text[1..] + rest, text[1..], rest);
      assert [text[0]] + text[1..] == text;
      assert [text[0]] + (text[1..] + rest) == text + rest;
    }
  }

  lemma ShortEscapeReads(code: char, c: char, rest: string)
    requires ReadString(rest).Some?
    requires Unescape([code] + rest) == Some((c, rest))
    ensures ReadsAs(['\\', code] + rest, [c], rest)
  {
    assert (['\\', code] + rest)[1..] == [code] + rest;
  }

  lemma UnicodeEscapeReads(a: char, b: char, c: char, d: char, unit: nat, rest: string)
    requires ReadString(rest).Some? && unit < 0xD800
    requires CodeUnit([a, b, c, d] + rest) == Some(unit)
    ensures ReadsAs(['\\', 'u', a, b, c, d] + rest, [unit as char], rest)
  {
    var text := ['\\', 'u', a, b, c, d] + rest;
    assert text[1..] == ['u', a, b, c, d] + rest;
    assert text[1..][1..] == [a, b, c, d] + rest;
    assert text[1..][5..] == rest;
  }

  lemma BreakReads(c: char, rest: string)
    requires ReadString(rest).Some? && (c == '\U{85}' || c == '\U{2028}' || c == '\U{2029}')
    ensures ReadsAs(EscapeUpTo(c, 3) + rest, [c], rest)
  {
    if c == '\U{85}' {
      UnicodeEscapeReads('0', '0', '8', '5', 0x85, rest);
    } else if c == '\U{2028}' {
      UnicodeEscapeReads('2', '0', '2', '8', 0x2028, rest);
    } else {
      UnicodeEscapeReads('2', '0', '2', '9', 0x2029, rest);
    }
  }

  lemma ControlReads(c: char, rest: string)
    requires ReadString(rest).Some? && c < ' '
    ensures var high, low := HexDigit(c as int / 16), HexDigit(c as int % 16);
            ReadsAs(['\\', 'u', '0', '0', high, low] + rest, [c], rest)
  {
    var high, low := HexDigit(c as int / 16), HexDigit(c as int % 16);
    assert HexValue(high) == Some(c as int / 16) && HexValue(low) == Some(c as int % 16);
    UnicodeEscapeReads('0', '0', high, low, c as int, rest);
  }

  lemma ShortReads(c: char, rest: string)
    requires ReadString(rest).Some? && |EscapeChar(c)| == 2
    ensures ReadsAs(EscapeChar(c) + rest, [c], rest)
  {
    var code := EscapeChar(c)[1];
    assert ([code] + rest)[1..] == rest;
    ShortEscapeReads(code, c, rest);
    assert EscapeChar(c) == ['\\', code];
  }

  predicate IsBreak(c: char) {
    c == '\U{85}' || c == '\U{2028}' || c == '\U{2029}'
  }

  /** A character is a line break, plain, a control written in hex, or one with a short escape. */
  lemma EscapeKinds(c: char)
    ensures !IsBreak(c) ==> EscapeUpTo(c, 3) == EscapeChar(c)
    ensures |EscapeChar(c)| != 2 && c < ' ' ==>
              EscapeChar(c) == ['\\', 'u', '0', '0', HexDigit(c as int / 16), HexDigit(c as int % 16)]
    ensures |EscapeChar(c)| != 2 && !(c < ' ') ==> EscapeChar(c) == [c] && c != '\"' && c != '\\'
  {
  }

  lemma EscapedCharReads(c: char, rest: string)
    requires ReadString(rest).Some?
    ensures ReadsAs(EscapeUpTo(c, 3) + rest, [c], rest)
  {
    if IsBreak(c) {
      BreakReads(c, rest);
    } else {
      EscapeKinds(c);
      UnbrokenCharReads(c, rest);
    }
  }

  lemma UnbrokenCharReads(c: char, rest: string)
    requires ReadString(rest).Some?
    ensures ReadsAs(EscapeChar(c) + rest, [c], rest)
  {
    EscapeKinds(c);
    if |EscapeChar(c)| == 2 {
      ShortReads(c, rest);
    } else if c < ' ' {
      ControlReads(c, rest);
    } else {
      PlainCharReads(c, rest);
    }
  }

  lemma SlashReads(tail: string, rest: string)
    requires PlainText(tail) && ReadString(rest).Some?
    ensures ReadsAs(['\\', '/'] + (tail + rest), ['/'] + tail, rest)
  {
    PlainReads(tail, rest);
    assert (['/'] + (tail + rest))[1..] == tail + rest;
    ShortEscapeReads('/', '/', tail + rest);
    ReadsThen(['\\', '/'], ['/'], tail + rest, tail, rest);
  }

  lemma AngleReads(body: string, tail: string, rest: string)
    requires PlainText(tail) && ReadString(rest).Some? && body == ['\\', '/'] + (tail + rest)
    ensures ReadsAs(['<'] + body, ['<'] + (['/'] + tail), rest)
  {
    SlashReads(tail, rest);
    PlainCharReads('<', body);
    ReadsThen(['<'], ['<'], body, ['/'] + tail, rest);
  }

  lemma EscapedCloseReads(b: Boundary, rest: string)
    requires Sound(b) && ReadString(rest).Some?
    ensures ReadsAs(b.escapedClose + rest, b.close, rest)
  {
    var tail := b.close[2..];
    AngleReads(['\\', '/'] + (tail + rest), tail, rest);
    assert ['<'] + (['/'] + tail) == b.close;
    assert b.escapedClose == ['<'] + ['\\', '/'] + tail;
    Assoc4(['<'], ['\\', '/'], tail, rest);
  }

  lemma {:induction false} SafeBodyReads(text: string, b: Boundary, after: string)
    requires Sound(b)
    ensures ReadString(SafeBody(text, b, 3) + ['\"'] + after) == Some((text, after))
    decreases |text|
  {
    var printed := SafeBody(text, b, 3) + ['\"'] + after;
    if text == [] {
      assert printed == ['\"'] + after;
      assert printed[1..] == after;
    } else {
      var closes := b.close <= text;
      var head := if closes then b.close else [text[0]];
      var escaped := if closes then b.escapedClose else EscapeUpTo(text[0], 3);
      var rest := text[|head|..];
      var tail := SafeBody(rest, b, 3) + ['\"'] + after;
      assert text == head + rest;
      Assoc4(escaped, SafeBody(rest, b, 3), ['\"'], after);
      SafeBodyReads(rest, b, after);
      if closes { EscapedCloseReads(b, tail); } else { EscapedCharReads(text[0], tail); }
    }
  }

  lemma CharLexes(c: char, after: string)
    requires c != '\"' && Lex(after).Some?
    ensures Lex([c] + after) == Some([Chr(c)] + Lex(after).value)
  {
    assert ([c] + after)[1..] == after;
  }

  lemma StringLexes(body: string, text: string, after: string)
    requires ReadString(body) == Some((text, after)) && Lex(after).Some?
    ensures Lex(['\"'] + body) == Some([Str(text)] + Lex(after).value)
  {
    assert (['\"'] + body)[1..] == body;
  }

  lemma TokenLexes(token: Token, b: Boundary, after: string)
    requires Sound(b) && PlainOutside([token]) && Lex(after).Some?
    ensures Lex(SafeToken(token, b, 3) + after) == Some([token] + Lex(after).value)
  {
    assert token in [token];
    match token
    case Chr(c) =>
      CharLexes(c, after);
    case Str(text) =>
      SafeBodyReads(text, b, after);
      var body := SafeBody(text, b, 3);
      StringLexes(body + ['\"'] + after, text, after);
      Assoc4(['\"'], body, ['\"'], after);
  }

  lemma {:induction false} SafePrintLexes(tokens: seq<Token>, b: Boundary)
    requires Sound(b) && PlainOutside(tokens)
    ensures Lex(SafePrint(tokens, b, 3)) == Some(tokens)
  {
    if tokens != [] {
      assert tokens[0] in tokens;
      SafePrintLexes(tokens[1..], b);
      TokenLexes(tokens[0], b, SafePrint(tokens[1..], b, 3));
      assert tokens == [tokens[0]] + tokens[1..];
    }
  }

  /** The rewritten line still decodes to the value it was printed from. */
  lemma SafeLineDecodes(value: Value, b: Boundary)
    requires Printable(value) && Sound(b)
    ensures Decode(SafeLine(value, b)) == Some(value)
  {
    TokensPlainOutside(value);
    SafePrintLexes(Tokens(value), b);
    DecodesTokens(SafeLine(value, b), value);
  }

  // --------------------------------------- the line holds no break and no marker

  lemma {:induction false} SafeBodyOnOneLine(text: string, b: Boundary)
    requires Sound(b)
    ensures forall c | c in SafeBody(text, b, 3) :: !EndsLine(c)
    decreases |text|
  {
    if text == [] {
    } else if b.close <= text {
      EscapedCloseHoldsNoBreak(b);
      SafeBodyOnOneLine(text[|b.close|..], b);
    } else {
      EscapeShape(text[0], 3);
      SafeBodyOnOneLine(text[1..], b);
    }
  }

  lemma {:induction false} SafePrintOnOneLine(tokens: seq<Token>, b: Boundary)
    requires Sound(b) && PlainOutside(tokens)
    ensures forall c | c in SafePrint(tokens, b, 3) :: !EndsLine(c)
  {
    if tokens != [] {
      assert tokens[0] in tokens;
      SafePrintOnOneLine(tokens[1..], b);
      if tokens[0].Str? { SafeBodyOnOneLine(tokens[0].text, b); }
    }
  }

  /** `pattern` stands at position `i` of `text`. */
  predicate At(text: string, pattern: string, i: int) {
    0 <= i && i + |pattern| <= |text| && text[i..i + |pattern|] == pattern
  }

  ghost predicate Nowhere(text: string, pattern: string) {
    forall i :: !At(text, pattern, i)
  }

  lemma AtMoves(x: string, y: string, pattern: string, i: int)
    requires |x| <= i
    ensures At(x + y, pattern, i) <==> At(y, pattern, i - |x|)
  {
    if i + |pattern| <= |x + y| {
      assert (x + y)[i..i + |pattern|] == y[i - |x|..i - |x| + |pattern|];
    }
  }

  lemma NowhereJoins(x: string, y: string, pattern: string)
    requires Nowhere(y, pattern)
    requires forall i | 0 <= i < |x| :: !At(x + y, pattern, i)
    ensures Nowhere(x + y, pattern)
  {
    forall i ensures !At(x + y, pattern, i) {
      if |x| <= i { AtMoves(x, y, pattern, i); }
    }
  }

  lemma StartsWith(text: string, pattern: string, i: int)
    requires |pattern| > 1 && At(text, pattern, i)
    ensures text[i] == pattern[0] && text[i + 1] == pattern[1]
    ensures pattern[1..] <= text[i + 1..]
  {
    assert text[i..i + |pattern|][0] == text[i];
    assert text[i..i + |pattern|][1] == text[i + 1];
    assert text[i + 1..][..|pattern| - 1] == text[i..i + |pattern|][1..];
  }

  lemma CharHidesClose(c: char, after: string, b: Boundary)
    requires Sound(b) && c != '<' && Nowhere(after, b.close)
    ensures Nowhere([c] + after, b.close)
  {
    if At([c] + after, b.close, 0) { StartsWith([c] + after, b.close, 0); }
    NowhereJoins([c], after, b.close);
  }

  /** One step of the single pass leaves no closing marker that starts in it. */
  lemma StepHidesClose(text: string, b: Boundary, after: string)
    requires Sound(b) && text != [] && !(b.close <= text)
    requires Nowhere(SafeBody(text[1..], b, 3) + ['\"'] + after, b.close)
    ensures Nowhere(EscapeUpTo(text[0], 3) + (SafeBody(text[1..], b, 3) + ['\"'] + after), b.close)
  {
    var head, tail := EscapeUpTo(text[0], 3), SafeBody(text[1..], b, 3) + ['\"'] + after;
    EscapeShape(text[0], 3);
    assert text == [text[0]] + text[1..] && b.close == ['<'] + b.close[1..];
    assert head == [text[0]] ==> (head + tail)[1..] == tail;
    forall i | 0 <= i < |head| ensures !At(head + tail, b.close, i) {
      assert head[i] in head && head[i] == (head + tail)[i];
      if At(head + tail, b.close, i) {
        StartsWith(head + tail, b.close, i);
        PlainPrefixSurvives(text[1..], b.close[1..], b, 3, after);
      }
    }
    NowhereJoins(head, tail, b.close);
  }

  lemma EscapedCloseHidesClose(b: Boundary, tail: string)
    requires Sound(b) && Nowhere(tail, b.close)
    ensures Nowhere(b.escapedClose + tail, b.close)
  {
    var head := b.escapedClose;
    assert forall i | 2 <= i < |head| :: head[i] == b.close[i - 1];
    forall i | 0 <= i < |head| ensures !At(head + tail, b.close, i) {
      assert head[i] == (head + tail)[i];
      if At(head + tail, b.close, i) { StartsWith(head + tail, b.close, i); }
    }
    NowhereJoins(head, tail, b.close);
  }

  lemma {:induction false} SafeBodyHidesClose(text: string, b: Boundary, after: string)
    requires Sound(b) && Nowhere(['\"'] + after, b.close)
    ensures Nowhere(SafeBody(text, b, 3) + ['\"'] + after, b.close)
    decreases |text|
  {
    if text == [] {
      assert SafeBody(text, b, 3) + ['\"'] + after == ['\"'] + after;
    } else if b.close <= text {
      var rest := text[|b.close|..];
      SafeBodyHidesClose(rest, b, after);
      EscapedCloseHidesClose(b, SafeBody(rest, b, 3) + ['\"'] + after);
      Assoc4(b.escapedClose, SafeBody(rest, b, 3), ['\"'], after);
    } else {
      SafeBodyHidesClose(text[1..], b, after);
      StepHidesClose(text, b, after);
      Assoc4(EscapeUpTo(text[0], 3), SafeBody(text[1..], b, 3), ['\"'], after);
    }
  }

  lemma {:induction false} SafePrintHidesClose(tokens: seq<Token>, b: Boundary)
    requires Sound(b) && PlainOutside(tokens)
    ensures Nowhere(SafePrint(tokens, b, 3), b.close)
  {
    if tokens != [] {
      assert tokens[0] in tokens;
      SafePrintHidesClose(tokens[1..], b);
      var after := SafePrint(tokens[1..], b, 3);
      match tokens[0]
      case Chr(c) =>
        CharHidesClose(c, after, b);
      case Str(text) =>
        CharHidesClose('\"', after, b);
        SafeBodyHidesClose(text, b, after);
        CharHidesClose('\"', SafeBody(text, b, 3) + ['\"'] + after, b);
        Assoc4(['\"'], SafeBody(text, b, 3), ['\"'], after);
    }
  }

  // ------------------------------------------------------------------ the frame

  /** The lines of a text, cut wherever some reader would cut it. */
  function Lines(text: string): (lines: seq<string>)
    ensures lines != []
  {
    if text == [] then [[]]
    else
      var rest := Lines(text[1..]);
      if EndsLine(text[0]) then [[]] + rest else [[text[0]] + rest[0]] + rest[1..]
  }

  lemma {:induction false} FirstLine(line: string, rest: string)
    requires forall c | c in line :: !EndsLine(c)
    ensures Lines(line + ['\n'] + rest) == [line] + Lines(rest)
  {
    if line == [] {
      assert line + ['\n'] + rest == ['\n'] + rest;
      assert (['\n'] + rest)[1..] == rest;
    } else {
      assert (line + ['\n'] + rest)[1..] == line[1..] + ['\n'] + rest;
      FirstLine(line[1..], rest);
      assert [line[0]] + line[1..] == line;
    }
  }

  lemma {:induction false} LastLine(line: string)
    requires forall c | c in line :: !EndsLine(c)
    ensures Lines(line) == [line]
  {
    if line != [] {
      LastLine(line[1..]);
      assert [line[0]] + line[1..] == line;
    }
  }

  lemma MarkersOnOneLine(b: Boundary)
    requires Sound(b)
    ensures forall c | c in b.open || c in b.close :: !EndsLine(c)
  {
  }

  /**
   * The frame is three lines, the middle one decodes to the value, and the
   * closing marker stands nowhere but at the end.
   */
  lemma FrameHolds(value: Value, b: Boundary)
    requires Printable(value) && Sound(b)
    ensures var frame := Frame(b, SafeLine(value, b));
            && Lines(frame) == [b.open, SafeLine(value, b), b.close]
            && Decode(Lines(frame)[1]) == Some(value)
            && forall i :: At(frame, b.close, i) <==> i == |frame| - |b.close|
  {
    var line := SafeLine(value, b);
    TokensPlainOutside(value);
    SafePrintOnOneLine(Tokens(value), b);
    SafeLineDecodes(value, b);
    MarkersOnOneLine(b);
    assert Frame(b, line) == b.open + ['\n'] + (line + ['\n'] + b.close);
    FirstLine(b.open, line + ['\n'] + b.close);
    FirstLine(line, b.close);
    LastLine(b.close);
    SafePrintHidesClose(Tokens(value), b);
    forall i ensures At(Frame(b, line), b.close, i) <==> i == |Frame(b, line)| - |b.close| {
      OnlyClosesAtEnd(line, b, i);
    }
  }

  lemma OnlyClosesAtEnd(line: string, b: Boundary, i: int)
    requires Sound(b) && Nowhere(line, b.close)
    ensures At(Frame(b, line), b.close, i) <==> i == |Frame(b, line)| - |b.close|
  {
    var start, frame := b.open + ['\n'], Frame(b, line);
    var last := |frame| - |b.close|;
    assert frame == start + (line + ['\n'] + b.close);
    assert frame[last..last + |b.close|] == b.close;
    assert forall j | 0 <= j < |b.open| :: frame[j] == b.open[j];
    assert frame[|b.open|] == '\n';
    if At(frame, b.close, i) && i < last {
      StartsWith(frame, b.close, i);
      if |start| <= i {
        AtMoves(start, line + ['\n'] + b.close, b.close, i);
        BreakIsOutsideClose(line, b, i - |start|);
      }
    }
  }

  lemma AtHolds(text: string, pattern: string, i: nat, j: nat)
    requires At(text, pattern, i) && j < |pattern|
    ensures text[i + j] == pattern[j]
  {
    assert text[i..i + |pattern|][j] == text[i + j];
  }

  lemma BreakIsOutsideClose(line: string, b: Boundary, i: int)
    requires Sound(b) && 0 <= i <= |line| && At(line + ['\n'] + b.close, b.close, i)
    ensures At(line, b.close, i)
  {
    var text := line + ['\n'] + b.close;
    assert text[|line|] == '\n';
    if i + |b.close| <= |line| {
      assert text[i..i + |b.close|] == line[i..i + |b.close|];
    } else {
      AtHolds(text, b.close, i, |line| - i);
    }
  }

  /** The marker the server draws, sixteen hex digits, satisfies all of this. */
  lemma HexFrameHolds(value: Value, marker: string)
    requires Printable(value) && HexMarker(marker)
    ensures var b := WithMarker(marker);
            var frame, close := Frame(b, SafeLine(value, b)), "</data-" + marker + ">";
            && Sound(b)
            && Lines(frame) == ["<data-" + marker + ">", SafeLine(value, b), close]
            && Decode(SafeLine(value, b)) == Some(value)
            && forall i :: At(frame, close, i) <==> i == |frame| - |close|
  {
    HexMarkerIsPlain(marker);
    WithMarkerIsSound(marker);
    FrameHolds(value, WithMarker(marker));
  }

  /** The frame drawn for a marker, from the marker alone. */
  ghost predicate IsFramed(frame: string, line: string, marker: string) {
    var close := "</data-" + marker + ">";
    && frame == "<data-" + marker + ">" + "\n" + line + "\n" + close
    && (forall c | c in line :: c !in {'\n', '\U{b}', '\U{c}', '\r', '\U{85}', '\U{2028}', '\U{2029}'})
    && (forall before, after | frame == before + close + after :: after == "")
  }

  /**
   * The marker opens the first line and closes the last, the line between them holds no line
   * break and decodes to the value, and the closing line of the marker stands only at the end.
   */
  lemma MarkerFrames(value: Value, marker: string)
    requires Printable(value) && HexMarker(marker)
    ensures var b := WithMarker(marker);
            IsFramed(Frame(b, SafeLine(value, b)), SafeLine(value, b), marker)
    ensures Decode(SafeLine(value, WithMarker(marker))) == Some(value)
  {
    var b := WithMarker(marker);
    var frame := Frame(b, SafeLine(value, b));
    HexFrameHolds(value, marker);
    LineHasNoBreak(value, marker);
    forall before, after | frame == before + b.close + after ensures after == "" {
      ClosesOnce(frame, b.close, before, after);
    }
  }

  lemma LineHasNoBreak(value: Value, marker: string)
    requires Printable(value) && HexMarker(marker)
    ensures forall c | c in SafeLine(value, WithMarker(marker)) ::
              c !in {'\n', '\U{b}', '\U{c}', '\r', '\U{85}', '\U{2028}', '\U{2029}'}
  {
    HexMarkerIsPlain(marker);
    WithMarkerIsSound(marker);
    TokensPlainOutside(value);
    SafePrintOnOneLine(Tokens(value), WithMarker(marker));
  }

  lemma ClosesOnce(frame: string, close: string, before: string, after: string)
    requires frame == before + close + after
    requires forall i :: At(frame, close, i) <==> i == |frame| - |close|
    ensures after == ""
  {
    assert frame[|before|..|before| + |close|] == close;
    assert At(frame, close, |before|);
  }

  /** What closes another frame never ends this one, so only the marker drawn for it does. */
  lemma OtherMarkerDoesNotEnd(frame: string, line: string, marker: string, other: string)
    requires HexMarker(marker) && HexMarker(other) && other != marker && IsFramed(frame, line, marker)
    ensures var foreign := "</data-" + other + ">";
            |foreign| <= |frame| && frame[|frame| - |foreign|..] != foreign
  {
    var close, foreign := "</data-" + marker + ">", "</data-" + other + ">";
    assert close[7..23] == marker && foreign[7..23] == other;
    assert frame[|frame| - |close|..] == close;
  }

  // -------------------------------------------------------------------- clipping

  /** The first `budget` characters, and whether any were left out. */
  function Clip(text: string, budget: nat): (string, bool) {
    if budget < |text| then (text[..budget], true) else (text, false)
  }

  /** Clipping keeps the longest prefix within budget and says when it cut. */
  lemma ClipKeepsLongestPrefix(text: string, budget: nat, other: string)
    ensures var (kept, cut) := Clip(text, budget);
            && kept <= text && |kept| <= budget && (cut <==> kept != text)
            && (other <= text && |other| <= budget ==> other <= kept)
  {
    if other <= text && |other| <= budget {
      assert text[..|other|] == other;
    }
  }
}
