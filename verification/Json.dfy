/**
 * JSON values, the compact text serde_json prints for them, and a reader of
 * such text. Numbers, booleans and null stand for themselves as literal text.
 */
module Json {
  import opened Sequences
  import opened Wrappers

  datatype Value =
    | Literal(text: string)
    | Text(text: string)
    | Array(items: Items)
    | Object(fields: Fields)

  datatype Items = NoItems | Item(head: Value, tail: Items)

  datatype Fields = NoFields | Field(name: string, value: Value, rest: Fields)

  /** A character outside any string, or a whole string. */
  datatype Token = Chr(c: char) | Str(text: string)

  predicate LiteralChar(c: char) {
    '0' <= c <= '9' || 'a' <= c <= 'z' || 'A' <= c <= 'Z' || c == '+' || c == '-' || c == '.'
  }

  predicate Printable(value: Value) {
    match value
    case Literal(text) => text != [] && forall c | c in text :: LiteralChar(c)
    case Text(_) => true
    case Array(items) => PrintableItems(items)
    case Object(fields) => PrintableFields(fields)
  }

  predicate PrintableItems(items: Items) {
    items.Item? ==> Printable(items.head) && PrintableItems(items.tail)
  }

  predicate PrintableFields(fields: Fields) {
    fields.Field? ==> Printable(fields.value) && PrintableFields(fields.rest)
  }

  // ------------------------------------------------------------------ printing

  function Chars(text: string): seq<Token> {
    seq(|text|, i requires 0 <= i < |text| => Chr(text[i]))
  }

  function Tokens(value: Value): (tokens: seq<Token>)
    ensures Printable(value) ==> tokens != []
  {
    match value
    case Literal(text) => Chars(text)
    case Text(text) => [Str(text)]
    case Array(items) => [Chr('[')] + ItemTokens(items) + [Chr(']')]
    case Object(fields) => [Chr('{')] + FieldTokens(fields) + [Chr('}')]
  }

  function ItemTokens(items: Items): seq<Token> {
    match items
    case NoItems => []
    case Item(head, tail) =>
      Tokens(head) + if tail.NoItems? then [] else [Chr(',')] + ItemTokens(tail)
  }

  function FieldTokens(fields: Fields): seq<Token> {
    match fields
    case NoFields => []
    case Field(name, value, rest) =>
      [Str(name), Chr(':')] + Tokens(value)
      + if rest.NoFields? then [] else [Chr(',')] + FieldTokens(rest)
  }

  function HexDigit(n: nat): char
    requires n < 16
  {
    if n < 10 then ('0' as int + n) as char else ('a' as int + n - 10) as char
  }

  function EscapeChar(c: char): (escaped: string) {
    if c == '\"' then "\\\""
    else if c == '\\' then "\\\\"
    else if c == '\U{8}' then "\\b"
    else if c == '\t' then "\\t"
    else if c == '\n' then "\\n"
    else if c == '\U{c}' then "\\f"
    else if c == '\r' then "\\r"
    else if c < ' ' then ['\\', 'u', '0', '0', HexDigit(c as int / 16), HexDigit(c as int % 16)]
    else [c]
  }

  function Escape(text: string): string {
    if text == [] then [] else EscapeChar(text[0]) + Escape(text[1..])
  }

  function TokenText(token: Token): string {
    match token
    case Chr(c) => [c]
    case Str(text) => "\"" + Escape(text) + "\""
  }

  function Print(tokens: seq<Token>): string {
    if tokens == [] then [] else TokenText(tokens[0]) + Print(tokens[1..])
  }

  // ------------------------------------------------- reading, RFC 8259 section 7

  function HexValue(c: char): Option<nat> {
    if '0' <= c <= '9' then Some(c as int - '0' as int)
    else if 'a' <= c <= 'f' then Some(c as int - 'a' as int + 10)
    else if 'A' <= c <= 'F' then Some(c as int - 'A' as int + 10)
    else None
  }

  function CodeUnit(text: string): (unit: Option<nat>)
    ensures unit.Some? ==> |text| >= 4 && unit.value < 0x10000
  {
    if |text| < 4 then None else
    match (HexValue(text[0]), HexValue(text[1]), HexValue(text[2]), HexValue(text[3]))
    case (Some(a), Some(b), Some(c), Some(d)) =>
      if a < 16 && b < 16 && c < 16 && d < 16 then Some(((a * 16 + b) * 16 + c) * 16 + d) else None
    case _ => None
  }

  /** The character one escape stands for, given what follows its backslash. */
  function Unescape(text: string): (r: Option<(char, string)>)
    ensures r.Some? ==> |r.value.1| < |text|
  {
    if text == [] then None
    else if text[0] == '\"' || text[0] == '\\' || text[0] == '/' then Some((text[0], text[1..]))
    else if text[0] == 'b' then Some(('\U{8}', text[1..]))
    else if text[0] == 'f' then Some(('\U{c}', text[1..]))
    else if text[0] == 'n' then Some(('\n', text[1..]))
    else if text[0] == 'r' then Some(('\r', text[1..]))
    else if text[0] == 't' then Some(('\t', text[1..]))
    else if text[0] != 'u' then None
    else match CodeUnit(text[1..])
      case None => None
      case Some(unit) =>
        if unit < 0xD800 || 0xE000 <= unit then Some((unit as char, text[5..]))
        else if unit < 0xDC00 && |text| > 7 && text[5] == '\\' && text[6] == 'u' then
          match CodeUnit(text[7..])
          case Some(low) =>
            if 0xDC00 <= low < 0xE000 then
              Some(((0x10000 + (unit - 0xD800) * 0x400 + (low - 0xDC00)) as char, text[11..]))
            else None
          case None => None
        else None
  }

  /** Reads a string past its opening quote, up to and including the closing one. */
  function ReadString(text: string): (r: Option<(string, string)>)
    ensures r.Some? ==> |r.value.1| < |text|
    decreases |text|
  {
    if text == [] || text[0] < ' ' then None
    else if text[0] == '\"' then Some(([], text[1..]))
    else
      var next := if text[0] == '\\' then Unescape(text[1..]) else Some((text[0], text[1..]));
      match next
      case None => None
      case Some((c, rest)) =>
        match ReadString(rest)
        case None => None
        case Some((s, after)) => Some(([c] + s, after))
  }

  function Lex(text: string): Option<seq<Token>>
    decreases |text|
  {
    if text == [] then Some([])
    else if text[0] == '\"' then
      match ReadString(text[1..])
      case None => None
      case Some((s, rest)) =>
        match Lex(rest)
        case None => None
        case Some(tokens) => Some([Str(s)] + tokens)
    else
      match Lex(text[1..])
      case None => None
      case Some(tokens) => Some([Chr(text[0])] + tokens)
  }

  function LiteralLength(tokens: seq<Token>): (n: nat)
    ensures n <= |tokens|
    ensures forall i | 0 <= i < n :: tokens[i].Chr?
  {
    if tokens != [] && tokens[0].Chr? && LiteralChar(tokens[0].c)
    then 1 + LiteralLength(tokens[1..]) else 0
  }

  function ParseValue(tokens: seq<Token>): (r: Option<(Value, seq<Token>)>)
    ensures r.Some? ==> |r.value.1| < |tokens|
    decreases |tokens|, 1
  {
    if tokens == [] then None
    else if tokens[0].Str? then Some((Text(tokens[0].text), tokens[1..]))
    else if tokens[0].c == '[' then
      if |tokens| > 1 && tokens[1] == Chr(']') then Some((Array(NoItems), tokens[2..]))
      else match ParseItems(tokens[1..])
        case None => None
        case Some((items, rest)) => Some((Array(items), rest))
    else if tokens[0].c == '{' then
      if |tokens| > 1 && tokens[1] == Chr('}') then Some((Object(NoFields), tokens[2..]))
      else match ParseFields(tokens[1..])
        case None => None
        case Some((fields, rest)) => Some((Object(fields), rest))
    else
      var n := LiteralLength(tokens);
      if n == 0 then None
      else Some((Literal(seq(n, i requires 0 <= i < n => tokens[i].c)), tokens[n..]))
  }

  /** One or more items up to and including the closing bracket. */
  function ParseItems(tokens: seq<Token>): (r: Option<(Items, seq<Token>)>)
    ensures r.Some? ==> |r.value.1| < |tokens|
    decreases |tokens|, 2
  {
    match ParseValue(tokens)
    case None => None
    case Some((head, rest)) =>
      if rest == [] then None
      else if rest[0] == Chr(']') then Some((Item(head, NoItems), rest[1..]))
      else if rest[0] != Chr(',') then None
      else match ParseItems(rest[1..])
        case None => None
        case Some((tail, after)) => Some((Item(head, tail), after))
  }

  /** One or more fields up to and including the closing brace. */
  function ParseFields(tokens: seq<Token>): (r: Option<(Fields, seq<Token>)>)
    ensures r.Some? ==> |r.value.1| < |tokens|
    decreases |tokens|, 2
  {
    if |tokens| < 2 || tokens[0].Chr? || tokens[1] != Chr(':') then None
    else match ParseValue(tokens[2..])
      case None => None
      case Some((value, rest)) =>
        if rest == [] then None
        else if rest[0] == Chr('}') then Some((Field(tokens[0].text, value, NoFields), rest[1..]))
        else if rest[0] != Chr(',') then None
        else match ParseFields(rest[1..])
          case None => None
          case Some((fields, after)) => Some((Field(tokens[0].text, value, fields), after))
  }

  function Decode(text: string): Option<Value> {
    match Lex(text)
    case None => None
    case Some(tokens) =>
      match ParseValue(tokens)
      case None => None
      case Some((value, rest)) => if rest == [] then Some(value) else None
  }

  // ----------------------------------------------------------- parsing undoes it

  /** What may follow a value: nothing that would lengthen a literal. */
  predicate Stops(rest: seq<Token>) {
    rest == [] || rest[0].Str? || !LiteralChar(rest[0].c)
  }

  lemma {:induction false} LiteralParses(text: string, rest: seq<Token>)
    requires forall c | c in text :: LiteralChar(c)
    requires Stops(rest)
    ensures LiteralLength(Chars(text) + rest) == |text|
  {
    if text == [] {
      assert Chars(text) + rest == rest;
    } else {
      var tokens := Chars(text) + rest;
      assert tokens[1..] == Chars(text[1..]) + rest;
      LiteralParses(text[1..], rest);
    }
  }

  lemma LiteralValueParses(text: string, rest: seq<Token>)
    requires Printable(Literal(text)) && Stops(rest)
    ensures ParseValue(Chars(text) + rest) == Some((Literal(text), rest))
  {
    var tokens := Chars(text) + rest;
    LiteralParses(text, rest);
    assert tokens[0] == Chr(text[0]) && LiteralChar(text[0]);
    assert seq(|text|, i requires 0 <= i < |text| => tokens[i].c) == text;
    assert tokens[|text|..] == rest;
  }

  lemma ArrayParses(items: Items, body: seq<Token>, rest: seq<Token>)
    requires items.Item? ==> body != [] && body[0] != Chr(']') && ParseItems(body) == Some((items, rest))
    requires items.NoItems? ==> body == [Chr(']')] + rest
    ensures ParseValue([Chr('[')] + body) == Some((Array(items), rest))
  {
    var tokens := [Chr('[')] + body;
    assert tokens[1..] == body;
    assert items.NoItems? ==> tokens[2..] == rest;
  }

  lemma ObjectParses(fields: Fields, body: seq<Token>, rest: seq<Token>)
    requires fields.Field? ==> body != [] && body[0].Str? && ParseFields(body) == Some((fields, rest))
    requires fields.NoFields? ==> body == [Chr('}')] + rest
    ensures ParseValue([Chr('{')] + body) == Some((Object(fields), rest))
  {
    var tokens := [Chr('{')] + body;
    assert tokens[1..] == body;
    assert fields.NoFields? ==> tokens[2..] == rest;
  }

  lemma {:induction false} ValueParses(value: Value, rest: seq<Token>)
    requires Printable(value) && Stops(rest)
    ensures ParseValue(Tokens(value) + rest) == Some((value, rest))
    decreases value, 1
  {
    match value
    case Literal(text) =>
      LiteralValueParses(text, rest);
    case Text(text) =>
      assert ([Str(text)] + rest)[1..] == rest;
    case Array(items) =>
      var body := ItemTokens(items) + [Chr(']')] + rest;
      if items.Item? {
        ItemsParse(items, rest);
        FirstToken(items.head);
      }
      ArrayParses(items, body, rest);
      Assoc4([Chr('[')], ItemTokens(items), [Chr(']')], rest);
    case Object(fields) =>
      var body := FieldTokens(fields) + [Chr('}')] + rest;
      if fields.Field? {
        FieldsParse(fields, rest);
      }
      ObjectParses(fields, body, rest);
      Assoc4([Chr('{')], FieldTokens(fields), [Chr('}')], rest);
  }

  lemma FirstToken(value: Value)
    requires Printable(value)
    ensures Tokens(value)[0] != Chr(']')
  {
    if value.Literal? { assert LiteralChar(value.text[0]); }
  }

  lemma {:induction false} ItemsParse(items: Items, rest: seq<Token>)
    requires items.Item? && PrintableItems(items)
    ensures ParseItems(ItemTokens(items) + [Chr(']')] + rest) == Some((items, rest))
    decreases items, 0
  {
    var tokens := ItemTokens(items) + [Chr(']')] + rest;
    if items.tail.NoItems? {
      assert tokens == Tokens(items.head) + ([Chr(']')] + rest);
      ValueParses(items.head, [Chr(']')] + rest);
      assert ([Chr(']')] + rest)[1..] == rest;
    } else {
      var after := [Chr(',')] + ItemTokens(items.tail) + [Chr(']')] + rest;
      assert tokens == Tokens(items.head) + after;
      ValueParses(items.head, after);
      assert after[1..] == ItemTokens(items.tail) + [Chr(']')] + rest;
      ItemsParse(items.tail, rest);
    }
  }

  function FieldsAfter(fields: Fields, rest: seq<Token>): seq<Token>
    requires fields.Field?
  {
    if fields.rest.NoFields? then [Chr('}')] + rest
    else [Chr(',')] + (FieldTokens(fields.rest) + [Chr('}')] + rest)
  }

  lemma FieldTokensAre(fields: Fields, rest: seq<Token>)
    requires fields.Field?
    ensures FieldTokens(fields) + [Chr('}')] + rest
         == [Str(fields.name), Chr(':')] + (Tokens(fields.value) + FieldsAfter(fields, rest))
  {
    var name, value := [Str(fields.name), Chr(':')], Tokens(fields.value);
    var more := if fields.rest.NoFields? then [] else [Chr(',')] + FieldTokens(fields.rest);
    Assoc(name, value, more);
    Assoc4(name, value + more, [Chr('}')], rest);
    Assoc4(value, more, [Chr('}')], rest);
    if fields.rest.NoFields? {
      assert more + [Chr('}')] + rest == [Chr('}')] + rest;
    } else {
      Assoc4([Chr(',')], FieldTokens(fields.rest), [Chr('}')], rest);
    }
  }

  lemma {:induction false} FieldsParse(fields: Fields, rest: seq<Token>)
    requires fields.Field? && PrintableFields(fields)
    ensures ParseFields(FieldTokens(fields) + [Chr('}')] + rest) == Some((fields, rest))
    decreases fields, 0
  {
    var after := FieldsAfter(fields, rest);
    FieldTokensAre(fields, rest);
    var body := Tokens(fields.value) + after;
    var tokens := [Str(fields.name), Chr(':')] + body;
    assert tokens[2..] == body;
    ValueParses(fields.value, after);
    if fields.rest.NoFields? {
      assert after[1..] == rest;
    } else {
      assert after[1..] == FieldTokens(fields.rest) + [Chr('}')] + rest;
      FieldsParse(fields.rest, rest);
    }
  }

  /** Any text that lexes to the tokens of a value decodes to that value. */
  lemma DecodesTokens(text: string, value: Value)
    requires Printable(value) && Lex(text) == Some(Tokens(value))
    ensures Decode(text) == Some(value)
  {
    assert Tokens(value) + [] == Tokens(value);
    ValueParses(value, []);
  }
}
