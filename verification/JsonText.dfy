/** The compact JSON text of sections 6 and 7 of RFC 8259 as `serde_json::to_vec` prints it, and a
    parser that undoes it. */
module JsonText {
  import opened Json

  // -------------------------------------------------------------------------------------- numbers

  predicate IsDigit(c: char) {
    '0' <= c <= '9'
  }

  function DigitChar(d: nat): (c: char)
    requires d < 10
    ensures IsDigit(c) && DigitValue(c) == d
  {
    ('0' as int + d) as char
  }

  function DigitValue(c: char): nat
    requires IsDigit(c)
  {
    c as int - '0' as int
  }

  function Digits(n: nat): (r: string)
    ensures r != [] && forall i :: 0 <= i < |r| ==> IsDigit(r[i])
  {
    if n < 10 then [DigitChar(n)] else Digits(n / 10) + [DigitChar(n % 10)]
  }

  function IntText(n: int): string {
    if n < 0 then ['-'] + Digits(-n) else Digits(n)
  }

  /** The number of leading digits. */
  function DigitSpan(s: string): (k: nat)
    ensures k <= |s| && forall i :: 0 <= i < k ==> IsDigit(s[i])
  {
    if s == [] || !IsDigit(s[0]) then 0 else 1 + DigitSpan(s[1..])
  }

  function DigitsValue(s: string): nat
    requires forall i :: 0 <= i < |s| ==> IsDigit(s[i])
  {
    if s == [] then 0 else DigitsValue(s[..|s| - 1]) * 10 + DigitValue(s[|s| - 1])
  }

  predicate EndsNumber(rest: string) {
    rest == [] || !IsDigit(rest[0])
  }

  lemma {:induction false} SpanOfDigits(ds: string, rest: string)
    requires (forall i :: 0 <= i < |ds| ==> IsDigit(ds[i])) && EndsNumber(rest)
    ensures DigitSpan(ds + rest) == |ds|
    decreases |ds|
  {
    if ds == [] {
      assert ds + rest == rest;
    } else {
      assert (ds + rest)[1..] == ds[1..] + rest;
      SpanOfDigits(ds[1..], rest);
    }
  }

  lemma {:induction false} ValueOfDigits(n: nat)
    ensures DigitsValue(Digits(n)) == n
    decreases n
  {
    if n >= 10 {
      ValueOfDigits(n / 10);
      assert Digits(n)[..|Digits(n)| - 1] == Digits(n / 10);
    } else {
      assert Digits(n)[..0] == [];
    }
  }

  /** No leading zeros: section 6 of RFC 8259. */
  lemma {:induction false} NoLeadingZero(n: nat)
    ensures Digits(n)[0] == '0' ==> n == 0
    ensures n < 10 ==> |Digits(n)| == 1
    decreases n
  {
    if n >= 10 {
      NoLeadingZero(n / 10);
    }
  }

  // -------------------------------------------------------------------------------------- strings

  function HexChar(d: nat): (c: char)
    requires d < 16
    ensures HexValue(c) == d
  {
    if d < 10 then ('0' as int + d) as char else ('a' as int + d - 10) as char
  }

  /** 16 for a character that is no hexadecimal digit. */
  function HexValue(c: char): nat {
    if '0' <= c <= '9' then c as int - '0' as int
    else if 'a' <= c <= 'f' then c as int - 'a' as int + 10
    else if 'A' <= c <= 'F' then c as int - 'A' as int + 10
    else 16
  }

  /** Two-character escapes, `\u00xx` for the other control characters, everything else as it is. */
  function Escape(c: char): string {
    if c == '\"' then ['\\', '\"']
    else if c == '\\' then ['\\', '\\']
    else if c == '\U{8}' then ['\\', 'b']
    else if c == '\U{C}' then ['\\', 'f']
    else if c == '\n' then ['\\', 'n']
    else if c == '\r' then ['\\', 'r']
    else if c == '\t' then ['\\', 't']
    else if c < ' ' then ['\\', 'u', '0', '0', HexChar(c as int / 16), HexChar(c as int % 16)]
    else [c]
  }

  function EscapeAll(s: string): string {
    if s == [] then [] else Escape(s[0]) + EscapeAll(s[1..])
  }

  function Quote(s: string): string {
    ['\"'] + EscapeAll(s) + ['\"']
  }

  // -------------------------------------------------------------------------------------- printer

  function Print(v: Json): string
    decreases v, 1
  {
    match v
    case Null => "null"
    case Bool(b) => if b then "true" else "false"
    case Num(n) => IntText(n)
    case Str(s) => Quote(s)
    case Arr(items) => ['['] + PrintItems(items) + [']']
    case Obj(fields) => ['{'] + PrintFields(fields) + ['}']
  }

  function PrintItems(items: seq<Json>): string
    decreases items, 0
  {
    if items == [] then []
    else if |items| == 1 then Print(items[0])
    else Print(items[0]) + [','] + PrintItems(items[1..])
  }

  function PrintFields(fields: seq<Field>): string
    decreases fields, 0
  {
    if fields == [] then []
    else if |fields| == 1 then PrintField(fields[0])
    else PrintField(fields[0]) + [','] + PrintFields(fields[1..])
  }

  function PrintField(f: Field): string
    decreases f, 0
  {
    Quote(f.key) + [':'] + Print(f.value)
  }

  // --------------------------------------------------------------------------------------- parser

  datatype Parsed<+T> = Fail | Parsed(value: T, rest: string)

  /** The character denoted by the escape at the start of `s` (after the backslash), and the rest. */
  function ParseEscape(s: string): (r: Parsed<char>)
    ensures r.Parsed? ==> |r.rest| < |s|
  {
    if s == [] then Fail
    else if s[0] == 'u' then
      if |s| < 5 then Fail
      else
        var a, b, c, d := HexValue(s[1]), HexValue(s[2]), HexValue(s[3]), HexValue(s[4]);
        var code := ((a * 16 + b) * 16 + c) * 16 + d;
        if a < 16 && b < 16 && c < 16 && d < 16 && code < 0xD800 then Parsed(code as char, s[5..]) else Fail
    else if s[0] == 'b' then Parsed('\U{8}', s[1..])
    else if s[0] == 'f' then Parsed('\U{C}', s[1..])
    else if s[0] == 'n' then Parsed('\n', s[1..])
    else if s[0] == 'r' then Parsed('\r', s[1..])
    else if s[0] == 't' then Parsed('\t', s[1..])
    else if s[0] == '\"' || s[0] == '\\' || s[0] == '/' then Parsed(s[0], s[1..])
    else Fail
  }

  function ParseChar(s: string): (r: Parsed<char>)
    ensures r.Parsed? ==> |r.rest| < |s|
  {
    if s == [] || s[0] < ' ' then Fail
    else if s[0] == '\\' then ParseEscape(s[1..])
    else Parsed(s[0], s[1..])
  }

  /** A string after its opening quote. */
  function ParseString(s: string): (r: Parsed<string>)
    ensures r.Parsed? ==> |r.rest| < |s|
    decreases |s|
  {
    if s == [] then Fail
    else if s[0] == '\"' then Parsed([], s[1..])
    else
      match ParseChar(s)
      case Fail => Fail
      case Parsed(c, t) =>
        match ParseString(t)
        case Fail => Fail
        case Parsed(cs, rest) => Parsed([c] + cs, rest)
  }

  function ParseNat(s: string): (r: Parsed<nat>)
    ensures r.Parsed? ==> |r.rest| < |s|
  {
    var k := DigitSpan(s);
    if k == 0 then Fail else Parsed(DigitsValue(s[..k]), s[k..])
  }

  function ParseLiteral(s: string): (r: Parsed<Json>)
    ensures r.Parsed? ==> |r.rest| < |s|
  {
    if "null" <= s then Parsed(Null, s[4..])
    else if "true" <= s then Parsed(Bool(true), s[4..])
    else if "false" <= s then Parsed(Bool(false), s[5..])
    else Fail
  }

  function ParseValue(s: string): (r: Parsed<Json>)
    ensures r.Parsed? ==> |r.rest| < |s|
    decreases |s|, 1
  {
    if s == [] then Fail
    else if s[0] == '\"' then
      match ParseString(s[1..])
      case Fail => Fail
      case Parsed(t, rest) => Parsed(Str(t), rest)
    else if s[0] == '[' then
      if |s| > 1 && s[1] == ']' then Parsed(Arr([]), s[2..])
      else
        match ParseItems(s[1..])
        case Fail => Fail
        case Parsed(items, rest) => Parsed(Arr(items), rest)
    else if s[0] == '{' then
      if |s| > 1 && s[1] == '}' then Parsed(Obj([]), s[2..])
      else
        match ParseFields(s[1..])
        case Fail => Fail
        case Parsed(fields, rest) => Parsed(Obj(fields), rest)
    else if s[0] == '-' then
      match ParseNat(s[1..])
      case Fail => Fail
      case Parsed(n, rest) => Parsed(Num(0 - n), rest)
    else if IsDigit(s[0]) then
      match ParseNat(s)
      case Fail => Fail
      case Parsed(n, rest) => Parsed(Num(n), rest)
    else ParseLiteral(s)
  }

  function ParseItems(s: string): (r: Parsed<seq<Json>>)
    ensures r.Parsed? ==> |r.rest| < |s|
    decreases |s|, 2
  {
    match ParseValue(s)
    case Fail => Fail
    case Parsed(v, t) =>
      if t == [] then Fail
      else if t[0] == ']' then Parsed([v], t[1..])
      else if t[0] != ',' then Fail
      else
        match ParseItems(t[1..])
        case Fail => Fail
        case Parsed(vs, rest) => Parsed([v] + vs, rest)
  }

  function ParseField(s: string): (r: Parsed<Field>)
    ensures r.Parsed? ==> |r.rest| < |s|
    decreases |s|, 2
  {
    if s == [] || s[0] != '\"' then Fail
    else
      match ParseString(s[1..])
      case Fail => Fail
      case Parsed(key, t) =>
        if t == [] || t[0] != ':' then Fail
        else
          match ParseValue(t[1..])
          case Fail => Fail
          case Parsed(v, rest) => Parsed(Field(key, v), rest)
  }

  function ParseFields(s: string): (r: Parsed<seq<Field>>)
    ensures r.Parsed? ==> |r.rest| < |s|
    decreases |s|, 3
  {
    match ParseField(s)
    case Fail => Fail
    case Parsed(f, t) =>
      if t == [] then Fail
      else if t[0] == '}' then Parsed([f], t[1..])
      else if t[0] != ',' then Fail
      else
        match ParseFields(t[1..])
        case Fail => Fail
        case Parsed(fs, rest) => Parsed([f] + fs, rest)
  }

  // ----------------------------------------------------------------------------------- round trip

  lemma EscapeRoundTrip(c: char, rest: string)
    ensures ParseChar(Escape(c) + rest) == Parsed(c, rest) && Escape(c)[0] != '\"'
  {
    var e := Escape(c);
    var s := e + rest;
    assert s[..|e|] == e && s[|e|..] == rest;
    if |e| == 2 {
      assert s[1..][1..] == rest;
    } else if |e| == 6 {
      var t := s[1..];
      assert t[5..] == rest;
      assert t[0] == 'u' && t[1] == '0' && t[2] == '0' && t[3] == e[4] && t[4] == e[5];
    }
  }

  lemma ParseStringStep(t: string, c: char, tail: string, cs: string, rest: string)
    requires t != [] && t[0] != '\"' && ParseChar(t) == Parsed(c, tail) && ParseString(tail) == Parsed(cs, rest)
    ensures ParseString(t) == Parsed([c] + cs, rest)
  {
  }

  lemma {:induction false} StringRoundTrip(s: string, rest: string)
    ensures ParseString(EscapeAll(s) + ['\"'] + rest) == Parsed(s, rest)
    decreases |s|
  {
    var t := EscapeAll(s) + ['\"'] + rest;
    if s == [] {
      assert t[1..] == rest;
    } else {
      var tail := EscapeAll(s[1..]) + ['\"'] + rest;
      assert t == Escape(s[0]) + tail;
      EscapeRoundTrip(s[0], tail);
      StringRoundTrip(s[1..], rest);
      assert s == [s[0]] + s[1..];
      ParseStringStep(t, s[0], tail, s[1..], rest);
    }
  }

  lemma QuoteRoundTrip(s: string, rest: string)
    ensures (Quote(s) + rest)[0] == '\"' && ParseString((Quote(s) + rest)[1..]) == Parsed(s, rest)
  {
    assert (Quote(s) + rest)[1..] == EscapeAll(s) + ['\"'] + rest;
    StringRoundTrip(s, rest);
  }

  lemma NatRoundTrip(n: nat, rest: string)
    requires EndsNumber(rest)
    ensures ParseNat(Digits(n) + rest) == Parsed(n, rest)
  {
    var ds := Digits(n);
    SpanOfDigits(ds, rest);
    assert (ds + rest)[..|ds|] == ds && (ds + rest)[|ds|..] == rest;
    ValueOfDigits(n);
  }

  lemma NegativeRoundTrip(n: nat, rest: string)
    requires EndsNumber(rest)
    ensures ParseValue(['-'] + Digits(n) + rest) == Parsed(Num(0 - n), rest)
  {
    var s := ['-'] + Digits(n) + rest;
    assert s[1..] == Digits(n) + rest;
    NatRoundTrip(n, rest);
  }

  lemma PositiveRoundTrip(n: nat, rest: string)
    requires EndsNumber(rest)
    ensures ParseValue(Digits(n) + rest) == Parsed(Num(n), rest)
  {
    var s := Digits(n) + rest;
    assert s[0] == Digits(n)[0];
    NatRoundTrip(n, rest);
  }

  lemma IntRoundTrip(n: int, rest: string)
    requires EndsNumber(rest)
    ensures ParseValue(IntText(n) + rest) == Parsed(Num(n), rest)
  {
    if n < 0 {
      NegativeRoundTrip(-n, rest);
    } else {
      PositiveRoundTrip(n, rest);
    }
  }

  lemma LiteralRoundTrip(v: Json, rest: string)
    requires v.Null? || v.Bool?
    ensures ParseValue(Print(v) + rest) == Parsed(v, rest)
  {
    var s := Print(v) + rest;
    assert s[..|Print(v)|] == Print(v) && s[|Print(v)|..] == rest;
    match v
    case Null =>
      assert s[0] == 'n';
    case Bool(b) =>
      assert s[0] == if b then 't' else 'f';
  }

  /** No value's text starts like the end of an array or an object. */
  lemma FirstChar(v: Json)
    ensures Print(v) != [] && Print(v)[0] != ']' && Print(v)[0] != '}'
  {
    match v
    case Num(n) =>
      if n >= 0 { assert IsDigit(Digits(n)[0]); }
    case _ =>
  }

  lemma ItemsFirstChar(items: seq<Json>)
    requires items != []
    ensures PrintItems(items) != [] && PrintItems(items)[0] != ']'
  {
    FirstChar(items[0]);
  }

  lemma FieldsFirstChar(fields: seq<Field>)
    requires fields != []
    ensures PrintFields(fields) != [] && PrintFields(fields)[0] == '\"'
  {
    assert PrintField(fields[0])[0] == '\"';
  }

  /** Parsing undoes printing, whatever follows the text, as long as it does not start with a digit. */
  lemma {:induction false} RoundTrip(v: Json, rest: string)
    requires EndsNumber(rest)
    ensures ParseValue(Print(v) + rest) == Parsed(v, rest)
    decreases v, 1
  {
    match v
    case Num(n) => IntRoundTrip(n, rest);
    case Str(s) => QuoteRoundTrip(s, rest);
    case Arr(items) => ArrayRoundTrip(items, rest);
    case Obj(fields) => ObjectRoundTrip(fields, rest);
    case _ => LiteralRoundTrip(v, rest);
  }

  lemma {:induction false} ArrayRoundTrip(items: seq<Json>, rest: string)
    ensures ParseValue(Print(Arr(items)) + rest) == Parsed(Arr(items), rest)
    decreases items, 1
  {
    var s := Print(Arr(items)) + rest;
    assert s[1..] == PrintItems(items) + [']'] + rest;
    if items == [] {
      assert s[2..] == rest;
    } else {
      ItemsFirstChar(items);
      assert s[1] == PrintItems(items)[0];
      ItemsRoundTrip(items, rest);
    }
  }

  lemma ParseItemsLast(s: string, v: Json, rest: string)
    requires ParseValue(s) == Parsed(v, [']'] + rest)
    ensures ParseItems(s) == Parsed([v], rest)
  {
    assert ([']'] + rest)[1..] == rest;
  }

  lemma ParseItemsMore(s: string, v: Json, t: string, vs: seq<Json>, rest: string)
    requires ParseValue(s) == Parsed(v, [','] + t) && ParseItems(t) == Parsed(vs, rest)
    ensures ParseItems(s) == Parsed([v] + vs, rest)
  {
    assert ([','] + t)[1..] == t;
  }

  lemma Regroup(a: string, x: char, b: string, y: char, rest: string)
    ensures a + [x] + rest == a + ([x] + rest)
    ensures a + [x] + b + [y] + rest == a + ([x] + (b + [y] + rest))
  {
  }

  lemma ItemsText(items: seq<Json>, rest: string)
    requires items != []
    ensures |items| == 1 ==> PrintItems(items) + [']'] + rest == Print(items[0]) + ([']'] + rest)
    ensures |items| > 1 ==> PrintItems(items) + [']'] + rest
                            == Print(items[0]) + ([','] + (PrintItems(items[1..]) + [']'] + rest))
  {
    Regroup(Print(items[0]), ']', [], ']', rest);
    Regroup(Print(items[0]), ',', PrintItems(items[1..]), ']', rest);
  }

  lemma ItemsJoined(items: seq<Json>, rest: string)
    requires items != []
    requires |items| == 1 ==> ParseValue(Print(items[0]) + ([']'] + rest)) == Parsed(items[0], [']'] + rest)
    requires |items| > 1 ==>
               var tail := PrintItems(items[1..]) + [']'] + rest;
               && ParseValue(Print(items[0]) + ([','] + tail)) == Parsed(items[0], [','] + tail)
               && ParseItems(tail) == Parsed(items[1..], rest)
    ensures ParseItems(PrintItems(items) + [']'] + rest) == Parsed(items, rest)
  {
    ItemsText(items, rest);
    if |items| == 1 {
      ParseItemsLast(Print(items[0]) + ([']'] + rest), items[0], rest);
      assert items == [items[0]];
    } else {
      var tail := PrintItems(items[1..]) + [']'] + rest;
      ParseItemsMore(Print(items[0]) + ([','] + tail), items[0], tail, items[1..], rest);
      assert items == [items[0]] + items[1..];
    }
  }

  lemma {:induction false} ItemsRoundTrip(items: seq<Json>, rest: string)
    requires items != []
    ensures ParseItems(PrintItems(items) + [']'] + rest) == Parsed(items, rest)
    decreases items, 0
  {
    if |items| == 1 {
      RoundTrip(items[0], [']'] + rest);
    } else {
      RoundTrip(items[0], [','] + (PrintItems(items[1..]) + [']'] + rest));
      ItemsRoundTrip(items[1..], rest);
    }
    ItemsJoined(items, rest);
  }

  lemma {:induction false} ObjectRoundTrip(fields: seq<Field>, rest: string)
    ensures ParseValue(Print(Obj(fields)) + rest) == Parsed(Obj(fields), rest)
    decreases fields, 1
  {
    var s := Print(Obj(fields)) + rest;
    assert s[1..] == PrintFields(fields) + ['}'] + rest;
    if fields == [] {
      assert s[2..] == rest;
    } else {
      FieldsFirstChar(fields);
      assert s[1] == PrintFields(fields)[0];
      FieldsRoundTrip(fields, rest);
    }
  }

  lemma ParseFieldStep(s: string, key: string, t: string, v: Json, rest: string)
    requires s != [] && s[0] == '\"' && ParseString(s[1..]) == Parsed(key, [':'] + t)
    requires ParseValue(t) == Parsed(v, rest)
    ensures ParseField(s) == Parsed(Field(key, v), rest)
  {
    assert ([':'] + t)[1..] == t;
  }

  lemma ParseFieldsLast(s: string, f: Field, rest: string)
    requires ParseField(s) == Parsed(f, ['}'] + rest)
    ensures ParseFields(s) == Parsed([f], rest)
  {
    assert (['}'] + rest)[1..] == rest;
  }

  lemma ParseFieldsMore(s: string, f: Field, t: string, fs: seq<Field>, rest: string)
    requires ParseField(s) == Parsed(f, [','] + t) && ParseFields(t) == Parsed(fs, rest)
    ensures ParseFields(s) == Parsed([f] + fs, rest)
  {
    assert ([','] + t)[1..] == t;
  }

  lemma {:induction false} FieldRoundTrip(f: Field, rest: string)
    requires EndsNumber(rest)
    ensures ParseField(PrintField(f) + rest) == Parsed(f, rest)
    decreases f, 0
  {
    var s := PrintField(f) + rest;
    var value := Print(f.value) + rest;
    assert s == Quote(f.key) + ([':'] + value);
    QuoteRoundTrip(f.key, [':'] + value);
    RoundTrip(f.value, rest);
    ParseFieldStep(s, f.key, value, f.value, rest);
  }

  lemma FieldsText(fields: seq<Field>, rest: string)
    requires fields != []
    ensures |fields| == 1 ==> PrintFields(fields) + ['}'] + rest == PrintField(fields[0]) + (['}'] + rest)
    ensures |fields| > 1 ==> PrintFields(fields) + ['}'] + rest
                             == PrintField(fields[0]) + ([','] + (PrintFields(fields[1..]) + ['}'] + rest))
  {
    Regroup(PrintField(fields[0]), '}', [], '}', rest);
    Regroup(PrintField(fields[0]), ',', PrintFields(fields[1..]), '}', rest);
  }

  lemma FieldsJoined(fields: seq<Field>, rest: string)
    requires fields != []
    requires |fields| == 1 ==> ParseField(PrintField(fields[0]) + (['}'] + rest)) == Parsed(fields[0], ['}'] + rest)
    requires |fields| > 1 ==>
               var tail := PrintFields(fields[1..]) + ['}'] + rest;
               && ParseField(PrintField(fields[0]) + ([','] + tail)) == Parsed(fields[0], [','] + tail)
               && ParseFields(tail) == Parsed(fields[1..], rest)
    ensures ParseFields(PrintFields(fields) + ['}'] + rest) == Parsed(fields, rest)
  {
    FieldsText(fields, rest);
    if |fields| == 1 {
      ParseFieldsLast(PrintField(fields[0]) + (['}'] + rest), fields[0], rest);
      assert fields == [fields[0]];
    } else {
      var tail := PrintFields(fields[1..]) + ['}'] + rest;
      ParseFieldsMore(PrintField(fields[0]) + ([','] + tail), fields[0], tail, fields[1..], rest);
      assert fields == [fields[0]] + fields[1..];
    }
  }

  lemma {:induction false} FieldsRoundTrip(fields: seq<Field>, rest: string)
    requires fields != []
    ensures ParseFields(PrintFields(fields) + ['}'] + rest) == Parsed(fields, rest)
    decreases fields, 0
  {
    if |fields| == 1 {
      FieldRoundTrip(fields[0], ['}'] + rest);
    } else {
      FieldRoundTrip(fields[0], [','] + (PrintFields(fields[1..]) + ['}'] + rest));
      FieldsRoundTrip(fields[1..], rest);
    }
    FieldsJoined(fields, rest);
  }

  /** The text determines the value. */
  lemma PrintInjective(a: Json, b: Json)
    requires Print(a) == Print(b)
    ensures a == b
  {
    RoundTrip(a, []);
    RoundTrip(b, []);
    assert Print(a) + [] == Print(b) + [];
  }

  // ------------------------------------------------------------------------------- shape of the text

  /** No string and no key has a space in it. */
  ghost predicate SpaceFree(v: Json) {
    match v
    case Str(s) => ' ' !in s
    case Arr(items) => forall i :: 0 <= i < |items| ==> SpaceFree(items[i])
    case Obj(fields) => forall i :: 0 <= i < |fields| ==> ' ' !in fields[i].key && SpaceFree(fields[i].value)
    case _ => true
  }

  /** Neither white space nor a control character. */
  ghost predicate Visible(s: string) {
    forall i :: 0 <= i < |s| ==> s[i] > ' '
  }

  lemma EscapeVisible(c: char)
    requires c != ' '
    ensures Visible(Escape(c))
  {
  }

  lemma {:induction false} QuoteVisible(s: string)
    requires ' ' !in s
    ensures Visible(EscapeAll(s)) && Visible(Quote(s))
    decreases |s|
  {
    if s != [] {
      EscapeVisible(s[0]);
      QuoteVisible(s[1..]);
    }
  }

  /** The text is compact: every white space in it comes from a string, and control characters never
      appear. */
  lemma {:induction false} PrintIsCompact(v: Json)
    requires SpaceFree(v)
    ensures Visible(Print(v))
    decreases v, 1
  {
    match v
    case Str(s) => QuoteVisible(s);
    case Arr(items) => ItemsVisible(items);
    case Obj(fields) => FieldsVisible(fields);
    case _ =>
  }

  lemma {:induction false} ItemsVisible(items: seq<Json>)
    requires forall i :: 0 <= i < |items| ==> SpaceFree(items[i])
    ensures Visible(PrintItems(items))
    decreases items, 0
  {
    if items != [] {
      PrintIsCompact(items[0]);
      ItemsVisible(items[1..]);
    }
  }

  lemma {:induction false} FieldsVisible(fields: seq<Field>)
    requires forall i :: 0 <= i < |fields| ==> ' ' !in fields[i].key && SpaceFree(fields[i].value)
    ensures Visible(PrintFields(fields))
    decreases fields, 0
  {
    if fields != [] {
      QuoteVisible(fields[0].key);
      PrintIsCompact(fields[0].value);
      FieldsVisible(fields[1..]);
    }
  }

  /** The punctuation of sections 5, 4 and 7 of RFC 8259, on one value each. */
  lemma ArrayExample()
    ensures Print(Arr([Num(-12), Bool(true), Null])) == "[-12,true,null]"
  {
    assert Digits(12) == Digits(1) + [DigitChar(2)] == "12";
    assert PrintItems([Null]) == "null";
    assert PrintItems([Bool(true), Null]) == "true,null" by {
      assert [Bool(true), Null][1..] == [Null];
    }
    assert [Num(-12), Bool(true), Null][1..] == [Bool(true), Null];
  }

  lemma ObjectExample()
    ensures Print(Obj([Field("a", Num(1)), Field("b", Bool(false))])) == "{\"a\":1,\"b\":false}"
  {
    var f, g := Field("a", Num(1)), Field("b", Bool(false));
    assert EscapeAll("a") == "a" && EscapeAll("b") == "b";
    assert PrintField(f) == "\"a\":1" && PrintField(g) == "\"b\":false";
    assert [f, g][1..] == [g];
  }

  lemma ShortEscapes()
    ensures Escape('\"') == "\\\"" && Escape('\\') == "\\\\"
    ensures Escape('\U{8}') == "\\b" && Escape('\U{C}') == "\\f" && Escape('\n') == "\\n"
    ensures Escape('\r') == "\\r" && Escape('\t') == "\\t" && Escape('\0') == "\\u0000"
  {
  }

  lemma StringExample()
    ensures Print(Str("\"\n\U{1F}/")) == "\"\\\"\\n\\u001f/\""
  {
    assert EscapeAll("/") == "/";
    assert EscapeAll("\U{1F}/") == "\\u001f/" by {
      assert "\U{1F}/"[1..] == "/";
    }
    assert EscapeAll("\n\U{1F}/") == "\\n\\u001f/" by {
      assert "\n\U{1F}/"[1..] == "\U{1F}/";
    }
    assert "\"\n\U{1F}/"[1..] == "\n\U{1F}/";
  }
}
