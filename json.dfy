/** JSON values as the store holds them, and the two ways the store turns a
    value into text: JavaScript's string conversion (used when a value is
    logged) and JSON serialisation (used when a document is written). */
module Json {

  /** The integers a JavaScript number holds exactly: every one of them
      prints as its plain decimal numeral. Beyond 2^53 the printed digits are
      rounded, and from 10^21 on they switch to exponent form. */
  const MaxExact: int := 0x20_0000_0000_0000
  type ExactInt = n: int | -MaxExact <= n <= MaxExact

  datatype Value =
    | Null
    | Bool(b: bool)
    | Num(n: ExactInt)
    | Str(s: string)
    | Arr(items: seq<Value>)
    | Obj(fields: seq<(string, Value)>)

  /** The JSON values that JavaScript treats as false in a condition. */
  predicate Falsy(v: Value) {
    v == Null || v == Bool(false) || v == Num(0) || v == Str("")
  }

  // ---------------------------------------------------------------------
  // Decimal numerals

  function DigitChar(d: nat): char
    requires d < 10
  {
    "0123456789"[d]
  }

  function DigitValue(c: char): nat {
    if '0' <= c <= '9' then (c as int - '0' as int) as nat else 0
  }

  /** The decimal numeral of `n`, most significant digit first, without
      leading zeros. */
  function Digits(n: nat): (r: string)
    ensures 0 < |r|
    ensures forall i | 0 <= i < |r| :: '0' <= r[i] <= '9'
    ensures |r| > 1 ==> r[0] != '0'
    decreases n
  {
    if n < 10 then [DigitChar(n)] else Digits(n / 10) + [DigitChar(n % 10)]
  }

  /** Reads a numeral written with `Digits` back. */
  function DigitsValue(s: string): nat
    decreases |s|
  {
    if s == [] then 0 else DigitsValue(s[..|s| - 1]) * 10 + DigitValue(s[|s| - 1])
  }

  /** Number-to-string conversion for the integers the model keeps. */
  function Decimal(n: int): string {
    if n < 0 then "-" + Digits(-n) else Digits(n)
  }

  function DecimalValue(s: string): int {
    if |s| > 0 && s[0] == '-' then -(DigitsValue(s[1..]) as int) else DigitsValue(s)
  }

  lemma {:induction false} DigitsRoundTrip(n: nat)
    ensures DigitsValue(Digits(n)) == n
    decreases n
  {
    if n >= 10 {
      DigitsRoundTrip(n / 10);
      var s := Digits(n);
      assert s[..|s| - 1] == Digits(n / 10);
    }
  }

  /** Printing a number and reading it back gives the same number, so distinct
      numbers (and distinct timestamps) print differently. */
  lemma {:induction false} DecimalRoundTrip(n: int)
    ensures DecimalValue(Decimal(n)) == n
  {
    var m := if n < 0 then -n else n;
    DigitsRoundTrip(m);
    SignedValue(Digits(m));
  }

  /** A numeral that starts with a digit reads as its digits, and with a
      minus sign in front as their negation. */
  lemma SignedValue(d: string)
    requires 0 < |d| && '0' <= d[0] <= '9'
    ensures DecimalValue(d) == DigitsValue(d)
    ensures DecimalValue("-" + d) == -(DigitsValue(d) as int)
  {
    assert ("-" + d)[1..] == d;
  }

  // ---------------------------------------------------------------------
  // String conversion, as in a template literal `${value}`

  /** `String(v)`: a string is itself, an array is its elements' conversions
      joined with commas (null elements print as nothing), any other object
      is "[object Object]". */
  function ToText(v: Value): string
    decreases v, 1
  {
    match v
    case Null => "null"
    case Bool(b) => if b then "true" else "false"
    case Num(n) => Decimal(n)
    case Str(s) => s
    case Arr(_) => ItemsText(v, 0)
    case Obj(_) => "[object Object]"
  }

  function ItemsText(v: Value, i: nat): string
    requires v.Arr? && i <= |v.items|
    decreases v, 0, |v.items| - i
  {
    if i == |v.items| then ""
    else
      var item := v.items[i];
      (if i == 0 then "" else ",") + (if item == Null then "" else ToText(item)) + ItemsText(v, i + 1)
  }

  /** Null items print as nothing; an object prints as "[object Object]". */
  lemma ToTextExample()
    ensures ToText(Arr([Null, Str("a")])) == ",a"
    ensures ToText(Obj([("a", Null)])) == "[object Object]"
  {
    var v := Arr([Null, Str("a")]);
    assert ItemsText(v, 1) == ",a";
  }

  /** A nested array is flattened into the same comma-joined list. */
  lemma ToTextNestedExample()
    ensures ToText(Arr([Arr([Str("x"), Str("y")]), Bool(true)])) == "x,y,true"
  {
    var inner := Arr([Str("x"), Str("y")]);
    assert ItemsText(inner, 1) == ",y";
    assert ToText(inner) == "x,y";
    var v := Arr([inner, Bool(true)]);
    assert ItemsText(v, 1) == ",true";
  }

  // ---------------------------------------------------------------------
  // JSON serialisation, as JSON.stringify writes it (no white space)

  function HexDigit(d: nat): char
    requires d < 16
  {
    "0123456789abcdef"[d]
  }

  /** How one character of a string is written inside JSON quotes. */
  function Escape(c: char): string {
    if c == '"' then "\\\""
    else if c == '\\' then "\\\\"
    else if c == '\U{8}' then "\\b"
    else if c == '\U{C}' then "\\f"
    else if c == '\n' then "\\n"
    else if c == '\r' then "\\r"
    else if c == '\t' then "\\t"
    else if c < ' ' then "\\u00" + [HexDigit(c as int / 16), HexDigit(c as int % 16)]
    else [c]
  }

  function EscapeAll(s: string): string
    decreases |s|
  {
    if s == [] then "" else Escape(s[0]) + EscapeAll(s[1..])
  }

  function Quote(s: string): string {
    "\"" + EscapeAll(s) + "\""
  }

  function Stringify(v: Value): string
    decreases v, 1
  {
    match v
    case Null => "null"
    case Bool(b) => if b then "true" else "false"
    case Num(n) => Decimal(n)
    case Str(s) => Quote(s)
    case Arr(_) => "[" + StringifyItems(v, 0) + "]"
    case Obj(_) => "{" + StringifyFields(v, 0) + "}"
  }

  function StringifyItems(v: Value, i: nat): string
    requires v.Arr? && i <= |v.items|
    decreases v, 0, |v.items| - i
  {
    if i == |v.items| then ""
    else (if i == 0 then "" else ",") + Stringify(v.items[i]) + StringifyItems(v, i + 1)
  }

  function StringifyFields(v: Value, i: nat): string
    requires v.Obj? && i <= |v.fields|
    decreases v, 0, |v.fields| - i
  {
    if i == |v.fields| then ""
    else
      var field := v.fields[i];
      (if i == 0 then "" else ",") + Quote(field.0) + ":" + Stringify(field.1) + StringifyFields(v, i + 1)
  }

  /** A quote inside a string is escaped. */
  lemma QuoteExample()
    ensures Quote("a\"b") == "\"a\\\"b\""
  {
    assert EscapeAll("b") == "b";
    assert EscapeAll("\"b") == "\\\"b";
  }

  /** A key is quoted, followed by a colon and the value, with no white
      space. */
  lemma StringifyExample()
    ensures Stringify(Obj([("a", Null)])) == "{\"a\":null}"
  {
    var v := Obj([("a", Null)]);
    assert Quote("a") == "\"a\"";
    assert StringifyFields(v, 1) == "";
  }
}
