/** JSON text and values: what the parser accepts and the serializer writes, and the round trip. */
module JsonSpec {

  /** Each character stands for one byte. */
  type Text = string

  datatype Member = Member(key: Text, value: Json)

  /** A number outside the integers is kept as the token whose value strtod returns. */
  datatype Json =
    | JNull
    | JBool(b: bool)
    | JInt(n: int)
    | JReal(token: Text)
    | JString(s: Text)
    | JArray(items: seq<Json>)
    | JObject(members: seq<Member>)

  datatype Parsed<+T> = Fail | Ok(value: T, rest: Text)

  // ---- Characters ---------------------------------------------------------------------------

  predicate Ws(c: char) { c == ' ' || c == '\t' || c == '\n' || c == '\r' }
  predicate Digit(c: char) { '0' <= c <= '9' }

  function Chr(n: nat): char
    requires n < 0x10000 && !(0xD800 <= n < 0xE000)
  {
    n as char
  }

  function SkipWs(t: Text): (r: Text)
    ensures |r| <= |t| && (r != "" ==> !Ws(r[0]))
  {
    if t != "" && Ws(t[0]) then SkipWs(t[1..]) else t
  }

  // ---- Strings ------------------------------------------------------------------------------

  function HexValue(c: char): int {
    if '0' <= c <= '9' then c as int - '0' as int
    else if 'a' <= c <= 'f' then c as int - 'a' as int + 10
    else if 'A' <= c <= 'F' then c as int - 'A' as int + 10
    else -1
  }

  /** Four hexadecimal digits. */
  function CodePoint(t: Text): (r: Parsed<nat>)
    ensures r.Ok? ==> |r.rest| < |t| && r.value < 0x10000
  {
    if |t| < 4 || HexValue(t[0]) < 0 || HexValue(t[1]) < 0 || HexValue(t[2]) < 0 || HexValue(t[3]) < 0 then Fail
    else Ok(((HexValue(t[0]) * 16 + HexValue(t[1])) * 16 + HexValue(t[2])) * 16 + HexValue(t[3]), t[4..])
  }

  /** UTF-8 bytes of a 16-bit code point. */
  function Utf8(cp: nat): Text
    requires cp < 0x10000
  {
    if cp <= 0x7F then [Chr(cp)]
    else if cp <= 0x7FF then [Chr(0xC0 + cp / 64), Chr(0x80 + cp % 64)]
    else [Chr(0xE0 + cp / 4096), Chr(0x80 + cp / 64 % 64), Chr(0x80 + cp % 64)]
  }

  /** The character a one-letter escape stands for. */
  function SimpleEscape(c: char): Text {
    if c == '\"' || c == '\\' || c == '/' then [c]
    else if c == 'b' then [Chr(8)]
    else if c == 'f' then [Chr(12)]
    else if c == 'n' then "\n"
    else if c == 'r' then "\r"
    else if c == 't' then "\t"
    else ""
  }

  /** After the backslash: the bytes it denotes. */
  function Escape(t: Text): (r: Parsed<Text>)
    ensures r.Ok? ==> |r.rest| < |t|
  {
    if t == "" then Fail
    else if SimpleEscape(t[0]) != "" then Ok(SimpleEscape(t[0]), t[1..])
    else if t[0] == 'u' then
      match CodePoint(t[1..])
      case Fail => Fail
      case Ok(cp, rest) => Ok(Utf8(cp), rest)
    else Fail
  }

  /** After the opening quote. */
  function Str(t: Text): (r: Parsed<Text>)
    ensures r.Ok? ==> |r.rest| < |t|
    decreases |t|
  {
    if t == "" then Fail
    else if t[0] == '\"' then Ok("", t[1..])
    else if t[0] != '\\' then
      match Str(t[1..])
      case Fail => Fail
      case Ok(s, rest) => Ok([t[0]] + s, rest)
    else
      match Escape(t[1..])
      case Fail => Fail
      case Ok(bytes, rest) =>
        match Str(rest)
        case Fail => Fail
        case Ok(s, rest') => Ok(bytes + s, rest')
  }

  // ---- Numbers ------------------------------------------------------------------------------

  /** Where the run of digits at i ends. */
  function RunEnd(t: Text, i: nat): (n: nat)
    requires i <= |t|
    ensures i <= n <= |t|
    ensures forall k :: i <= k < n ==> Digit(t[k])
    ensures n < |t| ==> !Digit(t[n])
    decreases |t| - i
  {
    if i < |t| && Digit(t[i]) then RunEnd(t, i + 1) else i
  }

  function Sign(t: Text): (n: nat)
    ensures n <= |t|
  {
    if t != "" && t[0] == '-' then 1 else 0
  }

  /** Where a fraction that starts at i ends. */
  function FracEnd(t: Text, i: nat): (n: nat)
    requires i <= |t|
    ensures i <= n <= |t|
  {
    if i < |t| && t[i] == '.' then RunEnd(t, i + 1) else i
  }

  /** Where the digits of an exponent that starts at i begin. */
  function ExpDigits(t: Text, i: nat): (n: nat)
    requires i < |t|
    ensures i < n <= |t|
  {
    if i + 1 < |t| && (t[i + 1] == '+' || t[i + 1] == '-') then i + 2 else i + 1
  }

  predicate IsExp(t: Text, i: nat) { i < |t| && (t[i] == 'e' || t[i] == 'E') }

  /** Where the digits behind the mark of an exponent at i end, or i if there are none. */
  function DigitsEnd(t: Text, i: nat): (n: nat)
    requires i < |t|
    ensures i <= n <= |t|
  {
    var n := RunEnd(t, ExpDigits(t, i));
    if n > ExpDigits(t, i) then n else i
  }

  function ExpEnd(t: Text, i: nat): (n: nat)
    requires i <= |t|
    ensures i <= n <= |t|
  {
    if IsExp(t, i) then DigitsEnd(t, i) else i
  }

  /** Where a decimal number that begins with a sign or a digit ends. */
  function DecimalEnd(t: Text): (n: nat)
    ensures n <= |t|
  {
    ExpEnd(t, FracEnd(t, RunEnd(t, Sign(t))))
  }

  predicate IsHexDigit(t: Text, i: nat) { i < |t| && HexValue(t[i]) >= 0 }

  /** An optional sign, 0, x or X, and a hexadecimal digit or a point and one. */
  predicate IsHex(t: Text) {
    var s := Sign(t);
    && s + 1 < |t| && t[s] == '0' && (t[s + 1] == 'x' || t[s + 1] == 'X')
    && (IsHexDigit(t, s + 2) || (s + 2 < |t| && t[s + 2] == '.' && IsHexDigit(t, s + 3)))
  }

  /** The first digit of a hexadecimal number is behind it. How much further the number goes does not matter: see HexRefused. */
  function HexEnd(t: Text): (n: nat)
    requires IsHex(t)
    ensures Sign(t) + 2 < n <= |t|
  {
    if t[Sign(t) + 2] == '.' then Sign(t) + 4 else Sign(t) + 3
  }

  /**
    * How far strtod reads text that begins with a sign or a digit, in the C locale. Where it would find no
    * digit or a word such as inf behind the sign, the check below refuses whatever is said here.
    */
  function StrtodEnd(t: Text): (n: nat)
    ensures n <= |t|
  {
    if IsHex(t) then HexEnd(t) else DecimalEnd(t)
  }

  /** parse_number_digits: one zero, or a run of digits; None when there is no digit. */
  function Digits(t: Text, i: nat, end: nat): (r: int)
    requires i <= end <= |t|
    ensures r == -1 || i < r <= end
  {
    if i >= end || !Digit(t[i]) then -1
    else if t[i] == '0' then i + 1
    else if RunEnd(t, i) < end then RunEnd(t, i) else end
  }

  /** The grammar check behind strtod: -1, or where it stops. */
  function GrammarEnd(t: Text, end: nat): (r: int)
    requires end <= |t| && Sign(t) <= end
    ensures r <= end
  {
    var i := Digits(t, Sign(t), end);
    if i < 0 then -1 else TailGrammar(t, i, end)
  }

  /** The rest of that check, behind the whole part. */
  function TailGrammar(t: Text, i: nat, end: nat): (r: int)
    requires i <= end <= |t|
    ensures r <= end
  {
    var j := AfterPoint(t, i, end);
    if j < 0 then -1 else ExpGrammar(t, j, end)
  }

  /** Where the check stands after an optional fraction. */
  function AfterPoint(t: Text, i: nat, end: nat): (j: int)
    requires i <= end <= |t|
    ensures j <= end
  {
    if i < end && t[i] == '.' then Digits(t, i + 1, end) else i
  }

  /** The optional exponent of that check. */
  function ExpGrammar(t: Text, j: nat, end: nat): (r: int)
    requires j <= end <= |t|
    ensures r <= end
  {
    if j < end && IsExp(t, j) then
      var k := if j + 1 < end && (t[j + 1] == '+' || t[j + 1] == '-') then j + 2 else j + 1;
      Digits(t, k, end)
    else j
  }

  /** Decimal value of a run of digits. */
  function Value(t: Text): (n: nat)
    requires forall i :: 0 <= i < |t| ==> Digit(t[i])
  {
    if t == "" then 0
    else
      assert Digit(t[|t| - 1]);
      10 * Value(t[..|t| - 1]) + (t[|t| - 1] as int - '0' as int)
  }

  function NumberValue(token: Text): Json {
    var s := Sign(token);
    if RunEnd(token, s) == |token| then
      assert forall i :: 0 <= i < |token| - s ==> token[s..][i] == token[s + i];
      var n: int := Value(token[s..]);
      JInt(if s == 1 then -n else n)
    else JReal(token)
  }

  function Number(t: Text): (r: Parsed<Json>)
    ensures r.Ok? ==> |r.rest| < |t|
  {
    var end := StrtodEnd(t);
    if Sign(t) <= end && end > 0 && GrammarEnd(t, end) == end then Ok(NumberValue(t[..end]), t[end..]) else Fail
  }

  // ---- Values -------------------------------------------------------------------------------

  predicate Starts(t: Text, word: Text) { word <= t }

  function Literal(t: Text, word: Text, v: Json): (r: Parsed<Json>)
    requires word != ""
    ensures r.Ok? ==> |r.rest| < |t|
  {
    if Starts(t, word) then Ok(v, t[|word|..]) else Fail
  }

  function ValueAt(text: Text): (r: Parsed<Json>)
    ensures r.Ok? ==> |r.rest| < |text|
    decreases |text|, 2
  {
    var t := SkipWs(text);
    if t == "" then Fail
    else if t[0] == 'n' then Literal(t, "null", JNull)
    else if t[0] == 't' then Literal(t, "true", JBool(true))
    else if t[0] == 'f' then Literal(t, "false", JBool(false))
    else if t[0] == '[' then ArrayAt(t[1..])
    else if t[0] == '{' then ObjectAt(t[1..])
    else if t[0] == '\"' then
      match Str(t[1..])
      case Fail => Fail
      case Ok(s, rest) => Ok(JString(s), rest)
    else if t[0] == '-' || Digit(t[0]) then Number(t)
    else Fail
  }

  /** After an element: Ok(true, rest) to go on behind a comma, Ok(false, rest) behind the closing bracket. */
  function Separator(text: Text, close: char): (r: Parsed<bool>)
    ensures r.Ok? ==> |r.rest| < |text|
  {
    var t := SkipWs(text);
    if t == "" then Fail
    else if t[0] == ',' then
      var u := SkipWs(t[1..]);
      if u == "" || u[0] == close then Fail else Ok(true, u)
    else if t[0] == close then Ok(false, t[1..])
    else Fail
  }

  function ArrayAt(text: Text): (r: Parsed<Json>)
    ensures r.Ok? ==> |r.rest| < |text|
    decreases |text|, 4
  {
    var t := SkipWs(text);
    if t != "" && t[0] == ']' then Ok(JArray([]), t[1..]) else Elements(t, [])
  }

  function Elements(t: Text, acc: seq<Json>): (r: Parsed<Json>)
    ensures r.Ok? ==> |r.rest| < |t|
    decreases |t|, 3
  {
    match ValueAt(t)
    case Fail => Fail
    case Ok(v, rest) =>
      match Separator(rest, ']')
      case Fail => Fail
      case Ok(more, rest') => if more then Elements(rest', acc + [v]) else Ok(JArray(acc + [v]), rest')
  }

  function ObjectAt(text: Text): (r: Parsed<Json>)
    ensures r.Ok? ==> |r.rest| < |text|
    decreases |text|, 5
  {
    var t := SkipWs(text);
    if t != "" && t[0] == '}' then Ok(JObject([]), t[1..]) else Members(t, [])
  }

  /** A member's key and the colon behind it. */
  function KeyAt(text: Text): (r: Parsed<Text>)
    ensures r.Ok? ==> |r.rest| < |text|
  {
    var t := SkipWs(text);
    if t == "" || t[0] != '\"' then Fail
    else
      match Str(t[1..])
      case Fail => Fail
      case Ok(key, rest) =>
        var u := SkipWs(rest);
        if u == "" || u[0] != ':' then Fail else Ok(key, u[1..])
  }

  function MemberAt(text: Text): (r: Parsed<Member>)
    ensures r.Ok? ==> |r.rest| < |text|
    decreases |text|, 3
  {
    match KeyAt(text)
    case Fail => Fail
    case Ok(key, rest) =>
      match ValueAt(rest)
      case Fail => Fail
      case Ok(v, rest') => Ok(Member(key, v), rest')
  }

  function Members(t: Text, acc: seq<Member>): (r: Parsed<Json>)
    ensures r.Ok? ==> |r.rest| < |t|
    decreases |t|, 4
  {
    match MemberAt(t)
    case Fail => Fail
    case Ok(m, rest) =>
      match Separator(rest, '}')
      case Fail => Fail
      case Ok(more, rest') => if more then Members(rest', acc + [m]) else Ok(JObject(acc + [m]), rest')
  }

  /** A whole document: one value and nothing but white space behind it. */
  function Document(t: Text): Parsed<Json> {
    match ValueAt(t)
    case Fail => Fail
    case Ok(v, rest) => if SkipWs(rest) == "" then Ok(v, "") else Fail
  }

  // ---- Serializer ---------------------------------------------------------------------------

  function HexDigit(n: nat): char
    requires n < 16
  {
    if n < 10 then Chr('0' as int + n) else Chr('a' as int + n - 10)
  }

  function Escaped(c: char): Text {
    if c == '\"' then "\\\""
    else if c == '\\' then "\\\\"
    else if c == Chr(8) then "\\b"
    else if c == Chr(12) then "\\f"
    else if c == '\n' then "\\n"
    else if c == '\r' then "\\r"
    else if c == '\t' then "\\t"
    else if c as int < 0x20 then "\\u00" + [HexDigit(c as int / 16), HexDigit(c as int % 16)]
    else [c]
  }

  function EscapedAll(s: Text): Text {
    if s == "" then "" else Escaped(s[0]) + EscapedAll(s[1..])
  }

  function Quoted(s: Text): Text { ['\"'] + (EscapedAll(s) + ['\"']) }

  function Decimal(n: nat): (t: Text)
    ensures t != "" && forall i :: 0 <= i < |t| ==> Digit(t[i])
  {
    if n < 10 then [Chr('0' as int + n)] else Decimal(n / 10) + [Chr('0' as int + n % 10)]
  }

  function Integer(n: int): Text { if n < 0 then ['-'] + Decimal(-n) else Decimal(n) }

  function Written(v: Json): Text
    decreases v, 1
  {
    match v
    case JNull => "null"
    case JBool(b) => if b then "true" else "false"
    case JInt(n) => Integer(n)
    case JReal(token) => token
    case JString(s) => Quoted(s)
    case JArray(items) => ['['] + (WrittenItems(items) + [']'])
    case JObject(members) => ['{'] + (WrittenMembers(members) + ['}'])
  }

  function WrittenItems(items: seq<Json>): Text
    decreases items, 0
  {
    if items == [] then "" else if |items| == 1 then Written(items[0])
    else Written(items[0]) + ([','] + WrittenItems(items[1..]))
  }

  function WrittenMember(m: Member): Text
    decreases m, 2
  {
    Quoted(m.key) + ([':'] + Written(m.value))
  }

  function WrittenMembers(members: seq<Member>): Text
    decreases members, 0
  {
    if members == [] then "" else if |members| == 1 then WrittenMember(members[0])
    else WrittenMember(members[0]) + ([','] + WrittenMembers(members[1..]))
  }
}

/** Parsing what the serializer wrote gives back the value. */
module JsonRoundTrip {
  import opened JsonSpec

  const MAX_EXACT: int := 9007199254740992  // 2^53

  /** C strings of bytes, and integers a double holds exactly; format_number prints those with %.0f. */
  ghost predicate Plain(s: Text) { forall i :: 0 <= i < |s| ==> 0 < s[i] as int < 256 }

  ghost predicate Good(v: Json)
    decreases v, 1
  {
    match v
    case JInt(n) => -MAX_EXACT <= n <= MAX_EXACT
    case JReal(_) => false
    case JString(s) => Plain(s)
    case JArray(items) => forall i :: 0 <= i < |items| ==> Good(items[i])
    case JObject(members) => forall i :: 0 <= i < |members| ==> Plain(members[i].key) && Good(members[i].value)
    case _ => true
  }

  lemma Assoc(a: Text, b: Text, c: Text)
    ensures a + (b + c) == (a + b) + c
  {
  }

  lemma Tail(c: char, t: Text)
    ensures ([c] + t)[1..] == t && ([c] + t)[0] == c
  {
  }

  // ---- Strings ------------------------------------------------------------------------------

  lemma {:induction false} HexBack(n: nat)
    requires n < 16
    ensures HexValue(HexDigit(n)) == n
  {
  }

  /** One escaped byte reads back as that byte. */
  lemma {:induction false} CharBack(c: char, t: Text)
    requires 0 < c as int < 256
    ensures Str(Escaped(c) + t) == match Str(t) case Fail => Fail case Ok(s, rest) => Ok([c] + s, rest)
  {
    var e := Escaped(c);
    if c as int >= 0x20 && c != '\"' && c != '\\' {
      Tail(c, t);
    } else if |e| == 2 {
      assert e + t == [e[0]] + ([e[1]] + t);
      Tail(e[0], [e[1]] + t);
      Tail(e[1], t);
      assert Escape([e[1]] + t) == Ok([c], t);
    } else {
      ControlBack(c, t);
    }
  }

  lemma {:induction false} ControlBack(c: char, t: Text)
    requires 0 < c as int < 0x20 && Escaped(c) == "\\u00" + [HexDigit(c as int / 16), HexDigit(c as int % 16)]
    ensures Str(Escaped(c) + t) == match Str(t) case Fail => Fail case Ok(s, rest) => Ok([c] + s, rest)
  {
    var n := c as int;
    var hex := "00" + [HexDigit(n / 16), HexDigit(n % 16)];
    HexBack(n / 16);
    HexBack(n % 16);
    var u := hex + t;
    assert Escaped(c) + t == ['\\'] + (['u'] + u);
    Tail('\\', ['u'] + u);
    Tail('u', u);
    assert u[0] == '0' && u[1] == '0' && u[2] == HexDigit(n / 16) && u[3] == HexDigit(n % 16) && u[4..] == t;
    assert HexValue('0') == 0;
    assert CodePoint(u) == Ok(n, t);
    assert Utf8(n) == [c];
    assert SimpleEscape('u') == "";
    assert Escape(['u'] + u) == Ok([c], t);
  }

  lemma {:induction false} StringBack(s: Text, t: Text)
    requires Plain(s)
    ensures Str(EscapedAll(s) + (['\"'] + t)) == Ok(s, t)
  {
    var q := ['\"'] + t;
    Tail('\"', t);
    if s == "" {
      assert EscapedAll(s) + q == q;
    } else {
      StringBack(s[1..], t);
      Assoc(Escaped(s[0]), EscapedAll(s[1..]), q);
      CharBack(s[0], EscapedAll(s[1..]) + q);
      assert s == [s[0]] + s[1..];
    }
  }

  // ---- Numbers ------------------------------------------------------------------------------

  lemma {:induction false} DecimalBack(n: nat)
    ensures Value(Decimal(n)) == n
    ensures Decimal(n)[0] == '0' ==> n == 0 && |Decimal(n)| == 1
  {
    if n >= 10 {
      var d := Decimal(n / 10);
      DecimalBack(n / 10);
      assert Decimal(n)[..|Decimal(n)| - 1] == d;
    } else {
      assert Decimal(n)[..0] == "";
    }
  }

  ghost predicate EndsNumber(t: Text) {
    t == "" || !(Digit(t[0]) || t[0] == '.' || t[0] == 'e' || t[0] == 'E' || t[0] == 'x' || t[0] == 'X')
  }

  /** Text made of an optional minus, digits, and something that does not go on. */
  ghost predicate IntegerText(u: Text, s: nat, d: Text, t: Text) {
    && d != "" && (forall i :: 0 <= i < |d| ==> Digit(d[i])) && EndsNumber(t)
    && s <= 1 && |u| == s + |d| + |t| && (s == 1 ==> u[0] == '-')
    && u[s..] == d + t && u[s] == d[0] && u[s..s + |d|] == d && u[s + |d|..] == t
  }

  /** The digits of such a text, by position. */
  lemma {:induction false} IntegerDigits(u: Text, s: nat, d: Text, t: Text)
    requires IntegerText(u, s, d, t)
    ensures RunEnd(u, s) == s + |d| && u[s] == d[0]
    ensures |d| > 1 ==> Digit(u[s + 1])
    ensures t != "" ==> u[s + |d|] == t[0]
  {
    var w := u[s..s + |d|];
    assert forall i :: 0 <= i < |d| ==> u[s + i] == w[i] == d[i];
    forall k | s <= k < s + |d| ensures Digit(u[k]) { assert u[k] == w[k - s]; }
    assert t != "" ==> u[s + |d|] == u[s + |d|..][0];
  }

  lemma {:induction false} StrtodStops(u: Text, s: nat, d: Text, t: Text)
    requires IntegerText(u, s, d, t)
    ensures Sign(u) == s && StrtodEnd(u) == s + |d|
  {
    IntegerDigits(u, s, d, t);
    assert !IsHex(u);
  }

  lemma {:induction false} GrammarStops(u: Text, s: nat, d: Text, t: Text)
    requires IntegerText(u, s, d, t) && Sign(u) == s
    ensures GrammarEnd(u, s + |d|) == s + |d| <==> (d[0] == '0' ==> |d| == 1)
  {
    IntegerDigits(u, s, d, t);
  }

  lemma {:induction false} NumberReads(u: Text, s: nat, d: Text, t: Text)
    requires IntegerText(u, s, d, t) && (d[0] == '0' ==> |d| == 1) && (s == 0 ==> u[0] != '-')
    ensures Number(u) == Ok(NumberValue(u[..s + |d|]), t)
  {
    StrtodStops(u, s, d, t);
    GrammarStops(u, s, d, t);
  }

  lemma {:induction false} NumberBack(n: int, t: Text)
    requires EndsNumber(t)
    ensures Number(Integer(n) + t) == Ok(JInt(n), t)
  {
    var k := if n < 0 then -n else n;
    var d, tok := Decimal(k), Integer(n);
    var s := |tok| - |d|;
    DecimalBack(k);
    IntegerTextOf(s, d, t);
    NumberReads(tok + t, s, d, t);
    assert (tok + t)[..|tok|] == tok;
    IntegerValue(n);
  }

  lemma {:induction false} IntegerTextOf(s: nat, d: Text, t: Text)
    requires s <= 1 && d != "" && (forall i :: 0 <= i < |d| ==> Digit(d[i])) && EndsNumber(t)
    ensures IntegerText((if s == 1 then ['-'] + d else d) + t, s, d, t)
  {
    if s == 1 {
      Assoc(['-'], d, t);
      Tail('-', d + t);
      Slices(['-'] + (d + t), 1, d, t);
    } else {
      Slices(d + t, 0, d, t);
    }
  }

  lemma {:induction false} Slices(u: Text, s: nat, d: Text, t: Text)
    requires s <= |u| && u[s..] == d + t && d != ""
    ensures |u| == s + |d| + |t| && u[s] == d[0] && u[s..s + |d|] == d && u[s + |d|..] == t
  {
    var w := u[s..];
    assert u[s] == w[0];
    assert u[s..s + |d|] == w[..|d|] && u[s + |d|..] == w[|d|..];
  }

  lemma {:induction false} IntegerValue(n: int)
    ensures NumberValue(Integer(n)) == JInt(n)
  {
    var k := if n < 0 then -n else n;
    var d, tok := Decimal(k), Integer(n);
    DecimalBack(k);
    if n < 0 {
      Tail('-', d);
      assert forall i :: 1 <= i < |tok| ==> tok[i] == d[i - 1];
      assert RunEnd(tok, 1) == |tok|;
    } else {
      assert tok[0..] == d && Digit(d[0]);
      assert RunEnd(tok, 0) == |tok|;
    }
  }

  // ---- Values -------------------------------------------------------------------------------

  /** What may follow a value in serialised text. */
  ghost predicate AfterValue(t: Text) { t == "" || t[0] == ',' || t[0] == ']' || t[0] == '}' }

  predicate Inert(c: char) { Ws(c) || c == ',' || c == ']' || c == '}' }

  lemma {:induction false} FirstChar(v: Json)
    requires Good(v)
    ensures Written(v) != "" && !Inert(Written(v)[0])
  {
    match v
    case JInt(n) => assert n >= 0 ==> Digit(Decimal(n)[0]);
    case _ =>
  }

  lemma {:induction false} FirstItem(items: seq<Json>)
    requires items != [] && Good(items[0])
    ensures WrittenItems(items) != "" && !Inert(WrittenItems(items)[0])
  {
    FirstChar(items[0]);
  }

  lemma {:induction false} FirstMember(members: seq<Member>)
    requires members != []
    ensures WrittenMembers(members) != "" && WrittenMembers(members)[0] == '\"'
  {
  }

  lemma {:induction false} CommaBack(u: Text, close: char)
    requires u != "" && !Ws(u[0]) && u[0] != close && close != ','
    ensures Separator([','] + u, close) == Ok(true, u)
  {
    Tail(',', u);
  }

  lemma {:induction false} CloseBack(t: Text, close: char)
    requires !Ws(close) && close != ','
    ensures Separator([close] + t, close) == Ok(false, t)
  {
    Tail(close, t);
  }

  lemma {:induction false} LiteralBack(word: Text, t: Text)
    ensures Starts(word + t, word) && (word + t)[|word|..] == t
  {
    assert (word + t)[..|word|] == word;
  }

  /** Dispatch on the first character. */
  lemma {:induction false} Opens(u: Text)
    ensures ValueAt(['['] + u) == ArrayAt(u)
    ensures ValueAt(['{'] + u) == ObjectAt(u)
  {
    Tail('[', u);
    Tail('{', u);
  }

  lemma {:induction false} WordBack(v: Json, t: Text)
    requires v.JNull? || v.JBool?
    ensures ValueAt(Written(v) + t) == Ok(v, t)
  {
    LiteralBack(Written(v), t);
  }

  lemma {:induction false} IntBack(n: int, t: Text)
    requires AfterValue(t)
    ensures ValueAt(Integer(n) + t) == Ok(JInt(n), t)
  {
    var k := if n < 0 then -n else n;
    assert Digit(Decimal(k)[0]);
    assert (Integer(n) + t)[0] == Integer(n)[0];
    NumberOpens(Integer(n) + t);
    NumberBack(n, t);
  }

  lemma {:induction false} NumberOpens(u: Text)
    requires u != "" && (u[0] == '-' || Digit(u[0]))
    ensures ValueAt(u) == Number(u)
  {
    var c := u[0];
    assert !Ws(c) && c != 'n' && c != 't' && c != 'f' && c != '[' && c != '{' && c != '\"';
    assert SkipWs(u) == u;
  }

  lemma {:induction false} StrBack(s: Text, t: Text)
    requires Plain(s)
    ensures ValueAt(Quoted(s) + t) == Ok(JString(s), t)
  {
    QuotedBack(s, t);
  }

  lemma {:induction false} ValueBack(v: Json, t: Text)
    requires Good(v) && AfterValue(t)
    ensures ValueAt(Written(v) + t) == Ok(v, t)
    decreases v, 1
  {
    match v
    case JNull => WordBack(v, t);
    case JBool(b) => WordBack(v, t);
    case JInt(n) => IntBack(n, t);
    case JString(s) => StrBack(s, t);
    case JArray(items) => ArrayBack(items, t);
    case JObject(members) => ObjectBack(members, t);
  }

  lemma {:induction false} QuotedBack(s: Text, t: Text)
    requires Plain(s)
    ensures (Quoted(s) + t)[0] == '\"' && Str((Quoted(s) + t)[1..]) == Ok(s, t)
  {
    Assoc(['\"'], EscapedAll(s) + ['\"'], t);
    Assoc(EscapedAll(s), ['\"'], t);
    Tail('\"', EscapedAll(s) + (['\"'] + t));
    StringBack(s, t);
  }

  lemma {:induction false} ArrayBack(items: seq<Json>, t: Text)
    requires forall i :: 0 <= i < |items| ==> Good(items[i])
    ensures ValueAt(Written(JArray(items)) + t) == Ok(JArray(items), t)
    decreases items, 1
  {
    var w := WrittenItems(items);
    Assoc(['['], w + [']'], t);
    Assoc(w, [']'], t);
    Opens(w + ([']'] + t));
    Tail(']', t);
    if items == [] {
      assert w + ([']'] + t) == [']'] + t;
    } else {
      FirstItem(items);
      assert (w + ([']'] + t))[0] == w[0];
      ItemsBack(items, [], t);
      assert [] + items == items;
      assert ArrayAt(w + ([']'] + t)) == Elements(w + ([']'] + t), []);
    }
  }

  /** One turn of the element loop. */
  lemma {:induction false} ElementsTurn(x: Text, acc: seq<Json>, v: Json, rest: Text)
    requires ValueAt(x) == Ok(v, rest) && Separator(rest, ']').Ok?
    ensures var sep := Separator(rest, ']');
            Elements(x, acc) == if sep.value then Elements(sep.rest, acc + [v]) else Ok(JArray(acc + [v]), sep.rest)
  {
  }

  lemma {:induction false} MembersTurn(x: Text, acc: seq<Member>, m: Member, rest: Text)
    requires MemberAt(x) == Ok(m, rest) && Separator(rest, '}').Ok?
    ensures var sep := Separator(rest, '}');
            Members(x, acc) == if sep.value then Members(sep.rest, acc + [m]) else Ok(JObject(acc + [m]), sep.rest)
  {
  }

  /** The text of two or more elements: the first, a comma and the rest, which opens with a value. */
  lemma {:induction false} ItemsText(items: seq<Json>, close: Text)
    requires |items| > 1 && forall i :: 0 <= i < |items| ==> Good(items[i])
    ensures var more := WrittenItems(items[1..]) + close;
            && WrittenItems(items) + close == Written(items[0]) + ([','] + more)
            && more != [] && !Ws(more[0]) && more[0] != ']'
  {
    var rest := items[1..];
    FirstItem(rest);
    Assoc(Written(items[0]), [','] + WrittenItems(rest), close);
    Assoc([','], WrittenItems(rest), close);
  }

  lemma {:induction false} LastItemBack(v: Json, acc: seq<Json>, t: Text)
    requires Good(v)
    ensures Elements(Written(v) + ([']'] + t), acc) == Ok(JArray(acc + [v]), t)
    decreases v, 2
  {
    ValueBack(v, [']'] + t);
    CloseBack(t, ']');
    ElementsTurn(Written(v) + ([']'] + t), acc, v, [']'] + t);
  }

  lemma {:induction false} NextItemBack(v: Json, acc: seq<Json>, more: Text)
    requires Good(v) && more != [] && !Ws(more[0]) && more[0] != ']'
    ensures Elements(Written(v) + ([','] + more), acc) == Elements(more, acc + [v])
    decreases v, 2
  {
    ValueBack(v, [','] + more);
    CommaBack(more, ']');
    ElementsTurn(Written(v) + ([','] + more), acc, v, [','] + more);
  }

  lemma {:induction false} ItemsBack(items: seq<Json>, acc: seq<Json>, t: Text)
    requires items != [] && forall i :: 0 <= i < |items| ==> Good(items[i])
    ensures Elements(WrittenItems(items) + ([']'] + t), acc) == Ok(JArray(acc + items), t)
    decreases items, 0
  {
    if |items| == 1 {
      LastItemBack(items[0], acc, t);
      assert items == [items[0]];
    } else {
      var rest := items[1..];
      ItemsText(items, [']'] + t);
      NextItemBack(items[0], acc, WrittenItems(rest) + ([']'] + t));
      ItemsBack(rest, acc + [items[0]], t);
      assert acc + [items[0]] + rest == acc + items;
    }
  }

  lemma {:induction false} ObjectBack(members: seq<Member>, t: Text)
    requires forall i :: 0 <= i < |members| ==> Plain(members[i].key) && Good(members[i].value)
    ensures ValueAt(Written(JObject(members)) + t) == Ok(JObject(members), t)
    decreases members, 1
  {
    var w := WrittenMembers(members);
    Assoc(['{'], w + ['}'], t);
    Assoc(w, ['}'], t);
    Opens(w + (['}'] + t));
    Tail('}', t);
    if members == [] {
      assert w + (['}'] + t) == ['}'] + t;
    } else {
      FirstMember(members);
      assert (w + (['}'] + t))[0] == w[0];
      MembersBack(members, [], t);
      assert [] + members == members;
      assert ObjectAt(w + (['}'] + t)) == Members(w + (['}'] + t), []);
    }
  }

  lemma {:induction false} MemberBack(m: Member, t: Text)
    requires Plain(m.key) && Good(m.value) && AfterValue(t)
    ensures MemberAt(WrittenMember(m) + t) == Ok(m, t)
    decreases m, 0
  {
    var v := Written(m.value) + t;
    Assoc(Quoted(m.key), [':'] + Written(m.value), t);
    Assoc([':'], Written(m.value), t);
    KeyBack(m.key, v);
    ValueBack(m.value, t);
  }

  lemma {:induction false} KeyBack(key: Text, t: Text)
    requires Plain(key)
    ensures KeyAt(Quoted(key) + ([':'] + t)) == Ok(key, t)
  {
    QuotedBack(key, [':'] + t);
    Tail(':', t);
  }

  /** The text of two or more members: the first, a comma and the rest, which opens with a quote. */
  lemma {:induction false} MembersText(members: seq<Member>, close: Text)
    requires |members| > 1
    ensures var more := WrittenMembers(members[1..]) + close;
            && WrittenMembers(members) + close == WrittenMember(members[0]) + ([','] + more)
            && more != [] && more[0] == '\"'
  {
    var rest := members[1..];
    FirstMember(rest);
    Assoc(WrittenMember(members[0]), [','] + WrittenMembers(rest), close);
    Assoc([','], WrittenMembers(rest), close);
  }

  lemma {:induction false} LastMemberBack(m: Member, acc: seq<Member>, t: Text)
    requires Plain(m.key) && Good(m.value)
    ensures Members(WrittenMember(m) + (['}'] + t), acc) == Ok(JObject(acc + [m]), t)
    decreases m, 1
  {
    MemberBack(m, ['}'] + t);
    CloseBack(t, '}');
    MembersTurn(WrittenMember(m) + (['}'] + t), acc, m, ['}'] + t);
  }

  lemma {:induction false} NextMemberBack(m: Member, acc: seq<Member>, more: Text)
    requires Plain(m.key) && Good(m.value) && more != [] && more[0] == '\"'
    ensures Members(WrittenMember(m) + ([','] + more), acc) == Members(more, acc + [m])
    decreases m, 1
  {
    MemberBack(m, [','] + more);
    CommaBack(more, '}');
    MembersTurn(WrittenMember(m) + ([','] + more), acc, m, [','] + more);
  }

  lemma {:induction false} MembersBack(members: seq<Member>, acc: seq<Member>, t: Text)
    requires members != [] && forall i :: 0 <= i < |members| ==> Plain(members[i].key) && Good(members[i].value)
    ensures Members(WrittenMembers(members) + (['}'] + t), acc) == Ok(JObject(acc + members), t)
    decreases members, 0
  {
    if |members| == 1 {
      LastMemberBack(members[0], acc, t);
      assert members == [members[0]];
    } else {
      var rest := members[1..];
      MembersText(members, ['}'] + t);
      NextMemberBack(members[0], acc, WrittenMembers(rest) + (['}'] + t));
      MembersBack(rest, acc + [members[0]], t);
      assert acc + [members[0]] + rest == acc + members;
    }
  }

  /**
    * For every tree of byte strings and exact integers, of any depth and width: parsing the serialised
    * text succeeds, consumes all of it and yields the same tree, key order and duplicates included.
    */
  lemma {:induction false} RoundTrip(v: Json)
    requires Good(v)
    ensures Document(Written(v)) == Ok(v, "")
  {
    ValueBack(v, "");
    assert Written(v) + "" == Written(v);
  }

  /** Serialising is injective: distinct trees have distinct texts. */
  lemma {:induction false} WrittenInjective(v: Json, w: Json)
    requires Good(v) && Good(w) && Written(v) == Written(w)
    ensures v == w
  {
    RoundTrip(v);
    RoundTrip(w);
  }
}

/** Numbers of RFC 8259 section 6 against the parser's digit rule. */
module JsonNumbers {
  import opened JsonSpec
  import opened JsonRoundTrip

  ghost predicate AllDigits(d: Text) { forall i :: 0 <= i < |d| ==> Digit(d[i]) }

  /** A number of the standard's grammar; "" marks an absent fraction or exponent. */
  datatype Rfc = Rfc(minus: bool, whole: Text, frac: Text, upper: bool, sign: Text, exp: Text)

  ghost predicate Grammatical(n: Rfc) {
    && AllDigits(n.whole) && AllDigits(n.frac) && AllDigits(n.exp)
    && n.whole != "" && (n.whole[0] == '0' ==> |n.whole| == 1)
    && (n.sign == "" || n.sign == "+" || n.sign == "-")
  }

  /** One zero, or no leading zero: what the standard asks of the whole part only. */
  predicate NoLeadingZero(d: Text) { d == "" || d[0] != '0' || |d| == 1 }

  function ExpText(n: Rfc): Text {
    if n.exp == "" then "" else [if n.upper then 'E' else 'e'] + (n.sign + n.exp)
  }

  function FracText(n: Rfc): Text {
    (if n.frac == "" then "" else ['.'] + n.frac) + ExpText(n)
  }

  function NumberText(n: Rfc): Text {
    (if n.minus then ['-'] else "") + (n.whole + FracText(n))
  }

  /** A run of digits d at position i of u, ended by r. */
  ghost predicate RunAt(u: Text, i: nat, d: Text, r: Text) {
    i <= |u| && u[i..] == d + r && d != "" && AllDigits(d) && (r == "" || !Digit(r[0]))
  }

  lemma {:induction false} DigitsAt(u: Text, i: nat, d: Text, r: Text)
    requires RunAt(u, i, d, r)
    ensures i + |d| + |r| == |u| && u[i + |d|..] == r && RunEnd(u, i) == i + |d|
    ensures Digits(u, i, |u|) == if d[0] == '0' then i + 1 else i + |d|
    ensures d[0] == '0' && |d| > 1 ==> Digit(u[i + 1])
  {
    Slices(u, i, d, r);
    var w := u[i..];
    forall k | i <= k < i + |d| ensures Digit(u[k]) { assert u[k] == w[k - i] == d[k - i]; }
    assert r != "" ==> u[i + |d|] == u[i + |d|..][0];
  }

  /** Where strtod and the grammar check stop behind a fraction: position c, with ExpText left. */
  lemma {:induction false} ExpStops(u: Text, c: nat, n: Rfc)
    requires Grammatical(n) && c <= |u| && u[c..] == ExpText(n)
    ensures ExpEnd(u, c) == |u|
    ensures n.exp == "" ==> c == |u|
    ensures n.exp != "" ==> IsExp(u, c) && RunAt(u, ExpDigits(u, c), n.exp, "")
  {
    var e := ExpText(n);
    if n.exp == "" {
      assert c == |u|;
    } else {
      var k := c + 1 + |n.sign|;
      assert u[c] == e[0] && u[k..] == e[1 + |n.sign|..] == n.exp;
      assert n.sign != "" ==> u[c + 1] == e[1] == n.sign[0];
      assert n.sign == "" ==> u[c + 1] == e[1] == n.exp[0] && Digit(n.exp[0]);
      assert ExpDigits(u, c) == k;
      assert n.exp + "" == n.exp;
      DigitsAt(u, k, n.exp, "");
    }
  }

  /** The parts of a number text, by position: whole part at a, fraction (if any) behind b, exponent (if any) at c. */
  ghost predicate Laid(u: Text, n: Rfc, a: nat, b: nat, c: nat) {
    && a == Sign(u) && RunAt(u, a, n.whole, FracText(n)) && b == a + |n.whole| && b <= c <= |u|
    && u[c..] == ExpText(n)
    && (n.frac == "" ==> c == b && (b < |u| ==> u[b] != '.'))
    && (n.frac != "" ==> b < |u| && u[b] == '.' && RunAt(u, b + 1, n.frac, ExpText(n)) && c == b + 1 + |n.frac|)
  }

  lemma {:induction false} TailsNotDigits(n: Rfc)
    requires Grammatical(n)
    ensures ExpText(n) == "" || (!Digit(ExpText(n)[0]) && ExpText(n)[0] != '.')
    ensures n.frac == "" ==> FracText(n) == ExpText(n)
    ensures n.frac != "" ==> FracText(n) == ['.'] + (n.frac + ExpText(n)) && FracText(n)[0] == '.'
  {
    Assoc(['.'], n.frac, ExpText(n));
    Tail('.', n.frac + ExpText(n));
    if n.frac == "" { assert "" + ExpText(n) == ExpText(n); }
  }

  lemma {:induction false} LayWhole(n: Rfc) returns (a: nat)
    requires Grammatical(n)
    ensures a == Sign(NumberText(n)) && RunAt(NumberText(n), a, n.whole, FracText(n))
  {
    var t := n.whole + FracText(n);
    assert Digit(n.whole[0]) && t[0] == n.whole[0];
    TailsNotDigits(n);
    if n.minus {
      a := 1;
      Tail('-', t);
    } else {
      a := 0;
      assert "" + t == t && t[0..] == t;
    }
  }

  lemma {:induction false} Lay(n: Rfc) returns (a: nat, b: nat, c: nat)
    requires Grammatical(n)
    ensures Laid(NumberText(n), n, a, b, c)
  {
    var u := NumberText(n);
    a := LayWhole(n);
    DigitsAt(u, a, n.whole, FracText(n));
    b := a + |n.whole|;
    c := LayFrac(u, n, b);
  }

  lemma {:induction false} LayFrac(u: Text, n: Rfc, b: nat) returns (c: nat)
    requires Grammatical(n) && b <= |u| && u[b..] == FracText(n)
    ensures b <= c <= |u| && u[c..] == ExpText(n)
    ensures n.frac == "" ==> c == b && (b < |u| ==> u[b] != '.')
    ensures n.frac != "" ==> b < |u| && u[b] == '.' && RunAt(u, b + 1, n.frac, ExpText(n)) && c == b + 1 + |n.frac|
  {
    TailsNotDigits(n);
    var f := u[b..];
    if n.frac == "" {
      c := b;
      assert b < |u| ==> u[b] == f[0];
    } else {
      Tail('.', n.frac + ExpText(n));
      assert u[b] == f[0] && u[b + 1..] == f[1..];
      DigitsAt(u, b + 1, n.frac, ExpText(n));
      c := b + 1 + |n.frac|;
    }
  }

  lemma {:induction false} FracStops(u: Text, n: Rfc, a: nat, b: nat, c: nat)
    requires Grammatical(n) && Laid(u, n, a, b, c)
    ensures RunEnd(u, a) == b && FracEnd(u, b) == c
  {
    DigitsAt(u, a, n.whole, FracText(n));
    if n.frac != "" { DigitsAt(u, b + 1, n.frac, ExpText(n)); }
  }

  lemma {:induction false} StrtodTakesAll(u: Text, n: Rfc, a: nat, b: nat, c: nat)
    requires Grammatical(n) && Laid(u, n, a, b, c)
    ensures StrtodEnd(u) == |u|
  {
    FracStops(u, n, a, b, c);
    ExpStops(u, c, n);
    NotHex(u, n, a, b, c);
    assert DecimalEnd(u) == ExpEnd(u, c);
  }

  /** In a number of the standard a zero is followed by a point, an exponent or nothing. */
  lemma {:induction false} NotHex(u: Text, n: Rfc, a: nat, b: nat, c: nat)
    requires Grammatical(n) && Laid(u, n, a, b, c)
    ensures !IsHex(u)
  {
    Slices(u, a, n.whole, FracText(n));
    TailsNotDigits(n);
    assert b < |u| ==> u[b] == u[b..][0] == FracText(n)[0];
    assert ExpText(n) != "" ==> ExpText(n)[0] == 'e' || ExpText(n)[0] == 'E';
  }

  lemma {:induction false} ZeroEndsFraction(u: Text, b: nat)
    requires b + 2 < |u| && u[b] == '.' && u[b + 1] == '0' && Digit(u[b + 2])
    ensures TailGrammar(u, b, |u|) < |u|
  {
    assert AfterPoint(u, b, |u|) == b + 2;
    assert !IsExp(u, b + 2);
  }

  lemma {:induction false} PointGrammar(u: Text, b: nat, frac: Text, r: Text)
    requires b < |u| && u[b] == '.' && RunAt(u, b + 1, frac, r)
    ensures b + 1 + |frac| <= |u|
    ensures NoLeadingZero(frac) ==> TailGrammar(u, b, |u|) == ExpGrammar(u, b + 1 + |frac|, |u|)
    ensures !NoLeadingZero(frac) ==> TailGrammar(u, b, |u|) < |u|
  {
    DigitsAt(u, b + 1, frac, r);
    if NoLeadingZero(frac) {
      assert AfterPoint(u, b, |u|) == b + 1 + |frac|;
    } else {
      ZeroEndsFraction(u, b);
    }
  }

  lemma {:induction false} FracGrammar(u: Text, b: nat, c: nat, frac: Text, r: Text)
    requires b <= c <= |u|
    requires frac == "" ==> c == b && (b < |u| ==> u[b] != '.')
    requires frac != "" ==> b < |u| && u[b] == '.' && RunAt(u, b + 1, frac, r) && c == b + 1 + |frac|
    ensures NoLeadingZero(frac) ==> TailGrammar(u, b, |u|) == ExpGrammar(u, c, |u|)
    ensures !NoLeadingZero(frac) ==> TailGrammar(u, b, |u|) < |u|
  {
    if frac != "" { PointGrammar(u, b, frac, r); }
  }

  lemma {:induction false} ExpGrammarIff(u: Text, c: nat, n: Rfc)
    requires Grammatical(n) && c <= |u| && u[c..] == ExpText(n)
    ensures ExpGrammar(u, c, |u|) == |u| <==> NoLeadingZero(n.exp)
  {
    ExpStops(u, c, n);
    if n.exp != "" {
      DigitsAt(u, ExpDigits(u, c), n.exp, "");
      assert ExpGrammar(u, c, |u|) == Digits(u, ExpDigits(u, c), |u|);
    }
  }

  lemma {:induction false} WholeGrammar(u: Text, n: Rfc, a: nat, b: nat, c: nat)
    requires Grammatical(n) && Laid(u, n, a, b, c)
    ensures u != "" && GrammarEnd(u, |u|) == TailGrammar(u, b, |u|)
  {
    DigitsAt(u, a, n.whole, FracText(n));
    assert Digits(u, Sign(u), |u|) == b;
  }

  lemma {:induction false} GrammarTakesAllIff(u: Text, n: Rfc, a: nat, b: nat, c: nat)
    requires Grammatical(n) && Laid(u, n, a, b, c)
    ensures GrammarEnd(u, |u|) == |u| <==> NoLeadingZero(n.frac) && NoLeadingZero(n.exp)
  {
    WholeGrammar(u, n, a, b, c);
    FracGrammar(u, b, c, n.frac, ExpText(n));
    ExpGrammarIff(u, c, n);
  }

  lemma {:induction false} AllTaken(u: Text)
    requires u != "" && StrtodEnd(u) == |u|
    ensures Number(u).Ok? <==> GrammarEnd(u, |u|) == |u|
    ensures Number(u).Ok? ==> Number(u).rest == ""
  {
    assert u[|u|..] == "";
  }

  /** A standard number is accepted if and only if neither its fraction nor its exponent has a redundant leading zero. */
  lemma {:induction false} NumberAcceptedIff(n: Rfc)
    requires Grammatical(n)
    ensures Number(NumberText(n)).Ok? <==> NoLeadingZero(n.frac) && NoLeadingZero(n.exp)
    ensures Number(NumberText(n)).Ok? ==> Number(NumberText(n)).rest == ""
  {
    var u := NumberText(n);
    var a, b, c := Lay(n);
    StrtodTakesAll(u, n, a, b, c);
    GrammarTakesAllIff(u, n, a, b, c);
    AllTaken(u);
  }

  function FiveHundredths(): Rfc { Rfc(false, "0", "05", false, "", "") }

  lemma {:induction false} FiveHundredthsText()
    ensures Grammatical(FiveHundredths()) && NumberText(FiveHundredths()) == "0.05"
  {
    assert FracText(FiveHundredths()) == ".05";
  }

  /** 0.05 is a number of the standard that the parser refuses. */
  lemma {:induction false} FiveHundredthsRefused()
    ensures Number("0.05") == Fail
  {
    var n := FiveHundredths();
    FiveHundredthsText();
    NumberAcceptedIff(n);
    assert n.frac == "05";
  }
}
