/**
  * The texts that spell a JSON value, put together from the parts RFC 8259 names: blanks between tokens, every way to write
  * a character of a string, every number. The parser accepts a text exactly when it is such a spelling, and returns its value.
  */
module JsonGrammar {
  import opened JsonSpec
  import opened JsonRoundTrip
  import opened JsonNumbers
  import opened JsonBounds

  // ---- Characters ---------------------------------------------------------------------------

  const LOWER := "0123456789abcdef"
  const UPPER := "0123456789ABCDEF"
  const SHORT := "\"\\/bfnrt"

  /** What the letters of SHORT stand for behind a backslash. */
  const MEANT := [0x22, 0x5C, 0x2F, 0x08, 0x0C, 0x0A, 0x0D, 0x09]

  /** A hexadecimal digit, in either case. */
  datatype Hex = Hex(n: nat, upper: bool)

  ghost predicate HexOk(h: Hex) { h.n < 16 }

  function HexText(h: Hex): char
    requires h.n < 16
  {
    if h.upper then UPPER[h.n] else LOWER[h.n]
  }

  /** One character of a string: as it is, behind a backslash, or by its number. */
  datatype Piece = Raw(c: char) | Short(k: nat) | ByNumber(h3: Hex, h2: Hex, h1: Hex, h0: Hex)

  ghost predicate PieceOk(p: Piece) {
    match p
    case Raw(c) => c != '\"' && c != '\\'
    case Short(k) => k < |SHORT|
    case ByNumber(h3, h2, h1, h0) => HexOk(h3) && HexOk(h2) && HexOk(h1) && HexOk(h0)
  }

  ghost function HexTexts(p: Piece): Text
    requires p.ByNumber? && PieceOk(p)
  {
    [HexText(p.h3), HexText(p.h2), HexText(p.h1), HexText(p.h0)]
  }

  /** What follows the backslash. */
  ghost function EscapeText(p: Piece): Text
    requires !p.Raw? && PieceOk(p)
  {
    if p.Short? then [SHORT[p.k]] else ['u'] + HexTexts(p)
  }

  ghost function PieceText(p: Piece): Text
    requires PieceOk(p)
  {
    if p.Raw? then [p.c] else ['\\'] + EscapeText(p)
  }

  /** The number four digits spell. */
  ghost function Spelt(p: Piece): (cp: nat)
    requires p.ByNumber? && PieceOk(p)
    ensures cp < 0x10000
  {
    p.h3.n * 4096 + p.h2.n * 256 + p.h1.n * 16 + p.h0.n
  }

  /** A byte 10xxxxxx of section 3 of RFC 3629. */
  predicate Tail10(c: char) { 0x80 <= c as int < 0xC0 }

  /**
    * The character number that bytes of the form 0xxxxxxx, 110xxxxx 10xxxxxx or 1110xxxx 10xxxxxx 10xxxxxx encode, in the
    * shortest form; -1 if they do not encode one.
    */
  function Decoded(b: Text): (cp: int)
    ensures -1 <= cp < 0x10000
  {
    if |b| == 1 && b[0] as int < 0x80 then b[0] as int
    else if |b| == 2 && 0xC0 <= b[0] as int < 0xE0 && Tail10(b[1]) then
      var cp := (b[0] as int - 0xC0) * 64 + (b[1] as int - 0x80);
      if cp < 0x80 then -1 else cp
    else if |b| == 3 && 0xE0 <= b[0] as int < 0xF0 && Tail10(b[1]) && Tail10(b[2]) then
      var cp := (b[0] as int - 0xE0) * 4096 + (b[1] as int - 0x80) * 64 + (b[2] as int - 0x80);
      if cp < 0x800 then -1 else cp
    else -1
  }

  /** The encoder inverts the decoder: every 16-bit number has its bytes, and no other bytes encode it. */
  lemma {:induction false} Utf8Iff(cp: nat, b: Text)
    requires cp < 0x10000
    ensures Decoded(b) == cp <==> b == Utf8(cp)
  {
    assert cp == cp / 4096 * 4096 + cp / 64 % 64 * 64 + cp % 64;
    if Decoded(b) == cp && |b| == 2 {
      assert b[0] as int - 0xC0 == cp / 64 && b[1] as int - 0x80 == cp % 64;
      assert b == [b[0], b[1]];
    } else if Decoded(b) == cp && |b| == 3 {
      assert b[0] as int - 0xE0 == cp / 4096 && b[1] as int - 0x80 == cp / 64 % 64 && b[2] as int - 0x80 == cp % 64;
      assert b == [b[0], b[1], b[2]];
    }
  }

  /** The bytes are valid UTF-8: they encode a character, and halves of surrogate pairs are none. */
  predicate ValidUtf8(b: Text) { Decoded(b) >= 0 && !(0xD800 <= Decoded(b) < 0xE000) }

  /** The bytes of an escape by number are valid UTF-8 if and only if the number is not half of a surrogate pair. */
  lemma {:induction false} EscapeValidIff(p: Piece)
    requires PieceOk(p) && p.ByNumber?
    ensures ValidUtf8(PieceBytes(p)) <==> !(0xD800 <= Spelt(p) <= 0xDFFF)
  {
    Utf8Iff(Spelt(p), PieceBytes(p));
  }

  /** The bytes of one character: those that decode to the number, for an escape by number. */
  ghost predicate Denotes(p: Piece, b: Text)
    requires PieceOk(p)
  {
    match p
    case Raw(c) => b == [c]
    case Short(k) => |b| == 1 && b[0] as int == MEANT[k]
    case ByNumber(_, _, _, _) => Decoded(b) == Spelt(p)
  }

  lemma {:induction false} HexRead(h: Hex)
    requires HexOk(h)
    ensures HexValue(HexText(h)) == h.n
  {
  }

  lemma {:induction false} FourRead(p: Piece, u: Text, t: Text)
    requires PieceOk(p) && p.ByNumber? && u == HexTexts(p) + t
    ensures CodePoint(u) == Ok(Spelt(p), t)
  {
    assert u[0] == HexText(p.h3) && u[1] == HexText(p.h2) && u[2] == HexText(p.h1) && u[3] == HexText(p.h0) && u[4..] == t;
    HexRead(p.h3);
    HexRead(p.h2);
    HexRead(p.h1);
    HexRead(p.h0);
  }

  lemma {:induction false} EscapeU(u: Text, cp: nat, t: Text)
    requires CodePoint(u) == Ok(cp, t)
    ensures Escape(['u'] + u) == Ok(Utf8(cp), t)
  {
    Tail('u', u);
    assert SimpleEscape('u') == "";
  }

  lemma {:induction false} EscapeLetter(k: nat, t: Text)
    requires k < |SHORT|
    ensures Escape([SHORT[k]] + t) == Ok([Chr(MEANT[k])], t)
  {
    Tail(SHORT[k], t);
    assert SimpleEscape(SHORT[k]) == [Chr(MEANT[k])];
  }

  /** Every escape, by letter or by number in either case, is read as the bytes it denotes. */
  lemma {:induction false} EscapeRead(p: Piece, b: Text, t: Text)
    requires PieceOk(p) && !p.Raw? && Denotes(p, b)
    ensures Escape(EscapeText(p) + t) == Ok(b, t)
  {
    if p.Short? {
      EscapeLetter(p.k, t);
      assert b == [b[0]];
    } else {
      Assoc(['u'], HexTexts(p), t);
      FourRead(p, HexTexts(p) + t, t);
      EscapeU(HexTexts(p) + t, Spelt(p), t);
      Utf8Iff(Spelt(p), b);
    }
  }

  /** The bytes a piece denotes; there are no others. */
  ghost function PieceBytes(p: Piece): (b: Text)
    requires PieceOk(p)
    ensures Denotes(p, b)
  {
    match p
    case Raw(c) => [c]
    case Short(k) => [Chr(MEANT[k])]
    case ByNumber(_, _, _, _) =>
      Utf8Iff(Spelt(p), Utf8(Spelt(p)));
      Utf8(Spelt(p))
  }

  /** An escape that is accepted is one of the pieces. */
  lemma {:induction false} EscapeSound(t: Text) returns (p: Piece)
    requires Escape(t).Ok?
    ensures PieceOk(p) && !p.Raw? && t == EscapeText(p) + Escape(t).rest && Escape(t).value == PieceBytes(p)
  {
    assert t == [t[0]] + t[1..];
    if SimpleEscape(t[0]) != "" {
      p := ShortOf(t[0]);
    } else {
      p := NumberOf(t[1..]);
      Assoc(['u'], HexTexts(p), Escape(t).rest);
    }
  }

  lemma {:induction false} ShortOf(c: char) returns (p: Piece)
    requires SimpleEscape(c) != ""
    ensures PieceOk(p) && p.Short? && SHORT[p.k] == c && SimpleEscape(c) == PieceBytes(p)
  {
    var k := if c == '\"' then 0 else if c == '\\' then 1 else if c == '/' then 2 else if c == 'b' then 3
             else if c == 'f' then 4 else if c == 'n' then 5 else if c == 'r' then 6 else 7;
    p := Short(k);
  }

  lemma {:induction false} HexOf(c: char) returns (h: Hex)
    requires HexValue(c) >= 0
    ensures HexOk(h) && HexText(h) == c && h.n == HexValue(c)
  {
    h := Hex(HexValue(c), 'A' <= c <= 'F');
  }

  lemma {:induction false} NumberOf(t: Text) returns (p: Piece)
    requires CodePoint(t).Ok?
    ensures PieceOk(p) && p.ByNumber? && Spelt(p) == CodePoint(t).value
    ensures t == HexTexts(p) + CodePoint(t).rest
  {
    var h3 := HexOf(t[0]);
    var h2 := HexOf(t[1]);
    var h1 := HexOf(t[2]);
    var h0 := HexOf(t[3]);
    p := ByNumber(h3, h2, h1, h0);
    assert t == [t[0], t[1], t[2], t[3]] + t[4..];
  }

  // ---- Strings ------------------------------------------------------------------------------

  ghost predicate PiecesOk(ps: seq<Piece>) { forall i :: 0 <= i < |ps| ==> PieceOk(ps[i]) }

  ghost function Texts(ps: seq<Piece>): Text
    requires PiecesOk(ps)
  {
    if ps == [] then "" else PieceText(ps[0]) + Texts(ps[1..])
  }

  ghost function Bytes(ps: seq<Piece>): Text
    requires PiecesOk(ps)
  {
    if ps == [] then "" else PieceBytes(ps[0]) + Bytes(ps[1..])
  }

  lemma {:induction false} StrEscape(u: Text, b: Text, t: Text)
    requires Escape(u) == Ok(b, t)
    ensures Str(['\\'] + u) == match Str(t) case Fail => Fail case Ok(s, rest) => Ok(b + s, rest)
  {
    Tail('\\', u);
  }

  lemma {:induction false} PieceRead(p: Piece, t: Text)
    requires PieceOk(p)
    ensures Str(PieceText(p) + t) == match Str(t) case Fail => Fail case Ok(s, rest) => Ok(PieceBytes(p) + s, rest)
  {
    if p.Raw? {
      Tail(p.c, t);
    } else {
      EscapeRead(p, PieceBytes(p), t);
      Assoc(['\\'], EscapeText(p), t);
      StrEscape(EscapeText(p) + t, PieceBytes(p), t);
    }
  }

  /** Whatever way its characters are written, a string is read as their bytes. */
  lemma {:induction false} StringRead(ps: seq<Piece>, t: Text)
    requires PiecesOk(ps)
    ensures Str(Texts(ps) + (['\"'] + t)) == Ok(Bytes(ps), t)
  {
    var q := ['\"'] + t;
    Tail('\"', t);
    if ps == [] {
      assert Texts(ps) + q == q;
    } else {
      StringRead(ps[1..], t);
      Assoc(PieceText(ps[0]), Texts(ps[1..]), q);
      PieceRead(ps[0], Texts(ps[1..]) + q);
    }
  }

  lemma {:induction false} OnePieceMore(p: Piece, ps: seq<Piece>)
    requires PieceOk(p) && PiecesOk(ps)
    ensures PiecesOk([p] + ps) && Texts([p] + ps) == PieceText(p) + Texts(ps) && Bytes([p] + ps) == PieceBytes(p) + Bytes(ps)
  {
    assert ([p] + ps)[1..] == ps;
  }

  /** An accepted string is made of pieces up to its closing quote. */
  lemma {:induction false} StringSound(t: Text) returns (ps: seq<Piece>)
    requires Str(t).Ok?
    ensures PiecesOk(ps) && t == Texts(ps) + (['\"'] + Str(t).rest) && Str(t).value == Bytes(ps)
    decreases |t|
  {
    if t[0] == '\"' {
      ps := [];
      assert t == [t[0]] + t[1..];
    } else {
      var p, rest := FirstPiece(t);
      var more := StringSound(rest);
      ps := [p] + more;
      OnePieceMore(p, more);
      Assoc(PieceText(p), Texts(more), ['\"'] + Str(t).rest);
    }
  }

  lemma {:induction false} FirstPiece(t: Text) returns (p: Piece, rest: Text)
    requires Str(t).Ok? && t[0] != '\"'
    ensures PieceOk(p) && t == PieceText(p) + rest && |rest| < |t|
    ensures Str(rest).Ok? && Str(t) == Ok(PieceBytes(p) + Str(rest).value, Str(rest).rest)
  {
    assert t == [t[0]] + t[1..];
    if t[0] != '\\' {
      p, rest := Raw(t[0]), t[1..];
    } else {
      p := EscapeSound(t[1..]);
      rest := Escape(t[1..]).rest;
      Assoc(['\\'], EscapeText(p), rest);
    }
  }

  // ---- Numbers ------------------------------------------------------------------------------

  /** The numbers of the standard that the parser takes: no redundant zero in front of fraction or exponent either. */
  ghost predicate NumOk(n: Rfc) { Grammatical(n) && NoLeadingZero(n.frac) && NoLeadingZero(n.exp) }

  lemma {:induction false} NumberRead(n: Rfc, t: Text)
    requires NumOk(n) && Ends(t)
    ensures NumberText(n) != "" && Number(NumberText(n) + t) == Ok(NumberValue(NumberText(n)), t)
  {
    var u := NumberText(n);
    NumberAcceptedIff(n);
    assert u != "" && StrtodEnd(u) == |u|;
    EndsStrtod(u, t);
    NumberWithin(u, t);
    assert (u + t)[..|u|] == u && (u + t)[|u|..] == t && u[..|u|] == u;
  }

  lemma {:induction false} RunOf(t: Text, i: nat, end: nat)
    requires i <= end <= |t| && Digits(t, i, end) >= 0
    ensures var d := t[i..Digits(t, i, end)]; d != "" && AllDigits(d) && NoLeadingZero(d)
  {
    var r := Digits(t, i, end);
    var d := t[i..r];
    forall k | 0 <= k < |d| ensures Digit(d[k]) { assert d[k] == t[i + k]; }
    assert d[0] == t[i];
  }

  /** The exponent, or "", that the check found from j to the end. */
  lemma {:induction false} ExpOf(t: Text, j: nat, end: nat) returns (upper: bool, sign: Text, exp: Text)
    requires j <= end <= |t| && ExpGrammar(t, j, end) == end
    ensures AllDigits(exp) && NoLeadingZero(exp) && (sign == "" || sign == "+" || sign == "-")
    ensures t[j..end] == if exp == "" then "" else [if upper then 'E' else 'e'] + (sign + exp)
  {
    upper, sign, exp := false, "", "";
    if j < end && IsExp(t, j) {
      upper := t[j] == 'E';
      var k := if j + 1 < end && (t[j + 1] == '+' || t[j + 1] == '-') then j + 2 else j + 1;
      RunOf(t, k, end);
      sign, exp := t[j + 1..k], t[k..end];
      assert k == j + 2 ==> sign == [t[j + 1]];
      assert t[j..end] == [t[j]] + (sign + exp);
    }
  }

  /** The fraction, or "", that the check found at i. */
  lemma {:induction false} FracOf(t: Text, i: nat, end: nat) returns (frac: Text, j: nat)
    requires i <= end <= |t| && AfterPoint(t, i, end) >= 0
    ensures j == AfterPoint(t, i, end) && i <= j && AllDigits(frac) && NoLeadingZero(frac)
    ensures t[i..j] == if frac == "" then "" else ['.'] + frac
  {
    frac, j := "", AfterPoint(t, i, end);
    if i < end && t[i] == '.' {
      RunOf(t, i + 1, end);
      frac := t[i + 1..j];
      assert t[i..j] == [t[i]] + frac;
    }
  }

  lemma {:induction false} FourParts(t: Text, s: nat, i: nat, j: nat, end: nat)
    requires s <= i <= j <= end <= |t|
    ensures t[..end] == t[..s] + (t[s..i] + (t[i..j] + t[j..end])) && t == t[..end] + t[end..]
  {
  }

  /** The number whose parts the check found in t. */
  lemma {:induction false} NumberFound(t: Text, end: nat) returns (n: Rfc)
    requires 0 < end <= |t| && Sign(t) <= end && GrammarEnd(t, end) == end
    ensures NumOk(n) && t[..end] == NumberText(n)
  {
    var s := Sign(t);
    var i := Digits(t, s, end);
    RunOf(t, s, end);
    var frac, j := FracOf(t, i, end);
    var upper, sign, exp := ExpOf(t, j, end);
    n := Rfc(s == 1, t[s..i], frac, upper, sign, exp);
    PartsText(t, s, i, j, end, n);
  }

  lemma {:induction false} PartsText(t: Text, s: nat, i: nat, j: nat, end: nat, n: Rfc)
    requires s == Sign(t) && s <= i <= j <= end <= |t|
    requires n.minus == (s == 1) && n.whole == t[s..i] && t[j..end] == ExpText(n)
    requires t[i..j] == if n.frac == "" then "" else ['.'] + n.frac
    ensures t[..end] == NumberText(n)
  {
    FourParts(t, s, i, j, end);
    assert t[..s] == if n.minus then ['-'] else "";
  }

  lemma {:induction false} NumberParts(t: Text) returns (end: nat)
    requires Number(t).Ok?
    ensures 0 < end <= |t| && Sign(t) <= end && GrammarEnd(t, end) == end
    ensures Number(t) == Ok(NumberValue(t[..end]), t[end..])
  {
    end := StrtodEnd(t);
  }

  /** An accepted number is one of the standard's, without redundant zeros. */
  lemma {:induction false} NumberSound(t: Text) returns (n: Rfc)
    requires Number(t).Ok?
    ensures NumOk(n) && t == NumberText(n) + Number(t).rest && Number(t).value == NumberValue(NumberText(n))
  {
    var end := NumberParts(t);
    n := NumberFound(t, end);
    FourParts(t, 0, 0, 0, end);
  }

  // ---- Values -------------------------------------------------------------------------------

  /** Space, tab, line feed or carriage return. */
  predicate Gap(c: char) { c == ' ' || c == '\t' || c == '\n' || c == '\r' }

  ghost predicate Blank(b: Text) { forall i :: 0 <= i < |b| ==> Gap(b[i]) }

  /** A value as written. */
  datatype Tree =
    | TNull
    | TTrue
    | TFalse
    | TNumber(n: Rfc)
    | TString(ps: seq<Piece>)
    | TNoItems(gap: Text)
    | TItems(items: seq<Item>)
    | TNoFields(gap: Text)
    | TFields(fields: seq<Field>)

  /** An element, and the blanks around it. */
  datatype Item = Item(before: Text, tree: Tree, after: Text)

  /** A member, and the blanks in front of its key, around its colon and behind its value. */
  datatype Field = Field(before: Text, key: seq<Piece>, colon: Text, item: Item)

  ghost predicate TreeOk(v: Tree)
    decreases v, 1
  {
    match v
    case TNumber(n) => NumOk(n)
    case TString(ps) => PiecesOk(ps)
    case TNoItems(gap) => Blank(gap)
    case TItems(items) => items != [] && forall i :: 0 <= i < |items| ==> ItemOk(items[i])
    case TNoFields(gap) => Blank(gap)
    case TFields(fields) => fields != [] && forall i :: 0 <= i < |fields| ==> FieldOk(fields[i])
    case _ => true
  }

  ghost predicate ItemOk(x: Item)
    decreases x, 2
  {
    Blank(x.before) && Blank(x.after) && TreeOk(x.tree)
  }

  ghost predicate FieldOk(f: Field)
    decreases f, 3
  {
    Blank(f.before) && PiecesOk(f.key) && Blank(f.colon) && ItemOk(f.item)
  }

  ghost function StringText(ps: seq<Piece>): Text
    requires PiecesOk(ps)
  {
    ['\"'] + (Texts(ps) + ['\"'])
  }

  ghost function TreeText(v: Tree): Text
    requires TreeOk(v)
    decreases v, 1
  {
    match v
    case TNull => "null"
    case TTrue => "true"
    case TFalse => "false"
    case TNumber(n) => NumberText(n)
    case TString(ps) => StringText(ps)
    case TNoItems(gap) => ['['] + (gap + [']'])
    case TItems(items) => ['['] + (ItemsText(items) + [']'])
    case TNoFields(gap) => ['{'] + (gap + ['}'])
    case TFields(fields) => ['{'] + (FieldsText(fields) + ['}'])
  }

  ghost function ItemText(x: Item): Text
    requires ItemOk(x)
    decreases x, 2
  {
    x.before + (TreeText(x.tree) + x.after)
  }

  ghost function FieldText(f: Field): Text
    requires FieldOk(f)
    decreases f, 3
  {
    f.before + (StringText(f.key) + (f.colon + ([':'] + ItemText(f.item))))
  }

  ghost function ItemsText(items: seq<Item>): Text
    requires items != [] && forall i :: 0 <= i < |items| ==> ItemOk(items[i])
    decreases items, 0
  {
    if |items| == 1 then ItemText(items[0]) else ItemText(items[0]) + ([','] + ItemsText(items[1..]))
  }

  ghost function FieldsText(fields: seq<Field>): Text
    requires fields != [] && forall i :: 0 <= i < |fields| ==> FieldOk(fields[i])
    decreases fields, 0
  {
    if |fields| == 1 then FieldText(fields[0]) else FieldText(fields[0]) + ([','] + FieldsText(fields[1..]))
  }

  /** What the text means; blanks and ways of writing are gone. */
  ghost function Meaning(v: Tree): Json
    requires TreeOk(v)
    decreases v, 1
  {
    match v
    case TNull => JNull
    case TTrue => JBool(true)
    case TFalse => JBool(false)
    case TNumber(n) => NumberValue(NumberText(n))
    case TString(ps) => JString(Bytes(ps))
    case TNoItems(_) => JArray([])
    case TItems(items) => JArray(ItemMeanings(items))
    case TNoFields(_) => JObject([])
    case TFields(fields) => JObject(FieldMeanings(fields))
  }

  ghost function ItemMeaning(x: Item): Json
    requires ItemOk(x)
    decreases x, 2
  {
    Meaning(x.tree)
  }

  ghost function ItemMeanings(items: seq<Item>): seq<Json>
    requires forall i :: 0 <= i < |items| ==> ItemOk(items[i])
    decreases items, 0
  {
    if items == [] then [] else [ItemMeaning(items[0])] + ItemMeanings(items[1..])
  }

  ghost function FieldMeaning(f: Field): Member
    requires FieldOk(f)
    decreases f, 3
  {
    Member(Bytes(f.key), ItemMeaning(f.item))
  }

  ghost function FieldMeanings(fields: seq<Field>): seq<Member>
    requires forall i :: 0 <= i < |fields| ==> FieldOk(fields[i])
    decreases fields, 0
  {
    if fields == [] then [] else [FieldMeaning(fields[0])] + FieldMeanings(fields[1..])
  }

  // ---- Every spelling is accepted -----------------------------------------------------------

  lemma {:induction false} Skips(b: Text, u: Text)
    requires Blank(b)
    ensures SkipWs(b + u) == SkipWs(u)
  {
    if b == "" {
      assert b + u == u;
    } else {
      assert Gap(b[0]);
      assert (b + u)[1..] == b[1..] + u;
      Skips(b[1..], u);
    }
  }

  lemma {:induction false} SkipsTo(b: Text, u: Text)
    requires Blank(b) && u != "" && !Ws(u[0])
    ensures SkipWs(b + u) == u
  {
    Skips(b, u);
  }

  /** Values, keys and elements are looked for behind the blanks. */
  lemma {:induction false} SameValue(x: Text, y: Text)
    requires SkipWs(x) == SkipWs(y)
    ensures ValueAt(x) == ValueAt(y)
  {
  }

  lemma {:induction false} SameElements(x: Text, y: Text, acc: seq<Json>)
    requires SkipWs(x) == SkipWs(y)
    ensures Elements(x, acc) == Elements(y, acc)
  {
    SameValue(x, y);
  }

  lemma {:induction false} SameMembers(x: Text, y: Text, acc: seq<Member>)
    requires SkipWs(x) == SkipWs(y)
    ensures Members(x, acc) == Members(y, acc)
  {
    assert KeyAt(x) == KeyAt(y);
    assert MemberAt(x) == MemberAt(y);
  }

  lemma {:induction false} SkipTwice(t: Text)
    ensures SkipWs(SkipWs(t)) == SkipWs(t)
  {
  }

  lemma {:induction false} FirstOf(v: Tree)
    requires TreeOk(v)
    ensures TreeText(v) != "" && !Inert(TreeText(v)[0])
  {
    if v.TNumber? {
      var t := v.n.whole + FracText(v.n);
      assert t[0] == v.n.whole[0] && Digit(v.n.whole[0]);
      assert v.n.minus ==> NumberText(v.n)[0] == '-';
      assert !v.n.minus ==> NumberText(v.n) == t;
    }
  }

  lemma {:induction false} EndsHere(after: Text, c: char, t: Text)
    requires Blank(after) && (c == ',' || c == ']' || c == '}')
    ensures Ends(after + ([c] + t))
  {
    if after != "" { assert Gap(after[0]); }
  }

  lemma {:induction false} CloseRead(after: Text, close: char, t: Text)
    requires Blank(after) && !Ws(close) && close != ','
    ensures Separator(after + ([close] + t), close) == Ok(false, t)
  {
    SkipsTo(after, [close] + t);
    Tail(close, t);
  }

  lemma {:induction false} CommaRead(after: Text, close: char, u: Text)
    requires Blank(after) && close != ',' && SkipWs(u) != "" && SkipWs(u)[0] != close
    ensures Separator(after + ([','] + u), close) == Ok(true, SkipWs(u))
  {
    SkipsTo(after, [','] + u);
    Tail(',', u);
  }

  lemma {:induction false} StringTextRead(ps: seq<Piece>, t: Text)
    requires PiecesOk(ps)
    ensures (StringText(ps) + t)[0] == '\"' && Str((StringText(ps) + t)[1..]) == Ok(Bytes(ps), t)
  {
    Assoc(['\"'], Texts(ps) + ['\"'], t);
    Assoc(Texts(ps), ['\"'], t);
    Tail('\"', Texts(ps) + (['\"'] + t));
    StringRead(ps, t);
  }

  lemma {:induction false} WordRead(v: Tree, t: Text)
    requires v.TNull? || v.TTrue? || v.TFalse?
    ensures ValueAt(TreeText(v) + t) == Ok(Meaning(v), t)
  {
    LiteralBack(TreeText(v), t);
  }

  lemma {:induction false} StringValueRead(ps: seq<Piece>, t: Text)
    requires PiecesOk(ps)
    ensures ValueAt(StringText(ps) + t) == Ok(JString(Bytes(ps)), t)
  {
    StringTextRead(ps, t);
    assert SkipWs(StringText(ps) + t) == StringText(ps) + t;
  }

  lemma {:induction false} NumberValueRead(n: Rfc, t: Text)
    requires NumOk(n) && Ends(t)
    ensures ValueAt(NumberText(n) + t) == Ok(NumberValue(NumberText(n)), t)
  {
    NumberRead(n, t);
    var r := n.whole + FracText(n);
    assert r[0] == n.whole[0] && Digit(n.whole[0]);
    assert !n.minus ==> NumberText(n) == r;
    NumberOpens(NumberText(n) + t);
  }

  /** Brackets around inner text. */
  lemma {:induction false} Bracketed(open: char, inner: Text, close: char, t: Text)
    ensures ([open] + (inner + [close])) + t == [open] + (inner + ([close] + t))
  {
    Assoc([open], inner + [close], t);
    Assoc(inner, [close], t);
  }

  lemma {:induction false} EmptyRead(gap: Text, t: Text)
    requires Blank(gap)
    ensures ArrayAt(gap + ([']'] + t)) == Ok(JArray([]), t)
    ensures ObjectAt(gap + (['}'] + t)) == Ok(JObject([]), t)
  {
    SkipsTo(gap, [']'] + t);
    SkipsTo(gap, ['}'] + t);
    Tail(']', t);
    Tail('}', t);
  }

  /** A value in brackets is what is found behind the opening one. */
  lemma {:induction false} BracketRead(inner: Text, t: Text)
    ensures ValueAt((['['] + (inner + [']'])) + t) == ArrayAt(inner + ([']'] + t))
    ensures ValueAt((['{'] + (inner + ['}'])) + t) == ObjectAt(inner + (['}'] + t))
  {
    Bracketed('[', inner, ']', t);
    Opens(inner + ([']'] + t));
    Bracketed('{', inner, '}', t);
    Opens(inner + (['}'] + t));
  }

  /** Every spelling of a value, whatever follows that could not continue a number, is read as the value. */
  lemma {:induction false} ValueRead(v: Tree, t: Text)
    requires TreeOk(v) && Ends(t)
    ensures ValueAt(TreeText(v) + t) == Ok(Meaning(v), t)
    decreases v, 1
  {
    match v
    case TNumber(n) => NumberValueRead(n, t);
    case TString(ps) => StringValueRead(ps, t);
    case TNoItems(gap) =>
      BracketRead(gap, t);
      EmptyRead(gap, t);
    case TItems(items) =>
      BracketRead(ItemsText(items), t);
      ArrayRead(items, t);
    case TNoFields(gap) =>
      BracketRead(gap, t);
      EmptyRead(gap, t);
    case TFields(fields) =>
      BracketRead(FieldsText(fields), t);
      ObjectRead(fields, t);
    case _ => WordRead(v, t);
  }

  lemma {:induction false} ItemSplit(x: Item, z: Text)
    requires ItemOk(x)
    ensures ItemText(x) + z == x.before + (TreeText(x.tree) + (x.after + z))
    ensures SkipWs(ItemText(x) + z) == TreeText(x.tree) + (x.after + z)
    ensures SkipWs(ItemText(x) + z) != "" && !Inert(SkipWs(ItemText(x) + z)[0])
  {
    Assoc(x.before, TreeText(x.tree) + x.after, z);
    Assoc(TreeText(x.tree), x.after, z);
    FirstOf(x.tree);
    SkipsTo(x.before, TreeText(x.tree) + (x.after + z));
  }

  lemma {:induction false} ItemRead(x: Item, c: char, t: Text)
    requires ItemOk(x) && (c == ',' || c == ']' || c == '}')
    ensures ValueAt(ItemText(x) + ([c] + t)) == Ok(ItemMeaning(x), x.after + ([c] + t))
    decreases x, 2
  {
    var z := [c] + t;
    EndsHere(x.after, c, t);
    ItemSplit(x, z);
    SkipTwice(ItemText(x) + z);
    SameValue(ItemText(x) + z, TreeText(x.tree) + (x.after + z));
    ValueRead(x.tree, x.after + z);
  }

  lemma {:induction false} ItemsSplit(items: seq<Item>, z: Text)
    requires |items| > 1 && forall i :: 0 <= i < |items| ==> ItemOk(items[i])
    ensures ItemsText(items) + z == ItemText(items[0]) + ([','] + (ItemsText(items[1..]) + z))
  {
    Assoc(ItemText(items[0]), [','] + ItemsText(items[1..]), z);
    Assoc([','], ItemsText(items[1..]), z);
  }

  lemma {:induction false} ItemsOpen(items: seq<Item>, z: Text)
    requires items != [] && forall i :: 0 <= i < |items| ==> ItemOk(items[i])
    ensures SkipWs(ItemsText(items) + z) != "" && !Inert(SkipWs(ItemsText(items) + z)[0])
  {
    if |items| > 1 {
      ItemsSplit(items, z);
      ItemSplit(items[0], [','] + (ItemsText(items[1..]) + z));
    } else {
      ItemSplit(items[0], z);
    }
  }

  lemma {:induction false} LastItemRead(x: Item, acc: seq<Json>, t: Text)
    requires ItemOk(x)
    ensures Elements(ItemText(x) + ([']'] + t), acc) == Ok(JArray(acc + [ItemMeaning(x)]), t)
    decreases x, 3
  {
    ItemRead(x, ']', t);
    CloseRead(x.after, ']', t);
    ElementsTurn(ItemText(x) + ([']'] + t), acc, ItemMeaning(x), x.after + ([']'] + t));
  }

  lemma {:induction false} NextItemRead(x: Item, acc: seq<Json>, u: Text)
    requires ItemOk(x) && SkipWs(u) != "" && SkipWs(u)[0] != ']'
    ensures Elements(ItemText(x) + ([','] + u), acc) == Elements(u, acc + [ItemMeaning(x)])
    decreases x, 3
  {
    ItemRead(x, ',', u);
    CommaRead(x.after, ']', u);
    ElementsTurn(ItemText(x) + ([','] + u), acc, ItemMeaning(x), x.after + ([','] + u));
    SkipTwice(u);
    SameElements(SkipWs(u), u, acc + [ItemMeaning(x)]);
  }

  lemma {:induction false} ItemsTurn(items: seq<Item>, acc: seq<Json>, t: Text)
    requires |items| > 1 && forall i :: 0 <= i < |items| ==> ItemOk(items[i])
    ensures Elements(ItemsText(items) + ([']'] + t), acc)
         == Elements(ItemsText(items[1..]) + ([']'] + t), acc + [ItemMeaning(items[0])])
    decreases items, 0
  {
    ItemsSplit(items, [']'] + t);
    ItemsOpen(items[1..], [']'] + t);
    NextItemRead(items[0], acc, ItemsText(items[1..]) + ([']'] + t));
  }

  lemma {:induction false} ItemsRead(items: seq<Item>, acc: seq<Json>, t: Text)
    requires items != [] && forall i :: 0 <= i < |items| ==> ItemOk(items[i])
    ensures Elements(ItemsText(items) + ([']'] + t), acc) == Ok(JArray(acc + ItemMeanings(items)), t)
    decreases items, 1
  {
    var m, rest := ItemMeaning(items[0]), items[1..];
    assert ItemMeanings(items) == [m] + ItemMeanings(rest);
    if |items| == 1 {
      LastItemRead(items[0], acc, t);
      assert [m] + ItemMeanings(rest) == [m];
    } else {
      ItemsTurn(items, acc, t);
      ItemsRead(rest, acc + [m], t);
      assert acc + [m] + ItemMeanings(rest) == acc + ([m] + ItemMeanings(rest));
    }
  }

  lemma {:induction false} HasElements(u: Text)
    requires SkipWs(u) != "" && SkipWs(u)[0] != ']'
    ensures ArrayAt(u) == Elements(u, [])
  {
    SkipTwice(u);
    SameElements(SkipWs(u), u, []);
  }

  lemma {:induction false} HasMembers(u: Text)
    requires SkipWs(u) != "" && SkipWs(u)[0] != '}'
    ensures ObjectAt(u) == Members(u, [])
  {
    SkipTwice(u);
    SameMembers(SkipWs(u), u, []);
  }

  lemma {:induction false} ArrayRead(items: seq<Item>, t: Text)
    requires items != [] && forall i :: 0 <= i < |items| ==> ItemOk(items[i])
    ensures ArrayAt(ItemsText(items) + ([']'] + t)) == Ok(JArray(ItemMeanings(items)), t)
    decreases items, 2
  {
    ItemsOpen(items, [']'] + t);
    HasElements(ItemsText(items) + ([']'] + t));
    ItemsRead(items, [], t);
    assert [] + ItemMeanings(items) == ItemMeanings(items);
  }

  lemma {:induction false} FieldSplit(f: Field, z: Text)
    requires FieldOk(f)
    ensures FieldText(f) + z == f.before + (StringText(f.key) + (f.colon + ([':'] + (ItemText(f.item) + z))))
    ensures SkipWs(FieldText(f) + z) == StringText(f.key) + (f.colon + ([':'] + (ItemText(f.item) + z)))
    ensures SkipWs(FieldText(f) + z) != "" && SkipWs(FieldText(f) + z)[0] == '\"'
  {
    var x := ItemText(f.item);
    Assoc([':'], x, z);
    Assoc(f.colon, [':'] + x, z);
    Assoc(StringText(f.key), f.colon + ([':'] + x), z);
    Assoc(f.before, StringText(f.key) + (f.colon + ([':'] + x)), z);
    SkipsTo(f.before, StringText(f.key) + (f.colon + ([':'] + (x + z))));
  }

  lemma {:induction false} KeyRead(f: Field, z: Text)
    requires FieldOk(f)
    ensures KeyAt(FieldText(f) + z) == Ok(Bytes(f.key), ItemText(f.item) + z)
  {
    var w := ItemText(f.item) + z;
    FieldSplit(f, z);
    StringTextRead(f.key, f.colon + ([':'] + w));
    SkipsTo(f.colon, [':'] + w);
    Tail(':', w);
  }

  lemma {:induction false} FieldRead(f: Field, c: char, t: Text)
    requires FieldOk(f) && (c == ',' || c == ']' || c == '}')
    ensures MemberAt(FieldText(f) + ([c] + t)) == Ok(FieldMeaning(f), f.item.after + ([c] + t))
    decreases f, 3
  {
    KeyRead(f, [c] + t);
    ItemRead(f.item, c, t);
  }

  lemma {:induction false} FieldsSplit(fields: seq<Field>, z: Text)
    requires |fields| > 1 && forall i :: 0 <= i < |fields| ==> FieldOk(fields[i])
    ensures FieldsText(fields) + z == FieldText(fields[0]) + ([','] + (FieldsText(fields[1..]) + z))
  {
    Assoc(FieldText(fields[0]), [','] + FieldsText(fields[1..]), z);
    Assoc([','], FieldsText(fields[1..]), z);
  }

  lemma {:induction false} FieldsOpen(fields: seq<Field>, z: Text)
    requires fields != [] && forall i :: 0 <= i < |fields| ==> FieldOk(fields[i])
    ensures SkipWs(FieldsText(fields) + z) != "" && SkipWs(FieldsText(fields) + z)[0] == '\"'
  {
    if |fields| > 1 {
      FieldsSplit(fields, z);
      FieldSplit(fields[0], [','] + (FieldsText(fields[1..]) + z));
    } else {
      FieldSplit(fields[0], z);
    }
  }

  lemma {:induction false} LastFieldRead(f: Field, acc: seq<Member>, t: Text)
    requires FieldOk(f)
    ensures Members(FieldText(f) + (['}'] + t), acc) == Ok(JObject(acc + [FieldMeaning(f)]), t)
    decreases f, 4
  {
    FieldRead(f, '}', t);
    CloseRead(f.item.after, '}', t);
    MembersTurn(FieldText(f) + (['}'] + t), acc, FieldMeaning(f), f.item.after + (['}'] + t));
  }

  lemma {:induction false} NextFieldRead(f: Field, acc: seq<Member>, u: Text)
    requires FieldOk(f) && SkipWs(u) != "" && SkipWs(u)[0] != '}'
    ensures Members(FieldText(f) + ([','] + u), acc) == Members(u, acc + [FieldMeaning(f)])
    decreases f, 4
  {
    FieldRead(f, ',', u);
    CommaRead(f.item.after, '}', u);
    MembersTurn(FieldText(f) + ([','] + u), acc, FieldMeaning(f), f.item.after + ([','] + u));
    SkipTwice(u);
    SameMembers(SkipWs(u), u, acc + [FieldMeaning(f)]);
  }

  lemma {:induction false} FieldsTurn(fields: seq<Field>, acc: seq<Member>, t: Text)
    requires |fields| > 1 && forall i :: 0 <= i < |fields| ==> FieldOk(fields[i])
    ensures Members(FieldsText(fields) + (['}'] + t), acc)
         == Members(FieldsText(fields[1..]) + (['}'] + t), acc + [FieldMeaning(fields[0])])
    decreases fields, 0
  {
    FieldsSplit(fields, ['}'] + t);
    FieldsOpen(fields[1..], ['}'] + t);
    NextFieldRead(fields[0], acc, FieldsText(fields[1..]) + (['}'] + t));
  }

  lemma {:induction false} FieldsRead(fields: seq<Field>, acc: seq<Member>, t: Text)
    requires fields != [] && forall i :: 0 <= i < |fields| ==> FieldOk(fields[i])
    ensures Members(FieldsText(fields) + (['}'] + t), acc) == Ok(JObject(acc + FieldMeanings(fields)), t)
    decreases fields, 1
  {
    var m, rest := FieldMeaning(fields[0]), fields[1..];
    assert FieldMeanings(fields) == [m] + FieldMeanings(rest);
    if |fields| == 1 {
      LastFieldRead(fields[0], acc, t);
      assert [m] + FieldMeanings(rest) == [m];
    } else {
      FieldsTurn(fields, acc, t);
      FieldsRead(rest, acc + [m], t);
      assert acc + [m] + FieldMeanings(rest) == acc + ([m] + FieldMeanings(rest));
    }
  }

  lemma {:induction false} ObjectRead(fields: seq<Field>, t: Text)
    requires fields != [] && forall i :: 0 <= i < |fields| ==> FieldOk(fields[i])
    ensures ObjectAt(FieldsText(fields) + (['}'] + t)) == Ok(JObject(FieldMeanings(fields)), t)
    decreases fields, 2
  {
    FieldsOpen(fields, ['}'] + t);
    HasMembers(FieldsText(fields) + (['}'] + t));
    FieldsRead(fields, [], t);
    assert [] + FieldMeanings(fields) == FieldMeanings(fields);
  }

  /** A text spells a value: one spelling of it, between blanks. */
  ghost predicate SpelledBy(t: Text, before: Text, v: Tree, after: Text) {
    Blank(before) && TreeOk(v) && Blank(after) && t == before + (TreeText(v) + after)
  }

  /** Every spelling of a document is accepted and read as its value. */
  lemma {:induction false} SpellingAccepted(t: Text, before: Text, v: Tree, after: Text)
    requires SpelledBy(t, before, v, after)
    ensures Document(t) == Ok(Meaning(v), "")
  {
    Skips(before, TreeText(v) + after);
    SameValue(t, TreeText(v) + after);
    if after != "" { assert Gap(after[0]); }
    ValueRead(v, after);
    Skips(after, "");
    assert after + "" == after;
  }

  // ---- Every accepted text is a spelling ----------------------------------------------------

  lemma {:induction false} BlanksOf(t: Text) returns (b: Text)
    ensures Blank(b) && t == b + SkipWs(t)
  {
    if t != "" && Ws(t[0]) {
      var b' := BlanksOf(t[1..]);
      b := [t[0]] + b';
      assert t == [t[0]] + t[1..];
    } else {
      b := "";
    }
  }

  lemma {:induction false} LiteralSound(t: Text, word: Text)
    requires Starts(t, word)
    ensures t == word + t[|word|..]
  {
  }

  lemma {:induction false} WordSound(t: Text) returns (v: Tree)
    requires t != "" && SkipWs(t) == t && ValueAt(t).Ok? && (t[0] == 'n' || t[0] == 't' || t[0] == 'f')
    ensures TreeOk(v) && t == TreeText(v) + ValueAt(t).rest && Meaning(v) == ValueAt(t).value
  {
    v := if t[0] == 'n' then TNull else if t[0] == 't' then TTrue else TFalse;
    LiteralSound(t, TreeText(v));
  }

  lemma {:induction false} StringValueSound(t: Text) returns (v: Tree)
    requires t != "" && t[0] == '\"' && ValueAt(t).Ok?
    ensures TreeOk(v) && t == TreeText(v) + ValueAt(t).rest && Meaning(v) == ValueAt(t).value
  {
    assert SkipWs(t) == t;
    var ps := StringTextSound(t);
    v := TString(ps);
  }

  lemma {:induction false} StringTextSound(t: Text) returns (ps: seq<Piece>)
    requires t != "" && t[0] == '\"' && Str(t[1..]).Ok?
    ensures PiecesOk(ps) && t == StringText(ps) + Str(t[1..]).rest && Bytes(ps) == Str(t[1..]).value
  {
    ps := StringSound(t[1..]);
    assert t == [t[0]] + t[1..];
    Assoc(Texts(ps), ['\"'], Str(t[1..]).rest);
    Assoc(['\"'], Texts(ps) + ['\"'], Str(t[1..]).rest);
  }

  lemma {:induction false} NumberValueSound(t: Text) returns (v: Tree)
    requires t != "" && (t[0] == '-' || Digit(t[0])) && ValueAt(t).Ok?
    ensures TreeOk(v) && t == TreeText(v) + ValueAt(t).rest && Meaning(v) == ValueAt(t).value
  {
    NumberOpens(t);
    var n := NumberSound(t);
    v := TNumber(n);
  }

  lemma {:induction false} ValueSkips(text: Text)
    requires ValueAt(text).Ok?
    ensures SkipWs(text) != "" && SkipWs(SkipWs(text)) == SkipWs(text) && ValueAt(SkipWs(text)) == ValueAt(text)
  {
    SkipTwice(text);
    SameValue(text, SkipWs(text));
  }

  /** An accepted value is a spelling of it, behind blanks. */
  lemma {:induction false} ValueSound(text: Text) returns (b: Text, v: Tree)
    requires ValueAt(text).Ok?
    ensures Blank(b) && TreeOk(v) && text == b + (TreeText(v) + ValueAt(text).rest) && Meaning(v) == ValueAt(text).value
    decreases |text|, 2
  {
    b := BlanksOf(text);
    ValueSkips(text);
    v := SkippedSound(SkipWs(text));
  }

  lemma {:induction false} SkippedSound(t: Text) returns (v: Tree)
    requires t != "" && SkipWs(t) == t && ValueAt(t).Ok?
    ensures TreeOk(v) && t == TreeText(v) + ValueAt(t).rest && Meaning(v) == ValueAt(t).value
    decreases |t|, 1
  {
    HeadTail(t);
    Opens(t[1..]);
    if t[0] == '[' {
      v := ArraySound(t[1..]);
    } else if t[0] == '{' {
      v := ObjectSound(t[1..]);
    } else {
      v := ScalarSound(t);
    }
  }

  lemma {:induction false} ScalarSound(t: Text) returns (v: Tree)
    requires t != "" && SkipWs(t) == t && ValueAt(t).Ok? && t[0] != '[' && t[0] != '{'
    ensures TreeOk(v) && t == TreeText(v) + ValueAt(t).rest && Meaning(v) == ValueAt(t).value
  {
    if t[0] == '\"' {
      v := StringValueSound(t);
    } else if t[0] == '-' || Digit(t[0]) {
      v := NumberValueSound(t);
    } else {
      v := WordSound(t);
    }
  }

  lemma {:induction false} ArraySound(u: Text) returns (v: Tree)
    requires ArrayAt(u).Ok?
    ensures TreeOk(v) && ['['] + u == TreeText(v) + ArrayAt(u).rest && Meaning(v) == ArrayAt(u).value
    decreases |u|, 5
  {
    NonEmpty(u);
    if SkipWs(u)[0] == ']' {
      v := NoItemsSound(u);
    } else {
      var items := ItemsSound(u, []);
      v := TItems(items);
      assert [] + ItemMeanings(items) == ItemMeanings(items);
      Bracketed('[', ItemsText(items), ']', ArrayAt(u).rest);
    }
  }

  lemma {:induction false} HeadTail(t: Text)
    requires t != ""
    ensures t == [t[0]] + t[1..]
  {
  }

  lemma {:induction false} ClosesAtOnce(u: Text)
    requires SkipWs(u) != ""
    ensures SkipWs(u)[0] == ']' ==> ArrayAt(u) == Ok(JArray([]), SkipWs(u)[1..])
    ensures SkipWs(u)[0] == '}' ==> ObjectAt(u) == Ok(JObject([]), SkipWs(u)[1..])
  {
  }

  lemma {:induction false} NoItemsSound(u: Text) returns (v: Tree)
    requires SkipWs(u) != "" && SkipWs(u)[0] == ']'
    ensures TreeOk(v) && ArrayAt(u).Ok? && ['['] + u == TreeText(v) + ArrayAt(u).rest && Meaning(v) == ArrayAt(u).value
  {
    ClosesAtOnce(u);
    var gap := BlanksOf(u);
    v := TNoItems(gap);
    HeadTail(SkipWs(u));
    Bracketed('[', gap, ']', SkipWs(u)[1..]);
  }

  lemma {:induction false} NoFieldsSound(u: Text) returns (v: Tree)
    requires SkipWs(u) != "" && SkipWs(u)[0] == '}'
    ensures TreeOk(v) && ObjectAt(u).Ok? && ['{'] + u == TreeText(v) + ObjectAt(u).rest && Meaning(v) == ObjectAt(u).value
  {
    ClosesAtOnce(u);
    var gap := BlanksOf(u);
    v := TNoFields(gap);
    HeadTail(SkipWs(u));
    Bracketed('{', gap, '}', SkipWs(u)[1..]);
  }

  /** An array that does not close at once has elements, behind its blanks. */
  lemma {:induction false} NonEmpty(u: Text)
    ensures ArrayAt(u).Ok? && SkipWs(u) != "" && SkipWs(u)[0] != ']' ==> Elements(u, []) == ArrayAt(u)
    ensures ObjectAt(u).Ok? && SkipWs(u) != "" && SkipWs(u)[0] != '}' ==> Members(u, []) == ObjectAt(u)
    ensures SkipWs(u) == "" ==> ArrayAt(u) == Fail && ObjectAt(u) == Fail
  {
    if SkipWs(u) != "" {
      if SkipWs(u)[0] != ']' { HasElements(u); }
      if SkipWs(u)[0] != '}' { HasMembers(u); }
    } else {
      assert ValueAt("") == Fail;
      assert KeyAt("") == Fail;
    }
  }

  lemma {:induction false} SeparatorIs(rest: Text, close: char)
    requires Separator(rest, close).Ok?
    ensures SkipWs(rest) != "" && SkipWs(rest)[0] == if Separator(rest, close).value then ',' else close
    ensures var u := SkipWs(rest)[1..]; Separator(rest, close).rest == if Separator(rest, close).value then SkipWs(u) else u
  {
  }

  /** What the separator found: blanks, then a comma with more behind it, or the closing bracket. */
  lemma {:induction false} SeparatorSound(rest: Text, close: char) returns (after: Text, u: Text)
    requires Separator(rest, close).Ok?
    ensures Blank(after) && |u| < |rest| && rest == after + ([if Separator(rest, close).value then ',' else close] + u)
    ensures if Separator(rest, close).value then SkipWs(Separator(rest, close).rest) == SkipWs(u) else Separator(rest, close).rest == u
  {
    SeparatorIs(rest, close);
    after := BlanksOf(rest);
    HeadTail(SkipWs(rest));
    u := SkipWs(rest)[1..];
    SkipTwice(u);
  }

  lemma {:induction false} ItemsSound(t: Text, acc: seq<Json>) returns (items: seq<Item>)
    requires Elements(t, acc).Ok?
    ensures items != [] && (forall i :: 0 <= i < |items| ==> ItemOk(items[i]))
    ensures t == ItemsText(items) + ([']'] + Elements(t, acc).rest)
    ensures Elements(t, acc).value == JArray(acc + ItemMeanings(items))
    decreases |t|, 3
  {
    var b, v := ValueSound(t);
    var m, rest := Meaning(v), ValueAt(t).rest;
    var after, u := SeparatorSound(rest, ']');
    var x := Item(b, v, after);
    if Separator(rest, ']').value {
      SameElements(Separator(rest, ']').rest, u, acc + [m]);
      var more := ItemsSound(u, acc + [m]);
      items := [x] + more;
      MoreItems(x, more, t, acc, Elements(t, acc).rest);
    } else {
      items := [x];
      ItemSplit(x, [']'] + u);
      assert ItemMeanings(items) == [m];
    }
  }

  lemma {:induction false} MoreItems(x: Item, more: seq<Item>, t: Text, acc: seq<Json>, end: Text)
    requires ItemOk(x) && more != [] && forall i :: 0 <= i < |more| ==> ItemOk(more[i])
    requires t == x.before + (TreeText(x.tree) + (x.after + ([','] + (ItemsText(more) + ([']'] + end)))))
    ensures t == ItemsText([x] + more) + ([']'] + end)
    ensures acc + ItemMeanings([x] + more) == acc + [ItemMeaning(x)] + ItemMeanings(more)
  {
    var items := [x] + more;
    assert items[1..] == more;
    ItemsSplit(items, [']'] + end);
    ItemSplit(x, [','] + (ItemsText(more) + ([']'] + end)));
  }

  lemma {:induction false} ObjectSound(u: Text) returns (v: Tree)
    requires ObjectAt(u).Ok?
    ensures TreeOk(v) && ['{'] + u == TreeText(v) + ObjectAt(u).rest && Meaning(v) == ObjectAt(u).value
    decreases |u|, 5
  {
    NonEmpty(u);
    if SkipWs(u)[0] == '}' {
      v := NoFieldsSound(u);
    } else {
      var fields := FieldsSound(u, []);
      v := TFields(fields);
      assert [] + FieldMeanings(fields) == FieldMeanings(fields);
      Bracketed('{', FieldsText(fields), '}', ObjectAt(u).rest);
    }
  }

  lemma {:induction false} KeySound(text: Text) returns (before: Text, key: seq<Piece>, colon: Text)
    requires KeyAt(text).Ok?
    ensures Blank(before) && PiecesOk(key) && Blank(colon) && Bytes(key) == KeyAt(text).value
    ensures text == before + (StringText(key) + (colon + ([':'] + KeyAt(text).rest)))
  {
    before := BlanksOf(text);
    var t := SkipWs(text);
    key := StringTextSound(t);
    var rest := Str(t[1..]).rest;
    colon := BlanksOf(rest);
    assert SkipWs(rest) == [':'] + KeyAt(text).rest;
  }

  /** A member of which the parser found key and value, with the blanks behind it. */
  lemma {:induction false} FieldSound(t: Text, after: Text, z: Text) returns (f: Field)
    requires MemberAt(t).Ok? && Blank(after) && MemberAt(t).rest == after + z
    ensures FieldOk(f) && t == FieldText(f) + z && FieldMeaning(f) == MemberAt(t).value
    decreases |t|, 3
  {
    var before, key, colon := KeySound(t);
    var w := KeyAt(t).rest;
    var b, v := ValueSound(w);
    var x := Item(b, v, after);
    f := Field(before, key, colon, x);
    ItemSplit(x, z);
    FieldSplit(f, z);
  }

  lemma {:induction false} FieldsSound(t: Text, acc: seq<Member>) returns (fields: seq<Field>)
    requires Members(t, acc).Ok?
    ensures fields != [] && (forall i :: 0 <= i < |fields| ==> FieldOk(fields[i]))
    ensures t == FieldsText(fields) + (['}'] + Members(t, acc).rest)
    ensures Members(t, acc).value == JObject(acc + FieldMeanings(fields))
    decreases |t|, 4
  {
    var m, rest := MemberAt(t).value, MemberAt(t).rest;
    var after, u := SeparatorSound(rest, '}');
    if Separator(rest, '}').value {
      SameMembers(Separator(rest, '}').rest, u, acc + [m]);
      var f := FieldSound(t, after, [','] + u);
      var more := FieldsSound(u, acc + [m]);
      fields := [f] + more;
      MoreFields(f, more, t, acc, Members(t, acc).rest);
    } else {
      var f := FieldSound(t, after, ['}'] + u);
      fields := [f];
      assert FieldMeanings(fields) == [m];
    }
  }

  lemma {:induction false} MoreFields(f: Field, more: seq<Field>, t: Text, acc: seq<Member>, end: Text)
    requires FieldOk(f) && more != [] && forall i :: 0 <= i < |more| ==> FieldOk(more[i])
    requires t == FieldText(f) + ([','] + (FieldsText(more) + (['}'] + end)))
    ensures t == FieldsText([f] + more) + (['}'] + end)
    ensures acc + FieldMeanings([f] + more) == acc + [FieldMeaning(f)] + FieldMeanings(more)
  {
    var fields := [f] + more;
    assert fields[1..] == more;
    FieldsSplit(fields, ['}'] + end);
  }

  /** An accepted document is a spelling of the value it is read as. */
  lemma {:induction false} AcceptedSpelling(t: Text) returns (before: Text, v: Tree, after: Text)
    requires Document(t).Ok?
    ensures SpelledBy(t, before, v, after) && Document(t).value == Meaning(v)
  {
    before, v := ValueSound(t);
    var rest := ValueAt(t).rest;
    after := BlanksOf(rest);
    assert after + "" == after;
  }

  /** The value has a spelling that is this text. */
  ghost predicate Spells(t: Text, j: Json) { exists before, v, after :: SpelledBy(t, before, v, after) && Meaning(v) == j }

  /** The parser accepts exactly the spellings, each as the value it spells. */
  lemma {:induction false} AcceptedIff(t: Text, j: Json)
    ensures Document(t) == Ok(j, "") <==> Spells(t, j)
  {
    if Spells(t, j) {
      var before, v, after :| SpelledBy(t, before, v, after) && Meaning(v) == j;
      SpellingAccepted(t, before, v, after);
    }
    if Document(t) == Ok(j, "") {
      var before, v, after := AcceptedSpelling(t);
      assert Spells(t, j);
    }
  }

  lemma {:induction false} AcceptedSpells(t: Text)
    ensures Document(t).Ok? <==> exists j :: Spells(t, j)
    ensures forall j :: Spells(t, j) ==> Document(t) == Ok(j, "")
  {
    forall j ensures Spells(t, j) <==> Document(t) == Ok(j, "") { AcceptedIff(t, j); }
    if Document(t).Ok? { assert Spells(t, Document(t).value); }
  }

  // ---- What the serializer writes -----------------------------------------------------------

  /** The letter behind the backslash for a byte that has one, or 8. */
  function LetterFor(n: nat): nat {
    if n == 0x22 then 0 else if n == 0x5C then 1 else if n == 0x08 then 3 else if n == 0x0C then 4
    else if n == 0x0A then 5 else if n == 0x0D then 6 else if n == 0x09 then 7 else 8
  }

  lemma {:induction false} LetterPiece(c: char)
    requires LetterFor(c as int) < 8
    ensures PieceOk(Short(LetterFor(c as int))) && Denotes(Short(LetterFor(c as int)), [c])
    ensures Escaped(c) == PieceText(Short(LetterFor(c as int)))
  {
  }

  lemma {:induction false} ControlPiece(c: char) returns (p: Piece)
    requires c as int < 0x20 && LetterFor(c as int) == 8
    ensures PieceOk(p) && Denotes(p, [c]) && Escaped(c) == PieceText(p)
  {
    var n := c as int;
    p := ByNumber(Hex(0, false), Hex(0, false), Hex(n / 16, false), Hex(n % 16, false));
    assert Escaped(c) == "\\u00" + [HexDigit(n / 16), HexDigit(n % 16)];
    assert HexTexts(p) == ['0', '0', HexDigit(n / 16), HexDigit(n % 16)];
  }

  /** The serializer writes a byte as a piece that denotes it. */
  lemma {:induction false} EscapedIsPiece(c: char) returns (p: Piece)
    requires c as int < 256
    ensures PieceOk(p) && Denotes(p, [c]) && Escaped(c) == PieceText(p)
  {
    if LetterFor(c as int) < 8 {
      LetterPiece(c);
      p := Short(LetterFor(c as int));
    } else if c as int >= 0x20 {
      p := Raw(c);
    } else {
      p := ControlPiece(c);
    }
  }

  ghost predicate Printable(t: Text) { forall i :: 0 <= i < |t| ==> t[i] as int >= 0x20 }

  lemma {:induction false} EscapedPrintable(s: Text)
    ensures Printable(EscapedAll(s))
  {
    if s != "" { EscapedPrintable(s[1..]); }
  }

  lemma {:induction false} QuotedPrintable(s: Text)
    ensures Printable(Quoted(s))
  {
    EscapedPrintable(s);
  }

  /** Serialised text holds no control byte. */
  lemma {:induction false} WrittenPrintable(v: Json)
    requires Good(v)
    ensures Printable(Written(v))
    decreases v, 1
  {
    match v
    case JInt(n) =>
      var d := Decimal(if n < 0 then -n else n);
      assert forall i :: 0 <= i < |d| ==> Digit(d[i]);
    case JString(s) => QuotedPrintable(s);
    case JArray(items) => ItemsPrintable(items);
    case JObject(members) => MembersPrintable(members);
    case _ =>
  }

  lemma {:induction false} ItemsPrintable(items: seq<Json>)
    requires forall i :: 0 <= i < |items| ==> Good(items[i])
    ensures Printable(WrittenItems(items))
    decreases items, 0
  {
    if items != [] {
      WrittenPrintable(items[0]);
      if |items| > 1 { ItemsPrintable(items[1..]); }
    }
  }

  lemma {:induction false} MembersPrintable(members: seq<Member>)
    requires forall i :: 0 <= i < |members| ==> Plain(members[i].key) && Good(members[i].value)
    ensures Printable(WrittenMembers(members))
    decreases members, 0
  {
    if members != [] {
      QuotedPrintable(members[0].key);
      WrittenPrintable(members[0].value);
      assert Printable(WrittenMember(members[0]));
      if |members| > 1 { MembersPrintable(members[1..]); }
    }
  }

  /** Nothing is written as a raw control byte. */
  ghost predicate PiecesPrintable(ps: seq<Piece>) { forall i :: 0 <= i < |ps| && ps[i].Raw? ==> ps[i].c as int >= 0x20 }

  ghost predicate TreePrintable(v: Tree)
    decreases v, 1
  {
    match v
    case TString(ps) => PiecesPrintable(ps)
    case TItems(items) => forall i :: 0 <= i < |items| ==> ItemPrintable(items[i])
    case TFields(fields) => forall i :: 0 <= i < |fields| ==> FieldPrintable(fields[i])
    case _ => true
  }

  ghost predicate ItemPrintable(x: Item)
    decreases x, 2
  {
    TreePrintable(x.tree)
  }

  ghost predicate FieldPrintable(f: Field)
    decreases f, 3
  {
    PiecesPrintable(f.key) && ItemPrintable(f.item)
  }

  lemma {:induction false} EscapedConcat(a: Text, b: Text)
    ensures EscapedAll(a + b) == EscapedAll(a) + EscapedAll(b)
  {
    if a == "" {
      assert a + b == b;
    } else {
      assert (a + b)[1..] == a[1..] + b;
      EscapedConcat(a[1..], b);
    }
  }

  /** No other way of writing the bytes of a piece is shorter than the serializer's. */
  lemma {:induction false} PieceShortest(p: Piece)
    requires PieceOk(p) && PiecesPrintable([p])
    ensures |EscapedAll(PieceBytes(p))| <= |PieceText(p)|
  {
    var b := PieceBytes(p);
    assert [p][0] == p;
    EscapedFew(b);
    if p.ByNumber? && |b| > 1 { assert forall i :: 0 <= i < |b| ==> b[i] as int >= 0x80; }
  }

  lemma {:induction false} EscapedFew(b: Text)
    requires 1 <= |b| <= 3
    ensures |b| == 1 ==> EscapedAll(b) == Escaped(b[0])
    ensures (forall i :: 0 <= i < |b| ==> b[i] as int >= 0x80) ==> |EscapedAll(b)| == |b|
  {
    assert EscapedAll(b) == Escaped(b[0]) + EscapedAll(b[1..]);
    if |b| > 1 { EscapedFew(b[1..]); }
  }

  lemma {:induction false} StringShortest(ps: seq<Piece>)
    requires PiecesOk(ps) && PiecesPrintable(ps)
    ensures |EscapedAll(Bytes(ps))| <= |Texts(ps)|
  {
    if ps != [] {
      PieceShortest(ps[0]);
      StringShortest(ps[1..]);
      EscapedConcat(PieceBytes(ps[0]), Bytes(ps[1..]));
    }
  }

  /** A run of digits without a redundant zero is the decimal text of its value. */
  lemma {:induction false} DecimalOf(d: Text)
    requires d != "" && AllDigits(d) && NoLeadingZero(d)
    ensures Decimal(Value(d)) == d
  {
    var front := d[..|d| - 1];
    assert Digit(d[|d| - 1]) && d == front + [d[|d| - 1]];
    if |d| > 1 {
      assert front[0] == d[0];
      DecimalOf(front);
      assert Value(front) != 0;
    } else {
      assert Value(front) == 0;
    }
  }

  lemma {:induction false} IntegerShortest(u: Text, d: Text)
    requires Sign(u) <= |u| && d != "" && AllDigits(d) && NoLeadingZero(d) && u[Sign(u)..] == d && RunEnd(u, Sign(u)) == |u|
    ensures |Written(NumberValue(u))| <= |u|
  {
    var s, n: int := Sign(u), Value(d);
    assert NumberValue(u) == JInt(if s == 1 then -n else n);
    DecimalOf(d);
  }

  lemma {:induction false} NumberShortest(n: Rfc)
    requires NumOk(n)
    ensures |Written(NumberValue(NumberText(n)))| <= |NumberText(n)|
  {
    var u := NumberText(n);
    var a := LayWhole(n);
    DigitsAt(u, a, n.whole, FracText(n));
    if RunEnd(u, a) == |u| {
      assert FracText(n) == "" && n.whole + "" == n.whole;
      IntegerShortest(u, n.whole);
    } else {
      assert NumberValue(u) == JReal(u);
    }
  }

  lemma {:induction false} ScalarShortest(v: Tree)
    requires TreeOk(v) && TreePrintable(v) && !v.TItems? && !v.TFields?
    ensures |Written(Meaning(v))| <= |TreeText(v)|
  {
    match v
    case TNumber(n) => NumberShortest(n);
    case TString(ps) => StringShortest(ps);
    case _ =>
  }

  /** Among all printable ways to spell a value the serializer writes a shortest one. */
  lemma {:induction false} WrittenShortest(v: Tree)
    requires TreeOk(v) && TreePrintable(v)
    ensures |Written(Meaning(v))| <= |TreeText(v)|
    decreases v, 1
  {
    if v.TItems? {
      ItemsShortest(v.items);
    } else if v.TFields? {
      FieldsShortest(v.fields);
    } else {
      ScalarShortest(v);
    }
  }

  lemma {:induction false} ItemShortest(x: Item)
    requires ItemOk(x) && ItemPrintable(x)
    ensures |Written(ItemMeaning(x))| <= |ItemText(x)|
    decreases x, 2
  {
    WrittenShortest(x.tree);
  }

  lemma {:induction false} ItemsShortest(items: seq<Item>)
    requires items != [] && forall i :: 0 <= i < |items| ==> ItemOk(items[i]) && ItemPrintable(items[i])
    ensures |WrittenItems(ItemMeanings(items))| <= |ItemsText(items)|
    decreases items, 0
  {
    var m, rest := ItemMeaning(items[0]), items[1..];
    ItemShortest(items[0]);
    if |items| == 1 {
      assert ItemMeanings(items) == [m];
    } else {
      ItemsShortest(rest);
      assert ItemMeanings(items)[1..] == ItemMeanings(rest) && ItemMeanings(rest) != [];
    }
  }

  lemma {:induction false} FieldShortest(f: Field)
    requires FieldOk(f) && FieldPrintable(f)
    ensures |WrittenMember(FieldMeaning(f))| <= |FieldText(f)|
    decreases f, 3
  {
    StringShortest(f.key);
    ItemShortest(f.item);
  }

  lemma {:induction false} FieldsShortest(fields: seq<Field>)
    requires fields != [] && forall i :: 0 <= i < |fields| ==> FieldOk(fields[i]) && FieldPrintable(fields[i])
    ensures |WrittenMembers(FieldMeanings(fields))| <= |FieldsText(fields)|
    decreases fields, 0
  {
    var m, rest := FieldMeaning(fields[0]), fields[1..];
    FieldShortest(fields[0]);
    if |fields| == 1 {
      assert FieldMeanings(fields) == [m];
    } else {
      FieldsShortest(rest);
      assert FieldMeanings(fields)[1..] == FieldMeanings(rest) && FieldMeanings(rest) != [];
    }
  }
}
