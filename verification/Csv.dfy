/** CSV records: the writer's two passes, the reader's cursor, and the round trip between them. */
module Csv {

  type Text = string

  const QUOTE: char := '\"'

  predicate Blank(c: char) { c == ' ' || c == '\t' }
  predicate Special(c: char, delim: char) { c == delim || c == QUOTE || c == '\n' || c == '\r' }
  /** What ends an unquoted field. */
  predicate Stop(c: char, delim: char) { c == delim || c == '\n' || c == '\r' }

  predicate NeedsQuoting(s: Text, delim: char) {
    s == "" || Blank(s[0]) || Blank(s[|s| - 1]) || exists i :: 0 <= i < |s| && Special(s[i], delim)
  }

  // ---- What the writer writes ---------------------------------------------------------------

  /** Every quote doubled. */
  function Doubled(s: Text): (r: Text)
    ensures |r| >= |s|
  {
    if s == "" then "" else (if s[0] == QUOTE then [QUOTE, QUOTE] else [s[0]]) + Doubled(s[1..])
  }

  function Field(s: Text, delim: char): Text {
    if NeedsQuoting(s, delim) then [QUOTE] + Doubled(s) + [QUOTE] else s
  }

  function Record(fields: seq<Text>, delim: char): Text {
    if fields == [] then ""
    else if |fields| == 1 then Field(fields[0], delim)
    else Field(fields[0], delim) + ([delim] + Record(fields[1..], delim))
  }

  // ---- What the reader reads ----------------------------------------------------------------

  /** After the opening quote: the field and what follows the closing quote. */
  function ReadQuoted(t: Text): (r: (Text, Text))
    ensures |r.1| <= |t|
  {
    if t == "" then ("", "")
    else if t[0] != QUOTE then var (f, rest) := ReadQuoted(t[1..]); ([t[0]] + f, rest)
    else if |t| > 1 && t[1] == QUOTE then var (f, rest) := ReadQuoted(t[2..]); ([QUOTE] + f, rest)
    else ("", t[1..])
  }

  function ReadUnquoted(t: Text, delim: char): (r: (Text, Text))
    ensures |r.1| <= |t|
  {
    if t == "" || Stop(t[0], delim) then ("", t)
    else var (f, rest) := ReadUnquoted(t[1..], delim); ([t[0]] + f, rest)
  }

  function ReadField(t: Text, delim: char): (r: (Text, Text))
    ensures |r.1| <= |t|
  {
    if t != "" && t[0] == QUOTE then ReadQuoted(t[1..]) else ReadUnquoted(t, delim)
  }

  function Parse(t: Text, delim: char): seq<Text>
    decreases |t|
  {
    var (f, rest) := ReadField(t, delim);
    if rest != "" && rest[0] == delim then [f] + Parse(rest[1..], delim) else [f]
  }

  // ---- Round trip ---------------------------------------------------------------------------

  lemma {:induction false} ReadOne(c: char, u: Text)
    ensures c != QUOTE ==> ReadQuoted([c] + u) == ([c] + ReadQuoted(u).0, ReadQuoted(u).1)
    ensures ReadQuoted([QUOTE, QUOTE] + u) == ([QUOTE] + ReadQuoted(u).0, ReadQuoted(u).1)
  {
    assert ([c] + u)[1..] == u;
    assert ([QUOTE, QUOTE] + u)[2..] == u;
  }

  lemma {:induction false} ReadClosing(t: Text)
    requires t == "" || t[0] != QUOTE
    ensures ReadQuoted([QUOTE] + t) == ("", t)
  {
    assert ([QUOTE] + t)[1..] == t;
  }

  lemma Assoc(a: Text, b: Text, c: Text)
    ensures a + (b + c) == (a + b) + c
  {
  }

  lemma Unit(a: Text)
    ensures "" + a == a && a + "" == a
  {
  }

  lemma {:induction false} ReadFieldQuoted(u: Text, delim: char)
    ensures ReadField([QUOTE] + u, delim) == ReadQuoted(u)
  {
    assert ([QUOTE] + u)[1..] == u;
  }

  /** Reading doubled text gives back the text and goes on behind it. */
  lemma {:induction false} ReadDoubled(s: Text, t: Text)
    ensures ReadQuoted(Doubled(s) + t) == (s + ReadQuoted(t).0, ReadQuoted(t).1)
  {
    if s == "" {
      assert Doubled(s) + t == t && s + ReadQuoted(t).0 == ReadQuoted(t).0;
    } else {
      ReadDoubled(s[1..], t);
      ReadOne(s[0], Doubled(s[1..]) + t);
      Assoc(if s[0] == QUOTE then [QUOTE, QUOTE] else [s[0]], Doubled(s[1..]), t);
      Assoc([s[0]], s[1..], ReadQuoted(t).0);
      assert s == [s[0]] + s[1..];
    }
  }

  lemma {:induction false} ReadPlain(s: Text, t: Text, delim: char)
    requires forall i :: 0 <= i < |s| ==> !Stop(s[i], delim)
    requires t == "" || Stop(t[0], delim)
    ensures ReadUnquoted(s + t, delim) == (s, t)
  {
    if s == "" {
      assert s + t == t;
    } else {
      assert (s + t)[1..] == s[1..] + t;
      ReadPlain(s[1..], t, delim);
      assert s == [s[0]] + s[1..];
    }
  }

  /** What follows a field in a record. */
  ghost predicate Follows(t: Text, delim: char) { t == "" || t[0] == delim }

  /** A written field followed by the end or the delimiter reads back, unless its closing quote is followed by another quote. */
  lemma {:induction false} ReadWritten(s: Text, t: Text, delim: char)
    requires Follows(t, delim) && (delim == QUOTE && t != "" ==> !NeedsQuoting(s, delim))
    ensures ReadField(Field(s, delim) + t, delim) == (s, t)
  {
    if NeedsQuoting(s, delim) {
      Assoc([QUOTE], Doubled(s), [QUOTE]);
      Assoc([QUOTE], Doubled(s) + [QUOTE], t);
      Assoc(Doubled(s), [QUOTE], t);
      ReadFieldQuoted(Doubled(s) + ([QUOTE] + t), delim);
      ReadQuotedBack(s, t);
    } else {
      assert (s + t)[0] == s[0] && !Special(s[0], delim);
      ReadPlain(s, t, delim);
    }
  }

  lemma {:induction false} ReadQuotedBack(s: Text, t: Text)
    requires t == "" || t[0] != QUOTE
    ensures ReadQuoted(Doubled(s) + ([QUOTE] + t)) == (s, t)
  {
    ReadDoubled(s, [QUOTE] + t);
    ReadClosing(t);
    assert s + "" == s;
  }

  /** With the quote itself as delimiter, a quoted field swallows the delimiter behind it. */
  lemma {:induction false} ReadSwallows(s: Text, t: Text)
    requires NeedsQuoting(s, QUOTE) && t != "" && t[0] == QUOTE
    ensures ReadField(Field(s, QUOTE) + t, QUOTE).0 != s
  {
    var u := [QUOTE] + t;
    assert Field(s, QUOTE) + t == [QUOTE] + (Doubled(s) + u);
    assert ([QUOTE] + (Doubled(s) + u))[1..] == Doubled(s) + u;
    ReadDoubled(s, u);
    assert |ReadQuoted(u).0| >= 1;
  }

  /**
    * For every non-empty record and every delimiter but NUL: parsing the serialised record returns
    * its fields if and only if the delimiter is not the quote or only the last field needs quoting.
    */
  lemma {:induction false} RoundTripIff(fields: seq<Text>, delim: char)
    requires fields != []
    ensures Parse(Record(fields, delim), delim) == fields <==>
            delim != QUOTE || forall i :: 0 <= i < |fields| - 1 ==> !NeedsQuoting(fields[i], delim)
  {
    var f := fields[0];
    if |fields| == 1 {
      ReadWritten(f, "", delim);
      assert Field(f, delim) + "" == Field(f, delim);
    } else {
      var rest := fields[1..];
      var t := [delim] + Record(rest, delim);
      assert t[1..] == Record(rest, delim);
      RoundTripIff(rest, delim);
      assert fields == [f] + rest;
      if delim == QUOTE && NeedsQuoting(f, delim) {
        ReadSwallows(f, t);
      } else {
        ReadWritten(f, t, delim);
        assert forall i :: 0 <= i < |rest| - 1 ==> rest[i] == fields[i + 1];
        assert forall i :: 1 <= i < |fields| - 1 ==> fields[i] == rest[i - 1];
      }
    }
  }

  /** With the quote as delimiter, an empty field before another swallows it: one field comes back. */
  lemma {:induction false} QuoteDelimiterLoses(fields: seq<Text>)
    requires fields == ["", "a"]
    ensures Record(fields, QUOTE) == [QUOTE, QUOTE, QUOTE, 'a'] && Parse(Record(fields, QUOTE), QUOTE) == [[QUOTE, 'a']]
  {
    assert fields[1..] == ["a"];
    assert Record(["a"], QUOTE) == "a";
    assert Record(fields, QUOTE) == [QUOTE, QUOTE, QUOTE, 'a'];
    var t, u, w: Text := [QUOTE, QUOTE, QUOTE, 'a'], [QUOTE, QUOTE, 'a'], ['a'];
    assert t[1..] == u && u[2..] == w && w[1..] == "";
    assert ReadQuoted(w[1..]) == ("", "");
    assert ReadQuoted(w) == ([w[0]] + "", "");
    assert [w[0]] + "" == w;
    assert ReadQuoted(u) == ([QUOTE] + w, "");
    assert ReadField(t, QUOTE) == ([QUOTE] + w, "");
    assert [QUOTE] + w == [QUOTE, 'a'];
  }

  // ---- Every line ---------------------------------------------------------------------------

  /** A field as it stands in a line: bare, in quotes, or in quotes that the line does not close. */
  datatype Cell = Bare(s: Text) | Closed(s: Text) | Unclosed(s: Text)

  /** A field as it stands behind its opening quote, if it has one. */
  function Inner(c: Cell): Text {
    match c
    case Bare(s) => s
    case Closed(s) => Doubled(s) + [QUOTE]
    case Unclosed(s) => Doubled(s)
  }

  function CellText(c: Cell): Text { if c.Bare? then c.s else [QUOTE] + Inner(c) }

  /** Field c may stand in front of t: it ends there, and no sooner. */
  ghost predicate CellOk(c: Cell, t: Text, delim: char) {
    match c
    case Bare(s) =>
      && (forall i :: 0 <= i < |s| ==> s[i] != delim && s[i] != '\n' && s[i] != '\r')
      && (t == "" || t[0] == delim || t[0] == '\n' || t[0] == '\r') && (s + t == "" || (s + t)[0] != QUOTE)
    case Closed(_) => t == "" || t[0] != QUOTE
    case Unclosed(_) => t == ""
  }

  /** The fields of a line, a delimiter between each and the next, and what is behind the last. */
  function LineText(cells: seq<Cell>, delim: char, tail: Text): Text {
    if cells == [] then tail
    else CellText(cells[0]) + (if |cells| > 1 then [delim] + LineText(cells[1..], delim, tail) else tail)
  }

  ghost predicate LineOk(cells: seq<Cell>, delim: char, tail: Text) {
    && cells != []
    && if |cells| == 1 then CellOk(cells[0], tail, delim) && (tail == "" || tail[0] != delim)
       else CellOk(cells[0], [delim] + LineText(cells[1..], delim, tail), delim) && LineOk(cells[1..], delim, tail)
  }

  function Contents(cells: seq<Cell>): seq<Text> {
    if cells == [] then [] else [cells[0].s] + Contents(cells[1..])
  }

  lemma {:induction false} CellRead(c: Cell, t: Text, delim: char)
    requires CellOk(c, t, delim)
    ensures ReadField(CellText(c) + t, delim) == (c.s, t)
  {
    match c
    case Bare(s) => ReadPlain(s, t, delim);
    case Closed(s) =>
      Assoc([QUOTE], Doubled(s) + [QUOTE], t);
      Assoc(Doubled(s), [QUOTE], t);
      ReadFieldQuoted(Doubled(s) + ([QUOTE] + t), delim);
      ReadQuotedBack(s, t);
    case Unclosed(s) =>
      Assoc([QUOTE], Doubled(s), t);
      ReadFieldQuoted(Doubled(s) + t, delim);
      ReadDoubled(s, t);
      assert s + "" == s;
  }

  /** The field in front of any text. */
  lemma {:induction false} CellSound(t: Text, delim: char) returns (c: Cell)
    ensures var (f, rest) := ReadField(t, delim); CellOk(c, rest, delim) && c.s == f && t == CellText(c) + rest
  {
    if t != "" && t[0] == QUOTE {
      c := QuotedSound(t[1..]);
      assert t == [QUOTE] + t[1..];
      Assoc([QUOTE], Inner(c), ReadQuoted(t[1..]).1);
    } else {
      UnquotedSound(t, delim);
      c := Bare(ReadUnquoted(t, delim).0);
    }
  }

  lemma {:induction false} UnquotedSound(t: Text, delim: char)
    ensures var (f, rest) := ReadUnquoted(t, delim);
            && t == f + rest && (forall i :: 0 <= i < |f| ==> !Stop(f[i], delim)) && (rest == "" || Stop(rest[0], delim))
  {
    if t != "" && !Stop(t[0], delim) {
      UnquotedSound(t[1..], delim);
      assert t == [t[0]] + t[1..];
    }
  }

  lemma {:induction false} DoubledMore(c: char, s: Text)
    ensures Doubled([c] + s) == (if c == QUOTE then [QUOTE, QUOTE] else [c]) + Doubled(s)
  {
    assert ([c] + s)[1..] == s;
  }

  lemma {:induction false} QuotedSound(t: Text) returns (c: Cell)
    ensures !c.Bare? && c.s == ReadQuoted(t).0 && t == Inner(c) + ReadQuoted(t).1
    ensures if c.Unclosed? then ReadQuoted(t).1 == "" else ReadQuoted(t).1 == "" || ReadQuoted(t).1[0] != QUOTE
  {
    if t == "" {
      c := Unclosed("");
    } else if t[0] == QUOTE && (|t| == 1 || t[1] != QUOTE) {
      c := Closed("");
      assert t == [QUOTE] + t[1..];
    } else {
      var pair := if t[0] == QUOTE then [QUOTE, QUOTE] else [t[0]];
      var u := t[|pair|..];
      assert t == pair + u;
      var more := QuotedSound(u);
      c := InnerMore(t[0], more);
      Assoc(pair, Inner(more), ReadQuoted(u).1);
    }
  }

  /** One more character inside the quotes. */
  lemma {:induction false} InnerMore(x: char, more: Cell) returns (c: Cell)
    requires !more.Bare?
    ensures c.s == [x] + more.s && c.Unclosed? == more.Unclosed? && !c.Bare?
    ensures Inner(c) == (if x == QUOTE then [QUOTE, QUOTE] else [x]) + Inner(more)
  {
    c := more.(s := [x] + more.s);
    DoubledMore(x, more.s);
    Assoc(if x == QUOTE then [QUOTE, QUOTE] else [x], Doubled(more.s), [QUOTE]);
  }

  /** However a line writes its fields, they come back. */
  lemma {:induction false} LineRead(cells: seq<Cell>, delim: char, tail: Text)
    requires LineOk(cells, delim, tail)
    ensures Parse(LineText(cells, delim, tail), delim) == Contents(cells)
  {
    if |cells| == 1 {
      CellRead(cells[0], tail, delim);
    } else {
      var more := LineText(cells[1..], delim, tail);
      CellRead(cells[0], [delim] + more, delim);
      assert ([delim] + more)[1..] == more;
      LineRead(cells[1..], delim, tail);
    }
  }

  /** Every text is such a line, up to the first character that neither continues nor delimits a field. */
  lemma {:induction false} LineSound(t: Text, delim: char) returns (cells: seq<Cell>, tail: Text)
    ensures LineOk(cells, delim, tail) && t == LineText(cells, delim, tail) && Parse(t, delim) == Contents(cells)
    decreases |t|
  {
    var c := CellSound(t, delim);
    var (f, rest) := ReadField(t, delim);
    if rest != "" && rest[0] == delim {
      var more;
      more, tail := LineSound(rest[1..], delim);
      cells := [c] + more;
      assert cells[1..] == more && rest == [delim] + rest[1..];
    } else {
      cells, tail := [c], rest;
    }
  }

  /** The fields of a text are those of its cells, whichever way it is divided into a line. */
  lemma {:induction false} ParseIff(t: Text, delim: char, fields: seq<Text>)
    ensures Parse(t, delim) == fields <==>
            exists cells, tail :: LineOk(cells, delim, tail) && t == LineText(cells, delim, tail) && Contents(cells) == fields
  {
    var cells, tail := LineSound(t, delim);
    forall cells', tail' | LineOk(cells', delim, tail') && t == LineText(cells', delim, tail')
      ensures Contents(cells') == Parse(t, delim)
    {
      LineRead(cells', delim, tail');
    }
  }

  function Join(fields: seq<Text>, delim: char): Text {
    if fields == [] then "" else if |fields| == 1 then fields[0] else fields[0] + ([delim] + Join(fields[1..], delim))
  }

  /** No quote in t, and no line end but as delimiter. */
  ghost predicate Plain(t: Text, delim: char) {
    forall i :: 0 <= i < |t| ==> t[i] != QUOTE && (t[i] == delim || (t[i] != '\n' && t[i] != '\r'))
  }

  /** The first field of such a line, with or without a line end behind the line. */
  lemma {:induction false} PlainFirst(t: Text, tail: Text, delim: char) returns (f: Text, rest: Text)
    requires Plain(t, delim) && (tail == "" || tail[0] == '\n' || tail[0] == '\r')
    ensures t == f + rest && delim !in f && Plain(f, delim) && Plain(rest, delim) && (rest == "" || rest[0] == delim)
    ensures ReadField(t, delim) == (f, rest) && ReadField(t + tail, delim) == (f, rest + tail)
  {
    f, rest := ReadUnquoted(t, delim).0, ReadUnquoted(t, delim).1;
    UnquotedSound(t, delim);
    assert forall i :: 0 <= i < |f| ==> f[i] == t[i];
    assert forall i :: 0 <= i < |rest| ==> rest[i] == t[|f| + i];
    Assoc(f, rest, tail);
    ReadPlain(f, rest + tail, delim);
  }

  /** A line without quotes is cut at its delimiters, and ends at the line feed, the carriage return or the end of the text. */
  lemma {:induction false} PlainLine(t: Text, tail: Text, delim: char)
    requires Plain(t, delim) && (tail == "" || ((tail[0] == '\n' || tail[0] == '\r') && tail[0] != delim))
    ensures Parse(t + tail, delim) == Parse(t, delim) && Parse(t, delim) != []
    ensures Join(Parse(t, delim), delim) == t
    ensures forall i :: 0 <= i < |Parse(t, delim)| ==> delim !in Parse(t, delim)[i]
    decreases |t|
  {
    var f, rest := PlainFirst(t, tail, delim);
    if rest != "" {
      assert rest == [delim] + rest[1..] && (rest + tail)[1..] == rest[1..] + tail;
      PlainLine(rest[1..], tail, delim);
      OneMore(f, Parse(rest[1..], delim), delim);
    }
  }

  lemma {:induction false} OneMore(f: Text, more: seq<Text>, delim: char)
    requires more != []
    ensures Join([f] + more, delim) == f + ([delim] + Join(more, delim))
  {
    assert ([f] + more)[1..] == more;
  }

  /** The writer leaves a field as it is exactly when it is not empty, has no blank at either end and no special character. */
  lemma {:induction false} WrittenBareIff(s: Text, delim: char)
    ensures Field(s, delim) == s <==>
            && s != "" && s[0] !in {' ', '\t'} && s[|s| - 1] !in {' ', '\t'}
            && forall i :: 0 <= i < |s| ==> s[i] !in {delim, '\"', '\n', '\r'}
    ensures Field(s, delim) != s ==> Field(s, delim) == CellText(Closed(s))
  {
    Assoc([QUOTE], Doubled(s), [QUOTE]);
    if NeedsQuoting(s, delim) {
      assert |Field(s, delim)| > |s|;
    } else {
      assert forall i :: 0 <= i < |s| ==> !Special(s[i], delim);
    }
  }

  // ---- The writer's two passes --------------------------------------------------------------

  method CheckQuoting(s: Text, delim: char) returns (quoting: bool)
    ensures quoting == NeedsQuoting(s, delim)
  {
    if s == "" { return true; }
    if s[0] == ' ' || s[0] == '\t' { return true; }
    var len := |s|;
    if s[len - 1] == ' ' || s[len - 1] == '\t' { return true; }
    for i := 0 to len
      invariant forall j :: 0 <= j < i ==> !Special(s[j], delim)
    {
      if s[i] == delim || s[i] == QUOTE || s[i] == '\n' || s[i] == '\r' {
        assert Special(s[i], delim);
        return true;
      }
    }
    return false;
  }

  lemma DoubledCons(s: Text, i: nat)
    requires i < |s|
    ensures Doubled(s[i..]) == (if s[i] == QUOTE then [QUOTE, QUOTE] else [s[i]]) + Doubled(s[i + 1..])
  {
    assert s[i..][1..] == s[i + 1..];
  }

  /** The length pass over one field. */
  method FieldLength(s: Text, delim: char) returns (n: nat)
    ensures n == |Field(s, delim)|
  {
    var quoting := CheckQuoting(s, delim);
    if !quoting { return |s|; }
    n := 2;
    assert s[0..] == s;
    for i := 0 to |s|
      invariant n + |Doubled(s[i..])| == 2 + |Doubled(s)|
    {
      DoubledCons(s, i);
      if s[i] == QUOTE { n := n + 1; }
      n := n + 1;
    }
  }

  /** The write pass over one field. */
  method WriteField(s: Text, delim: char, buf: array<char>, pos: nat) returns (end: nat)
    requires pos + |Field(s, delim)| <= buf.Length
    modifies buf
    ensures end == pos + |Field(s, delim)| && buf[..end] == old(buf[..pos]) + Field(s, delim)
  {
    var quoting := CheckQuoting(s, delim);
    if quoting {
      end := WriteQuoted(s, buf, pos);
    } else {
      end := pos;
      for i := 0 to |s|
        invariant end == pos + i && buf[..end] == old(buf[..pos]) + s[..i]
      {
        buf[end] := s[i];
        end := end + 1;
      }
    }
  }

  method WriteQuoted(s: Text, buf: array<char>, pos: nat) returns (end: nat)
    requires pos + |Doubled(s)| + 2 <= buf.Length
    modifies buf
    ensures end == pos + |Doubled(s)| + 2 && buf[..end] == old(buf[..pos]) + ([QUOTE] + Doubled(s) + [QUOTE])
  {
    ghost var head := old(buf[..pos]) + [QUOTE];
    end := pos;
    buf[end] := QUOTE;
    end := end + 1;
    assert buf[..end] == head;
    assert s[0..] == s;
    for i := 0 to |s|
      invariant pos + 1 <= end && end + |Doubled(s[i..])| == pos + 1 + |Doubled(s)|
      invariant buf[..end] + Doubled(s[i..]) == head + Doubled(s)
    {
      DoubledCons(s, i);
      ghost var before := buf[..end];
      if s[i] == QUOTE {
        buf[end] := QUOTE;
        end := end + 1;
      }
      buf[end] := s[i];
      end := end + 1;
      ghost var added := if s[i] == QUOTE then [QUOTE, QUOTE] else [s[i]];
      assert buf[..end] == before + added;
      Assoc(before, added, Doubled(s[i + 1..]));
    }
    assert buf[..end] == head + Doubled(s);
    buf[end] := QUOTE;
    end := end + 1;
    assert buf[..end] == head + Doubled(s) + [QUOTE];
  }

  /** What is still to be written after i fields. */
  function Rest(fields: seq<Text>, i: nat, delim: char): Text
    requires i <= |fields|
  {
    if i == |fields| then "" else (if i > 0 then [delim] else "") + Record(fields[i..], delim)
  }

  lemma {:induction false} RestStep(fields: seq<Text>, i: nat, delim: char)
    requires i < |fields|
    ensures Rest(fields, i, delim) == (if i > 0 then [delim] else "") + Field(fields[i], delim) + Rest(fields, i + 1, delim)
  {
    var t := fields[i..];
    assert t[0] == fields[i] && t[1..] == fields[i + 1..];
  }

  /** The length pass over the record, terminating NUL included. */
  method RecordLength(fields: seq<Text>, delim: char) returns (total: nat)
    ensures total == |Record(fields, delim)| + 1
  {
    total := 0;
    assert fields[0..] == fields;
    for i := 0 to |fields|
      invariant total + |Rest(fields, i, delim)| == |Record(fields, delim)|
    {
      RestStep(fields, i, delim);
      if i > 0 { total := total + 1; }
      var n := FieldLength(fields[i], delim);
      total := total + n;
    }
    total := total + 1;
  }

  /** The write pass fills exactly the bytes the length pass counted and ends with NUL. */
  method Serialise(fields: seq<Text>, delim: char, allocates: bool) returns (ok: bool, buf: array<char>)
    ensures ok == allocates
    ensures ok ==> buf[..] == Record(fields, delim) + ['\0']
  {
    var total := RecordLength(fields, delim);
    if !allocates {
      buf := new char[0];
      return false, buf;
    }
    buf := new char[total];
    var pos: nat := 0;
    assert fields[0..] == fields;
    for i := 0 to |fields|
      invariant pos <= total - 1 && buf[..pos] + Rest(fields, i, delim) == Record(fields, delim)
    {
      pos := WriteNext(fields, i, delim, buf, pos);
    }
    assert buf[..pos] == Record(fields, delim);
    buf[pos] := '\0';
    assert buf[..] == buf[..pos] + ['\0'];
    ok := true;
  }

  /** One turn of the write loop: the delimiter, unless first, and the field. */
  method WriteNext(fields: seq<Text>, i: nat, delim: char, buf: array<char>, pos: nat) returns (end: nat)
    requires i < |fields| && pos <= buf.Length && pos + |Rest(fields, i, delim)| <= buf.Length
    modifies buf
    ensures end <= buf.Length && buf[..end] + Rest(fields, i + 1, delim) == old(buf[..pos]) + Rest(fields, i, delim)
  {
    RestStep(fields, i, delim);
    ghost var before := buf[..pos];
    end := pos;
    if i > 0 {
      buf[end] := delim;
      end := end + 1;
    }
    assert buf[..end] == before + (if i > 0 then [delim] else "");
    end := WriteField(fields[i], delim, buf, end);
    Assoc(before, (if i > 0 then [delim] else "") + Field(fields[i], delim), Rest(fields, i + 1, delim));
    Assoc(before, if i > 0 then [delim] else "", Field(fields[i], delim));
  }

  // ---- The reader's cursor ------------------------------------------------------------------

  method ScanQuoted(line: Text, start: nat) returns (field: Text, p: nat)
    requires start <= |line|
    ensures p <= |line| && (field, line[p..]) == ReadQuoted(line[start..])
  {
    p, field := start, "";
    Unit(ReadQuoted(line[start..]).0);
    while p < |line|
      invariant start <= p <= |line|
      invariant ReadQuoted(line[start..]) == (field + ReadQuoted(line[p..]).0, ReadQuoted(line[p..]).1)
      decreases |line| - p
    {
      ghost var t := line[p..];
      assert t[1..] == line[p + 1..];
      if line[p] != QUOTE {
        Assoc(field, [line[p]], ReadQuoted(t[1..]).0);
        field := field + [line[p]];
        p := p + 1;
        continue;
      }
      if p + 1 < |line| && line[p + 1] == QUOTE {
        assert t[2..] == line[p + 2..];
        Assoc(field, [QUOTE], ReadQuoted(t[2..]).0);
        p := p + 2;
        field := field + [QUOTE];
        continue;
      }
      Unit(field);
      p := p + 1;
      return;
    }
    assert line[p..] == "";
    Unit(field);
  }

  method ScanUnquoted(line: Text, start: nat, delim: char) returns (field: Text, p: nat)
    requires start <= |line|
    ensures p <= |line| && (field, line[p..]) == ReadUnquoted(line[start..], delim)
  {
    p, field := start, "";
    Unit(ReadUnquoted(line[start..], delim).0);
    while p < |line| && line[p] != delim && line[p] != '\n' && line[p] != '\r'
      invariant start <= p <= |line|
      invariant ReadUnquoted(line[start..], delim) ==
                (field + ReadUnquoted(line[p..], delim).0, ReadUnquoted(line[p..], delim).1)
      decreases |line| - p
    {
      assert line[p..][1..] == line[p + 1..];
      Assoc(field, [line[p]], ReadUnquoted(line[p + 1..], delim).0);
      field := field + [line[p]];
      p := p + 1;
    }
    Unit(field);
  }

  lemma Accumulate(fields: seq<Text>, field: Text, rest: seq<Text>)
    ensures fields + ([field] + rest) == (fields + [field]) + rest
  {
  }

  /** Reads one field at the cursor. */
  method ScanField(line: Text, start: nat, delim: char) returns (field: Text, p: nat)
    requires start <= |line|
    ensures p <= |line| && (field, line[p..]) == ReadField(line[start..], delim)
  {
    if start < |line| && line[start] == QUOTE {
      assert line[start..][1..] == line[start + 1..];
      field, p := ScanQuoted(line, start + 1);
    } else {
      field, p := ScanUnquoted(line, start, delim);
    }
  }

  /** Reads the fields of one record, to the first character that neither continues nor delimits a field. */
  method ParseRecord(line: Text, delim: char) returns (fields: seq<Text>)
    requires delim != '\0' && forall i :: 0 <= i < |line| ==> line[i] != '\0'
    ensures fields == Parse(line, delim)
  {
    var p := 0;
    fields := [];
    assert line[0..] == line;
    while true
      invariant 0 <= p <= |line| && fields + Parse(line[p..], delim) == Parse(line, delim)
      decreases |line| - p
    {
      ghost var t := line[p..];
      var field;
      field, p := ScanField(line, p, delim);
      assert |line[p..]| <= |t|;
      Accumulate(fields, field, Parse(line[if p < |line| then p + 1 else p..], delim));
      fields := fields + [field];
      if p < |line| && line[p] == delim {
        assert line[p..][1..] == line[p + 1..];
        p := p + 1;
        continue;
      }
      break;
    }
  }
}
