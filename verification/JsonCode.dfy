/** The recursive-descent parser and the serializer as code: a cursor over the text, a growing output. */
module JsonCode {
  import opened JsonSpec
  import opened JsonBounds
  import B = Bits
  import RT = JsonRoundTrip
  import G = JsonGrammar

  /** What a parsing method left behind agrees with the specification of its input. */
  ghost predicate Agrees<T>(spec: Parsed<T>, error: bool, value: T, rest: Text) {
    if error then spec == Fail else spec == Ok(value, rest)
  }

  /** The same, but that a refusal may also come from a number that runs on behind the text. */
  ghost predicate AgreesOrStuck<T>(spec: Parsed<T>, error: bool, value: T, rest: Text) {
    if error then spec == Fail || Stuck(spec.rest) else spec == Ok(value, rest)
  }

  lemma Assoc<T>(a: seq<T>, b: seq<T>, c: seq<T>)
    ensures a + (b + c) == (a + b) + c
  {
  }

  class Parser {
    const text: Text
    const behind: Text              // the bytes after the text, which strtod can see
    var pos: nat
    var error: bool
    var inside: bool                // every terminator was written inside its buffer

    constructor (text: Text, behind: Text)
      ensures this.text == text && this.behind == behind && pos == 0 && !error && inside
    {
      this.text, this.behind, pos, error, inside := text, behind, 0, false, true;
    }

    ghost predicate Valid()
      reads this
    {
      pos <= |text| && !error
    }

    ghost function Rest(): Text
      requires pos <= |text|
      reads this
    {
      text[pos..]
    }

    method SkipSpace()
      requires Valid()
      modifies this`pos
      ensures Valid() && Rest() == SkipWs(old(Rest())) && pos >= old(pos)
    {
      while pos < |text|
        invariant old(pos) <= pos <= |text| && SkipWs(text[pos..]) == SkipWs(old(Rest()))
        decreases |text| - pos
      {
        ghost var t := text[pos..];
        var c := text[pos];
        if c == ' ' || c == '\t' || c == '\n' || c == '\r' {
          assert t[1..] == text[pos + 1..];
          pos := pos + 1;
        } else {
          break;
        }
      }
    }

    /** At the character after the backslash; the bytes the escape denotes. */
    method ParseEscape() returns (bytes: Text)
      requires Valid()
      modifies this`pos, this`error
      ensures pos <= |text| && Agrees(Escape(old(Rest())), error, bytes, Rest()) && pos >= old(pos)
      ensures !error ==> pos > old(pos) && |bytes| <= 3
    {
      bytes := "";
      ghost var t := Rest();
      if pos >= |text| {
        error := true;
        return;
      }
      var simple := SimpleEscape(text[pos]);
      if simple != "" {
        assert t[1..] == text[pos + 1..];
        pos := pos + 1;
        bytes := simple;
        return;
      }
      if text[pos] == 'u' {
        assert t[1..] == text[pos + 1..];
        pos := pos + 1;
        var cp := ParseHex();
        if !error { bytes := Utf8(cp); }
        return;
      }
      error := true;
    }

    method ParseHex() returns (cp: nat)
      requires Valid()
      modifies this`pos, this`error
      ensures pos <= |text| && Agrees(CodePoint(old(Rest())), error, cp, Rest()) && pos >= old(pos) && cp < 0x10000
    {
      cp := 0;
      ghost var t := Rest();
      if pos + 4 > |text| {
        error := true;
        return;
      }
      for i := 0 to 4
        invariant forall j :: 0 <= j < i ==> HexValue(t[j]) >= 0
        invariant cp == HexPrefix(t, i) && Valid() && pos == old(pos)
      {
        var h := HexValue(text[pos + i]);
        assert text[pos + i] == t[i];
        if h < 0 {
          error := true;
          return 0;
        }
        cp := cp * 16 + h;
      }
      FourDigits(t);
      assert t[4..] == text[pos + 4..];
      pos := pos + 4;
    }

    /** One raw or escaped character inside a string; the bytes it contributes. */
    method ParseCharacter() returns (bytes: Text)
      requires Valid() && pos < |text| && text[pos] != '\"'
      modifies this`pos, this`error
      ensures pos <= |text| && pos > old(pos)
      ensures Str(old(Rest())) == if error then Fail else Prepend(bytes, Str(Rest()))
      ensures !error ==> |bytes| <= 3
    {
      ghost var t := Rest();
      assert t[1..] == text[pos + 1..];
      var c := text[pos];
      pos := pos + 1;
      if c != '\\' { return [c]; }
      bytes := ParseEscape();
    }

    /**
      * At the opening quote. The capacity of the buffer starts at 64 bytes and doubles whenever a character does
      * not fit; the terminator is not counted.
      */
    method ParseString() returns (s: Text)
      requires Valid() && pos < |text|
      modifies this
      ensures pos <= |text| && Agrees(Str(old(text[pos + 1..])), error, s, Rest()) && pos > old(pos)
      ensures !error ==> (inside <==> old(inside) && !FillsBuffer(|s|))
    {
      pos := pos + 1;
      s := "";
      var cap: nat := 64;
      ghost var k: nat := 0;
      ghost var spec := Str(Rest());
      PrependNothing(spec);
      while pos < |text|
        invariant old(pos) < pos <= |text| && !error && inside == old(inside)
        invariant spec == Prepend(s, Str(text[pos..])) && Capacity(|s|, cap, k)
        decreases |text| - pos
      {
        if text[pos] == '\"' {
          StrEnds(s, text[pos..]);
          assert text[pos..][1..] == text[pos + 1..];
          pos := pos + 1;
          inside := inside && |s| < cap;
          FitsIff(|s|, cap, k);
          return;
        }
        var bytes := ParseCharacter();
        if error { return; }
        PrependTwice(s, bytes, Str(Rest()));
        cap, k := MakeRoom(|s|, |bytes|, cap, k);
        s := s + bytes;
      }
      assert text[pos..] == "";
      error := true;
    }

    method ParseNumber() returns (v: Json)
      requires Valid() && pos < |text| && (text[pos] == '-' || Digit(text[pos]))
      modifies this`pos, this`error
      ensures pos <= |text| && pos >= old(pos) && (!error ==> pos > old(pos))
      ensures Agrees(NumberIn(old(Rest()), behind), error, v, Rest())
    {
      pos, error, v := ReadNumber(text, pos, behind);
    }

    method ParseLiteral(word: Text, value: Json) returns (v: Json)
      requires Valid() && word != ""
      modifies this`pos, this`error
      ensures pos <= |text| && Agrees(Literal(old(Rest()), word, value), error, v, Rest())
      ensures pos >= old(pos) && (!error ==> pos > old(pos))
    {
      v := value;
      ghost var t := Rest();
      if |text| - pos >= |word| && text[pos..pos + |word|] == word {
        assert t[..|word|] == text[pos..pos + |word|] && t[|word|..] == text[pos + |word|..];
        pos := pos + |word|;
      } else {
        assert |t| >= |word| ==> t[..|word|] == text[pos..pos + |word|];
        error := true;
      }
    }

    /** 1: another element follows; 2: the bracket closed; 0: error. */
    method ParseSeparator(close: char) returns (sep: int)
      requires Valid()
      modifies this`pos, this`error
      ensures pos <= |text| && pos >= old(pos) && (!error ==> pos > old(pos))
      ensures sep == 0 <==> error
      ensures !error ==> sep == 1 || sep == 2
      ensures Agrees(Separator(old(Rest()), close), error, sep == 1, Rest())
    {
      SkipSpace();
      ghost var t := Rest();
      if pos >= |text| {
        error := true;
        return 0;
      }
      assert t[1..] == text[pos + 1..];
      if text[pos] == ',' {
        pos := pos + 1;
        SkipSpace();
        if pos >= |text| || text[pos] == close {
          error := true;
          return 0;
        }
        return 1;
      }
      if text[pos] == close {
        pos := pos + 1;
        return 2;
      }
      error := true;
      return 0;
    }

    method ParseValue() returns (v: Json)
      requires Valid()
      modifies this
      ensures !error ==> (inside <==> old(inside) && Roomy(v))
      ensures pos <= |text| && pos >= old(pos) && (!error ==> pos > old(pos))
      ensures Agrees(ValueIn(old(Rest()), behind), error, v, Rest())
      decreases |text| - pos, 2
    {
      v := JNull;
      SkipSpace();
      if pos >= |text| {
        error := true;
        return;
      }
      ghost var t := Rest();
      assert t[1..] == text[pos + 1..] && SkipWs(t) == t;
      var c := text[pos];
      if c == 'n' { v := ParseLiteral("null", JNull); return; }
      if c == 't' { v := ParseLiteral("true", JBool(true)); return; }
      if c == 'f' { v := ParseLiteral("false", JBool(false)); return; }
      if c == '[' { v := ParseArray(); return; }
      if c == '{' { v := ParseObject(); return; }
      if c == '\"' {
        var s := ParseString();
        v := JString(s);
        return;
      }
      if c == '-' || Digit(c) {
        v := ParseNumber();
        return;
      }
      error := true;
    }

    method ParseArray() returns (v: Json)
      requires Valid() && pos < |text| && text[pos] == '['
      modifies this
      ensures !error ==> (inside <==> old(inside) && Roomy(v))
      ensures pos <= |text| && Agrees(ArrayAt(old(text[pos + 1..])), error, v, Rest())
      ensures pos > old(pos)
      decreases |text| - pos, 1
    {
      v := JArray([]);
      pos := pos + 1;
      SkipSpace();
      ghost var t := Rest();
      if pos < |text| && text[pos] == ']' {
        assert t[1..] == text[pos + 1..];
        pos := pos + 1;
        return;
      }
      v := ParseElements();
    }

    method ParseElements() returns (v: Json)
      requires Valid()
      modifies this
      ensures !error ==> (inside <==> old(inside) && Roomy(v))
      ensures pos <= |text| && Agrees(Elements(old(Rest()), []), error, v, Rest())
      ensures pos >= old(pos)
      decreases |text| - pos, 3
    {
      v := JNull;
      var items: seq<Json> := [];
      ghost var spec := Elements(Rest(), []);
      while true
        invariant Valid() && pos >= old(pos)
        invariant spec == Elements(text[pos..], items)
        invariant inside <==> old(inside) && Roomy(JArray(items))
        decreases |text| - pos
      {
        ghost var t := Rest();
        var elem := ParseValue();
        if error { ElementsStuck(t, behind, items); return; }
        OneMoreItem(items, elem);
        items := items + [elem];
        var sep := ParseSeparator(']');
        if sep == 0 { return; }
        if sep == 2 { return JArray(items); }
      }
    }

    method ParseObject() returns (v: Json)
      requires Valid() && pos < |text| && text[pos] == '{'
      modifies this
      ensures !error ==> (inside <==> old(inside) && Roomy(v))
      ensures pos <= |text| && Agrees(ObjectAt(old(text[pos + 1..])), error, v, Rest())
      ensures pos > old(pos)
      decreases |text| - pos, 1
    {
      v := JObject([]);
      pos := pos + 1;
      SkipSpace();
      ghost var t := Rest();
      if pos < |text| && text[pos] == '}' {
        assert t[1..] == text[pos + 1..];
        pos := pos + 1;
        return;
      }
      v := ParseMembers();
    }

    method ParseKey() returns (key: Text)
      requires Valid()
      modifies this
      ensures !error ==> (inside <==> old(inside) && !FillsBuffer(|key|))
      ensures pos <= |text| && Agrees(KeyAt(old(Rest())), error, key, Rest())
      ensures pos >= old(pos) && (!error ==> pos > old(pos))
    {
      key := "";
      SkipSpace();
      if pos >= |text| || text[pos] != '\"' {
        error := true;
        return;
      }
      ghost var t := Rest();
      assert t[1..] == text[pos + 1..];
      key := ParseString();
      if error { return; }
      ghost var rest := Rest();
      SkipSpace();
      KeyCases(old(Rest()), t, key, rest, Rest());
      if pos >= |text| || text[pos] != ':' {
        error := true;
        return;
      }
      assert Rest()[1..] == text[pos + 1..];
      pos := pos + 1;
    }

    method ParseMember() returns (m: Member)
      requires Valid()
      modifies this
      ensures !error ==> (inside <==> old(inside) && !FillsBuffer(|m.key|) && Roomy(m.value))
      ensures pos <= |text| && AgreesOrStuck(MemberAt(old(Rest())), error, m, Rest())
      ensures pos >= old(pos) && (!error ==> pos > old(pos))
      decreases |text| - pos, 3
    {
      m := Member("", JNull);
      var key := ParseKey();
      if error { return; }
      ghost var t := Rest();
      if RunsOn(SkipWs(t), behind) { RunsOnStuck(t, behind); }
      var v := ParseValue();
      if error { return; }
      m := Member(key, v);
    }

    method ParseMembers() returns (v: Json)
      requires Valid()
      modifies this
      ensures !error ==> (inside <==> old(inside) && Roomy(v))
      ensures pos <= |text| && Agrees(Members(old(Rest()), []), error, v, Rest())
      ensures pos >= old(pos)
      decreases |text| - pos, 4
    {
      v := JNull;
      var members: seq<Member> := [];
      ghost var spec := Members(Rest(), []);
      while true
        invariant Valid() && pos >= old(pos)
        invariant spec == Members(text[pos..], members)
        invariant inside <==> old(inside) && Roomy(JObject(members))
        decreases |text| - pos
      {
        ghost var t := Rest();
        var m := ParseMember();
        if error { MembersStuck(t, members); return; }
        OneMoreMember(members, m);
        members := members + [m];
        var sep := ParseSeparator('}');
        if sep == 0 { return; }
        if sep == 2 { return JObject(members); }
      }
    }
  }

  /** A decoded length of 64, 128, 256, ...: the string fills its buffer and leaves no room for the terminator. */
  ghost predicate FillsBuffer(n: nat) { exists k: nat :: n == 64 * B.Pow2(k) }

  /** No string or key of the tree has such a length. */
  ghost predicate Roomy(v: Json)
    decreases v, 1
  {
    match v
    case JString(s) => !FillsBuffer(|s|)
    case JArray(items) => forall i :: 0 <= i < |items| ==> Roomy(items[i])
    case JObject(members) => forall i :: 0 <= i < |members| ==> !FillsBuffer(|members[i].key|) && Roomy(members[i].value)
    case _ => true
  }

  lemma {:induction false} OneMoreItem(items: seq<Json>, v: Json)
    ensures Roomy(JArray(items + [v])) <==> Roomy(JArray(items)) && Roomy(v)
  {
    var all := items + [v];
    assert all[|items|] == v && forall i :: 0 <= i < |items| ==> all[i] == items[i];
  }

  lemma {:induction false} OneMoreMember(members: seq<Member>, m: Member)
    ensures Roomy(JObject(members + [m])) <==> Roomy(JObject(members)) && !FillsBuffer(|m.key|) && Roomy(m.value)
  {
    var all := members + [m];
    assert all[|members|] == m && forall i :: 0 <= i < |members| ==> all[i] == members[i];
  }

  /** The buffer has doubled k times, the last time because it had to. */
  ghost predicate Capacity(n: nat, cap: nat, k: nat) {
    cap == 64 * B.Pow2(k) && n <= cap && (k > 0 ==> 64 * B.Pow2(k - 1) < n)
  }

  /** Twice the capacity if the next bytes do not fit. */
  method MakeRoom(n: nat, extra: nat, cap: nat, ghost k: nat) returns (cap': nat, ghost k': nat)
    requires Capacity(n, cap, k) && extra <= 3
    ensures Capacity(n + extra, cap', k') && cap' == if n + extra <= cap then cap else 2 * cap
  {
    cap', k' := cap, k;
    if n + extra > cap { cap', k' := 2 * cap, k + 1; }
  }

  lemma {:induction false} FitsIff(n: nat, cap: nat, k: nat)
    requires Capacity(n, cap, k)
    ensures n < cap <==> !FillsBuffer(n)
  {
    if j: nat :| n == 64 * B.Pow2(j) {
      if j > k { B.Pow2Mono(k + 1, j); }
      if j < k { B.Pow2Mono(j, k - 1); }
    }
  }

  /** A string of 64 plain characters, the shortest that puts its terminator outside the buffer. */
  lemma {:induction false} SixtyFourFills()
    ensures FillsBuffer(64) && forall n: nat :: n < 64 ==> !FillsBuffer(n)
  {
    assert 64 == 64 * B.Pow2(0);
  }

  lemma {:induction false} KeyCases(text: Text, t: Text, key: Text, rest: Text, u: Text)
    requires t == SkipWs(text) && t != "" && t[0] == '\"' && Str(t[1..]) == Ok(key, rest) && u == SkipWs(rest)
    ensures KeyAt(text) == if u == "" || u[0] != ':' then Fail else Ok(key, u[1..])
  {
  }

  lemma {:induction false} ElementsStuck(t: Text, behind: Text, items: seq<Json>)
    requires ValueIn(t, behind) == Fail
    ensures Elements(t, items) == Fail
  {
    if ValueAt(t).Ok? {
      RunsOnStuck(t, behind);
      StuckRefused(ValueAt(t).rest, ']');
    }
  }

  lemma {:induction false} MembersStuck(t: Text, members: seq<Member>)
    requires MemberAt(t) == Fail || Stuck(MemberAt(t).rest)
    ensures Members(t, members) == Fail
  {
    if MemberAt(t).Ok? { StuckRefused(MemberAt(t).rest, '}'); }
  }

  /**
    * The whole document: a value and nothing but white space behind it. It is accepted if and only if the
    * text spells a value, which is the one returned, unless it is a number that the bytes behind the text continue. `inside` says whether every
    * terminator was written inside its buffer.
    */
  method ParseDocument(text: Text, behind: Text) returns (ok: bool, v: Json, inside: bool)
    ensures ok <==> Document(text).Ok? && !RunsOn(SkipWs(text), behind)
    ensures ok ==> v == Document(text).value && (inside <==> Roomy(v))
    ensures ok <==> (exists j :: G.Spells(text, j)) && !RunsOn(SkipWs(text), behind)
    ensures ok ==> G.Spells(text, v)
  {
    G.AcceptedSpells(text);
    var p := new Parser(text, behind);
    assert text[0..] == text;
    v := p.ParseValue();
    inside := p.inside;
    if p.error { return false, v, inside; }
    p.SkipSpace();
    ok := p.pos == |p.text|;
  }

  function Prepend(s: Text, p: Parsed<Text>): Parsed<Text> {
    match p
    case Fail => Fail
    case Ok(t, rest) => Ok(s + t, rest)
  }

  lemma StrEnds(s: Text, t: Text)
    requires t != "" && t[0] == '\"'
    ensures Prepend(s, Str(t)) == Ok(s, t[1..])
  {
    assert s + "" == s;
  }

  lemma PrependNothing(p: Parsed<Text>)
    ensures Prepend("", p) == p
  {
    if p.Ok? { assert "" + p.value == p.value; }
  }

  lemma PrependTwice(s: Text, t: Text, p: Parsed<Text>)
    ensures Prepend(s, Prepend(t, p)) == Prepend(s + t, p)
  {
    if p.Ok? { Assoc(s, t, p.value); }
  }

  /** parse_number_digits: where the digits end, or -1. */
  method ScanDigits(t: Text, i: nat, end: nat) returns (r: int)
    requires i <= end <= |t|
    ensures r == Digits(t, i, end)
  {
    if i >= end || t[i] < '0' || t[i] > '9' { return -1; }
    if t[i] == '0' { return i + 1; }
    var s := i;
    while s < end && '0' <= t[s] <= '9'
      invariant i <= s <= end && forall k :: i <= k < s ==> Digit(t[k])
    {
      s := s + 1;
    }
    return s;
  }

  /**
    * parse_number at position i: where the cursor goes, whether the number is refused, and its value. strtod
    * also sees the bytes behind the text. When it reads on into them the code leaves its cursor there, where
    * every later test of it against the end fails; here that is a refusal at once.
    */
  method ReadNumber(text: Text, i: nat, behind: Text) returns (j: nat, refused: bool, v: Json)
    requires i < |text| && (text[i] == '-' || Digit(text[i]))
    ensures i <= j <= |text| && (!refused ==> i < j)
    ensures Agrees(NumberIn(text[i..], behind), refused, v, text[j..])
  {
    var n := CheckNumber(text[i..] + behind);
    refused, v := n == 0 || n > |text| - i, JNull;
    if !refused { v := NumberValue(text[i..i + n]); }
    NumberAgrees(text, i, behind, n, refused, v);
    j := if refused then i else i + n;
  }

  lemma {:induction false} NumberAgrees(text: Text, i: nat, behind: Text, n: nat, refused: bool, v: Json)
    requires i < |text| && (text[i] == '-' || Digit(text[i])) && n == Accepted(text[i..] + behind)
    requires refused == (n == 0 || n > |text| - i) && (!refused ==> v == NumberValue(text[i..i + n]))
    ensures Agrees(NumberIn(text[i..], behind), refused, v, if refused then text[i..] else text[i + n..])
  {
    var u := text[i..];
    ghost var spec := NumberIn(u, behind);
    NumberOutcome(u, behind, n, spec);
    if !refused { assert u[n..] == text[i + n..] && u[..n] == text[i..i + n]; }
  }

  /** strtod, and the check behind it. */
  method CheckNumber(t: Text) returns (n: nat)
    requires t != ""
    ensures n == Accepted(t)
  {
    n := StrtodEnd(t);
    if n > 0 {
      var stop := CheckGrammar(t, n);
      if stop != n { n := 0; }
    }
  }

  /** The optional exponent after position j. */
  method CheckExponent(t: Text, j: nat, end: nat) returns (r: int)
    requires j <= end <= |t|
    ensures r == ExpGrammar(t, j, end)
  {
    r := j;
    if r < end && (t[r] == 'e' || t[r] == 'E') {
      r := r + 1;
      if r < end && (t[r] == '+' || t[r] == '-') { r := r + 1; }
      r := ScanDigits(t, r, end);
    }
  }

  /** The check behind strtod: where the grammar stops, or -1. */
  method CheckGrammar(t: Text, end: nat) returns (r: int)
    requires 1 <= end <= |t|
    ensures r == GrammarEnd(t, end)
  {
    var s: nat := if t[0] == '-' then 1 else 0;
    r := ScanDigits(t, s, end);
    if r < 0 { return -1; }
    if r < end && t[r] == '.' {
      r := ScanDigits(t, r + 1, end);
      if r < 0 { return -1; }
    }
    r := CheckExponent(t, r, end);
  }

  /** Value of the first i hexadecimal digits. */
  function HexPrefix(t: Text, i: nat): (n: nat)
    requires i <= |t| && forall j :: 0 <= j < i ==> HexValue(t[j]) >= 0
  {
    if i == 0 then 0 else HexPrefix(t, i - 1) * 16 + HexValue(t[i - 1])
  }

  lemma {:induction false} FourDigits(t: Text)
    requires 4 <= |t| && forall j :: 0 <= j < 4 ==> HexValue(t[j]) >= 0
    ensures HexPrefix(t, 4) == ((HexValue(t[0]) * 16 + HexValue(t[1])) * 16 + HexValue(t[2])) * 16 + HexValue(t[3])
    ensures HexPrefix(t, 4) < 0x10000
  {
    HexPrefixNext(t, 0);
    HexPrefixNext(t, 1);
    HexPrefixNext(t, 2);
    HexPrefixNext(t, 3);
  }

  lemma {:induction false} HexPrefixNext(t: Text, i: nat)
    requires i < |t| && forall j :: 0 <= j < i + 1 ==> HexValue(t[j]) >= 0
    ensures HexPrefix(t, i + 1) == HexPrefix(t, i) * 16 + HexValue(t[i]) && 0 <= HexValue(t[i]) < 16
    ensures i == 0 ==> HexPrefix(t, i) == 0
  {
  }

  // ---- Serializer ---------------------------------------------------------------------------

  /** What is still to be written of a list after i elements. */
  function ItemsFrom(items: seq<Json>, i: nat): Text
    requires i <= |items|
  {
    if i == |items| then "" else (if i > 0 then [','] else "") + WrittenItems(items[i..])
  }

  function MembersFrom(members: seq<Member>, i: nat): Text
    requires i <= |members|
  {
    if i == |members| then "" else (if i > 0 then [','] else "") + WrittenMembers(members[i..])
  }

  lemma {:induction false} ItemsStep(items: seq<Json>, i: nat)
    requires i < |items|
    ensures ItemsFrom(items, i) == (if i > 0 then [','] else "") + (Written(items[i]) + ItemsFrom(items, i + 1))
  {
    var t := items[i..];
    assert t[0] == items[i] && t[1..] == items[i + 1..];
    if i + 1 == |items| { assert Written(items[i]) + "" == Written(items[i]); }
  }

  lemma {:induction false} MembersStep(members: seq<Member>, i: nat)
    requires i < |members|
    ensures MembersFrom(members, i) == (if i > 0 then [','] else "") + (WrittenMember(members[i]) + MembersFrom(members, i + 1))
  {
    var t := members[i..];
    assert t[0] == members[i] && t[1..] == members[i + 1..];
    if i + 1 == |members| { assert WrittenMember(members[i]) + "" == WrittenMember(members[i]); }
  }

  /** Four pieces written one after another. */
  lemma Pieces(out: Text, comma: Text, piece: Text, rest: Text)
    ensures out + (comma + (piece + rest)) == ((out + comma) + piece) + rest
  {
    Assoc(comma, piece, rest);
    Assoc(out, comma + piece, rest);
    Assoc(out, comma, piece);
  }

  /** The output string the serializer appends to. */
  class Builder {
    var out: Text

    constructor ()
      ensures out == ""
    {
      out := "";
    }

    method Append(t: Text)
      modifies this
      ensures out == old(out) + t
    {
      out := out + t;
    }

    /** string_escape_into */
    method AppendQuoted(s: Text)
      modifies this
      ensures out == old(out) + Quoted(s)
    {
      ghost var target := old(out) + ['\"'] + EscapedAll(s);
      Append("\"");
      assert s[0..] == s;
      for i := 0 to |s|
        invariant out + EscapedAll(s[i..]) == target
      {
        assert s[i..][1..] == s[i + 1..];
        Assoc(out, Escaped(s[i]), EscapedAll(s[i + 1..]));
        Append(Escaped(s[i]));
      }
      assert out == target;
      Append("\"");
      Assoc(['\"'], EscapedAll(s), ['\"']);
      Assoc(old(out), ['\"'], EscapedAll(s));
      Assoc(old(out), ['\"'] + EscapedAll(s), ['\"']);
    }

    /** value_serialize_into */
    method AppendValue(v: Json)
      modifies this
      ensures out == old(out) + Written(v)
      decreases v, 1
    {
      match v
      case JNull => Append("null");
      case JBool(b) => if b { Append("true"); } else { Append("false"); }
      case JInt(n) => Append(Integer(n));
      case JReal(token) => Append(token);
      case JString(s) => AppendQuoted(s);
      case JArray(items) => AppendArray(items);
      case JObject(members) => AppendObject(members);
    }

    method AppendArray(items: seq<Json>)
      modifies this
      ensures out == old(out) + Written(JArray(items))
      decreases items, 1
    {
      Pieces(out, ['['], WrittenItems(items), [']']);
      Append("[");
      AppendItems(items);
      Append("]");
    }

    method AppendItems(items: seq<Json>)
      modifies this
      ensures out == old(out) + WrittenItems(items)
      decreases items, 0
    {
      assert items[0..] == items;
      for i := 0 to |items|
        invariant out + ItemsFrom(items, i) == old(out) + WrittenItems(items)
      {
        ItemsStep(items, i);
        Pieces(out, if i > 0 then [','] else "", Written(items[i]), ItemsFrom(items, i + 1));
        AppendComma(i);
        AppendValue(items[i]);
      }
    }

    method AppendComma(i: nat)
      modifies this
      ensures out == old(out) + (if i > 0 then [','] else "")
    {
      if i > 0 { Append(","); } else { assert out == out + ""; }
    }

    method AppendObject(members: seq<Member>)
      modifies this
      ensures out == old(out) + Written(JObject(members))
      decreases members, 1
    {
      Pieces(out, ['{'], WrittenMembers(members), ['}']);
      Append("{");
      AppendMembers(members);
      Append("}");
    }

    method AppendMembers(members: seq<Member>)
      modifies this
      ensures out == old(out) + WrittenMembers(members)
      decreases members, 0
    {
      assert members[0..] == members;
      for i := 0 to |members|
        invariant out + MembersFrom(members, i) == old(out) + WrittenMembers(members)
      {
        MembersStep(members, i);
        Pieces(out, if i > 0 then [','] else "", WrittenMember(members[i]), MembersFrom(members, i + 1));
        AppendComma(i);
        AppendMember(members[i]);
      }
    }

    method AppendMember(m: Member)
      modifies this
      ensures out == old(out) + WrittenMember(m)
      decreases m, 2
    {
      AppendQuoted(m.key);
      Append(":");
      AppendValue(m.value);
      Assoc([':'], Written(m.value), "");
      Pieces(old(out), Quoted(m.key), [':'], Written(m.value));
    }
  }

  /**
    * The code's own round trip: parse what was serialised, as a terminated string. The tree comes back, and
    * every write stays inside its buffer if and only if no string or key has a length of 64 times a power of two.
    */
  method SerialiseThenParse(v: Json, behind: Text) returns (ok: bool, w: Json, inside: bool)
    requires RT.Good(v) && Ends(behind)
    ensures ok && w == v && (inside <==> Roomy(v))
  {
    var b := new Builder();
    b.AppendValue(v);
    assert "" + Written(v) == Written(v);
    RT.RoundTrip(v);
    TerminatedNeverRunsOn(SkipWs(Written(v)), behind);
    ok, w, inside := ParseDocument(b.out, behind);
  }
}
