/** Reading at the end of a text of given length: strtod does not know where it ends. */
module JsonBounds {
  import opened JsonSpec

  /** A text that starts with a number which the bytes behind the text continue. */
  predicate RunsOn(t: Text, behind: Text) {
    t != "" && (t[0] == '-' || Digit(t[0])) && StrtodEnd(t + behind) > |t|
  }

  /** A number or a value of a text with bytes behind it. */
  function NumberIn(t: Text, behind: Text): Parsed<Json> { if RunsOn(t, behind) then Fail else Number(t) }
  function ValueIn(t: Text, behind: Text): Parsed<Json> { if RunsOn(SkipWs(t), behind) then Fail else ValueAt(t) }

  /** What can be left of a text after a number that the bytes behind would have continued. */
  predicate Stuck(rest: Text) { rest == "" || IsExp(rest, 0) || rest[0] == 'x' || rest[0] == 'X' }

  /** A part of a number ends where it did, or at the end of the text or behind it. */
  predicate Carried(t: Text, e: nat, e': nat) { (e < |t| ==> e' == e) && (e >= |t| ==> e' >= |t|) }

  lemma {:induction false} RunConcat(t: Text, b: Text, i: nat)
    requires i <= |t|
    ensures Carried(t, RunEnd(t, i), RunEnd(t + b, i))
  {
    assert forall k :: 0 <= k < |t| ==> (t + b)[k] == t[k];
  }

  /** The digits of an exponent end where they did, or the text stops inside them or right before. */
  lemma {:induction false} DigitsEndConcat(t: Text, b: Text, f: nat)
    requires f < |t|
    ensures DigitsEnd(t + b, f) <= |t| ==> DigitsEnd(t, f) == DigitsEnd(t + b, f)
    ensures DigitsEnd(t + b, f) > |t| ==> DigitsEnd(t, f) == |t| || DigitsEnd(t, f) == f
  {
    if f + 1 < |t| {
      assert ExpDigits(t + b, f) == ExpDigits(t, f);
      RunConcat(t, b, ExpDigits(t, f));
    }
  }

  lemma {:induction false} ExpConcat(t: Text, b: Text, f: nat, f': nat)
    requires f <= |t| && f' <= |t + b| && Carried(t, f, f')
    ensures ExpEnd(t + b, f') <= |t| ==> ExpEnd(t, f) == ExpEnd(t + b, f')
    ensures ExpEnd(t + b, f') > |t| ==> Stuck(t[ExpEnd(t, f)..])
  {
    if f < |t| {
      DigitsEndConcat(t, b, f);
      assert IsExp(t + b, f) == IsExp(t, f);
      assert t[f..][0] == t[f];
    }
  }

  lemma {:induction false} FracCarried(t: Text, b: Text, i: nat, i': nat)
    requires i <= |t| && i' <= |t + b| && Carried(t, i, i')
    ensures Carried(t, FracEnd(t, i), FracEnd(t + b, i'))
  {
    if i < |t| { RunConcat(t, b, i + 1); }
  }

  lemma {:induction false} DecimalConcat(t: Text, b: Text)
    requires t != ""
    ensures DecimalEnd(t + b) <= |t| ==> DecimalEnd(t) == DecimalEnd(t + b)
    ensures DecimalEnd(t + b) > |t| ==> Stuck(t[DecimalEnd(t)..])
  {
    var u, s := t + b, Sign(t);
    assert Sign(u) == s;
    RunConcat(t, b, s);
    var i, i' := RunEnd(t, s), RunEnd(u, s);
    FracCarried(t, b, i, i');
    ExpConcat(t, b, FracEnd(t, i), FracEnd(u, i'));
  }

  lemma {:induction false} HexConcat(t: Text, b: Text)
    requires IsHex(t)
    ensures IsHex(t + b) && HexEnd(t + b) == HexEnd(t)
  {
    assert Sign(t + b) == Sign(t);
    assert forall i :: 0 <= i < |t| ==> (t + b)[i] == t[i];
  }

  /** A text that only the bytes behind make hexadecimal stops before its first hexadecimal digit. */
  lemma {:induction false} HexBehind(t: Text, b: Text)
    requires t != "" && IsHex(t + b) && !IsHex(t)
    ensures HexEnd(t + b) > |t| && Stuck(t[DecimalEnd(t)..])
  {
    var u, s := t + b, Sign(t);
    assert Sign(u) == s;
    assert forall i :: 0 <= i < |t| ==> u[i] == t[i];
    assert |t| <= s + 2 || (|t| == s + 3 && t[s + 2] == '.');
    if |t| > s + 1 {
      assert RunEnd(t, s) == s + 1;
      assert DecimalEnd(t) == s + 1;
      assert t[s + 1..][0] == t[s + 1];
    }
  }

  /** Bytes behind the text leave the end of a number alone or carry it past the end of the text. */
  lemma {:induction false} StrtodConcat(t: Text, b: Text)
    requires t != ""
    ensures StrtodEnd(t + b) <= |t| ==> StrtodEnd(t) == StrtodEnd(t + b)
    ensures StrtodEnd(t + b) > |t| ==> Stuck(t[StrtodEnd(t)..])
  {
    if IsHex(t) {
      HexConcat(t, b);
    } else if IsHex(t + b) {
      HexBehind(t, b);
    } else {
      DecimalConcat(t, b);
    }
  }

  /** The check behind strtod refuses every hexadecimal number: it stops at the x. */
  lemma {:induction false} HexRefused(t: Text)
    requires IsHex(t)
    ensures Number(t) == Fail
  {
    var s, end := Sign(t), StrtodEnd(t);
    assert Digits(t, s, end) == s + 1;
    assert AfterPoint(t, s + 1, end) == s + 1;
    assert ExpGrammar(t, s + 1, end) == s + 1;
  }

  /** The grammar check looks at the number only. */
  lemma {:induction false} DigitsWithin(t: Text, b: Text, i: nat, end: nat)
    requires i <= end <= |t|
    ensures Digits(t + b, i, end) == Digits(t, i, end)
  {
    RunConcat(t, b, i);
  }

  lemma {:induction false} ExpWithin(t: Text, b: Text, j: nat, end: nat)
    requires j <= end <= |t|
    ensures ExpGrammar(t + b, j, end) == ExpGrammar(t, j, end)
  {
    if j < end {
      DigitsWithin(t, b, j + 1, end);
      if j + 1 < end { DigitsWithin(t, b, j + 2, end); }
    }
  }

  lemma {:induction false} GrammarWithin(t: Text, b: Text, end: nat)
    requires 0 < end <= |t|
    ensures GrammarEnd(t + b, end) == GrammarEnd(t, end)
  {
    var s := Sign(t);
    assert Sign(t + b) == s;
    DigitsWithin(t, b, s, end);
    var i := Digits(t, s, end);
    if i >= 0 { TailWithin(t, b, i, end); }
  }

  lemma {:induction false} TailWithin(t: Text, b: Text, i: nat, end: nat)
    requires i <= end <= |t|
    ensures TailGrammar(t + b, i, end) == TailGrammar(t, i, end)
  {
    PointWithin(t, b, i, end);
    var j := AfterPoint(t, i, end);
    if j >= 0 { ExpWithin(t, b, j, end); }
  }

  lemma {:induction false} PointWithin(t: Text, b: Text, i: nat, end: nat)
    requires i <= end <= |t|
    ensures AfterPoint(t + b, i, end) == AfterPoint(t, i, end)
  {
    if i < end { DigitsWithin(t, b, i + 1, end); }
  }

  /** With nothing to continue it, the number is read as if the text were all there is. */
  lemma {:induction false} NumberWithin(t: Text, b: Text)
    requires t != "" && StrtodEnd(t + b) <= |t|
    ensures StrtodEnd(t) == StrtodEnd(t + b)
    ensures StrtodEnd(t) > 0 ==> GrammarEnd(t + b, StrtodEnd(t)) == GrammarEnd(t, StrtodEnd(t))
  {
    StrtodConcat(t, b);
    if StrtodEnd(t) > 0 { GrammarWithin(t, b, StrtodEnd(t)); }
  }

  /** The length of the number at the front of t that passes the check, or 0. */
  function Accepted(t: Text): (n: nat)
    requires t != ""
    ensures n <= |t|
  {
    var end := StrtodEnd(t);
    if end > 0 && GrammarEnd(t, end) == end then end else 0
  }

  /** What the code finds when it looks at the text and the bytes behind it. */
  lemma {:induction false} NumberOutcome(u: Text, b: Text, n: nat, spec: Parsed<Json>)
    requires u != "" && (u[0] == '-' || Digit(u[0])) && n == Accepted(u + b) && spec == NumberIn(u, b)
    ensures spec == if 0 < n <= |u| then Ok(NumberValue(u[..n]), u[n..]) else Fail
  {
    var end := StrtodEnd(u + b);
    if end <= |u| {
      NumberWithin(u, b);
      assert end > 0 ==> Sign(u) <= end;
    }
  }

  lemma {:induction false} NumberStuck(t: Text, behind: Text)
    requires RunsOn(t, behind)
    ensures Number(t).Ok? ==> Stuck(Number(t).rest)
  {
    StrtodConcat(t, behind);
  }

  lemma {:induction false} ValueIsNumber(text: Text, t: Text, p: Parsed<Json>)
    requires t == SkipWs(text) && t != "" && (t[0] == '-' || Digit(t[0])) && p == ValueAt(text)
    ensures p == Number(t)
  {
    var c := t[0];
    assert c != 'n' && c != 't' && c != 'f' && c != '[' && c != '{' && c != '\"';
  }

  /** Inside an array or object, a number that runs on leads to a refusal with or without the bytes behind. */
  lemma {:induction false} RunsOnStuck(text: Text, behind: Text)
    requires RunsOn(SkipWs(text), behind)
    ensures ValueAt(text).Ok? ==> Stuck(ValueAt(text).rest)
  {
    NumberStuck(SkipWs(text), behind);
    ValueIsNumber(text, SkipWs(text), ValueAt(text));
  }

  lemma {:induction false} StuckRefused(rest: Text, close: char)
    requires Stuck(rest) && (close == ']' || close == '}')
    ensures Separator(rest, close) == Fail
  {
  }

  /** Bytes that continue no number, such as the terminator of a C string. */
  predicate Ends(behind: Text) {
    behind == "" || !(HexValue(behind[0]) >= 0 || behind[0] in {'.', '+', '-', 'x', 'X'})
  }

  /** A terminated text never runs on. */
  lemma {:induction false} TerminatedNeverRunsOn(text: Text, behind: Text)
    requires Ends(behind)
    ensures !RunsOn(text, behind)
  {
    if text != "" { EndsStrtod(text, behind); }
  }

  lemma {:induction false} EndsRun(t: Text, b: Text, i: nat)
    requires i <= |t| && Ends(b)
    ensures RunEnd(t + b, i) <= |t|
  {
    assert RunEnd(t + b, i) > |t| ==> (t + b)[|t|] == b[0] && Digit((t + b)[|t|]);
  }

  lemma {:induction false} EndsFrac(t: Text, b: Text, i: nat)
    requires i <= |t| && Ends(b)
    ensures FracEnd(t + b, i) <= |t|
  {
    if i < |t| { EndsRun(t, b, i + 1); }
  }

  lemma {:induction false} EndsDigits(t: Text, b: Text, f: nat)
    requires f < |t| && Ends(b)
    ensures DigitsEnd(t + b, f) <= |t|
  {
    assert ExpDigits(t + b, f) <= |t|;
    EndsRun(t, b, ExpDigits(t + b, f));
  }

  lemma {:induction false} EndsDecimal(t: Text, b: Text)
    requires t != "" && Ends(b)
    ensures DecimalEnd(t + b) <= |t|
  {
    var s := Sign(t);
    assert Sign(t + b) == s;
    EndsRun(t, b, s);
    var i := RunEnd(t + b, s);
    EndsFrac(t, b, i);
    EndsExp(t, b, FracEnd(t + b, i));
  }

  lemma {:induction false} EndsExp(t: Text, b: Text, f: nat)
    requires f <= |t| && Ends(b)
    ensures ExpEnd(t + b, f) <= |t|
  {
    if f < |t| { EndsDigits(t, b, f); }
  }

  lemma {:induction false} EndsHex(t: Text, b: Text)
    requires t != "" && Ends(b) && IsHex(t + b)
    ensures HexEnd(t + b) <= |t|
  {
    var u, s := t + b, Sign(t);
    assert Sign(u) == s;
    if |t| < |u| { assert u[|t|] == b[0]; }
  }

  lemma {:induction false} EndsStrtod(t: Text, b: Text)
    requires t != "" && Ends(b)
    ensures StrtodEnd(t + b) <= |t|
  {
    if IsHex(t + b) { EndsHex(t, b); } else { EndsDecimal(t, b); }
  }

  /** The first byte of "12" as a text of length 1: the number runs on into the second. */
  lemma {:induction false} OneOfTwelve(text: Text, behind: Text)
    requires text == "1" && behind == "2"
    ensures RunsOn(SkipWs(text), behind) && Document(text) == Ok(JInt(1), "")
  {
    var u := text + behind;
    assert u == "12" && !IsHex(u) && RunEnd(u, 0) == 2;
    OneDigitDocument(text, 1);
  }

  /** A document of one digit. */
  lemma {:induction false} OneDigitDocument(text: Text, n: nat)
    requires |text| == 1 && Digit(text[0]) && n == text[0] as int - '0' as int
    ensures SkipWs(text) == text && Document(text) == Ok(JInt(n), "")
  {
    assert !IsHex(text) && RunEnd(text, 0) == 1 && StrtodEnd(text) == 1;
    assert GrammarEnd(text, 1) == 1;
    assert text[..1] == text && text[1..] == "" && text[0..] == text && text[..0] == "";
    assert Value(text) == n;
    assert NumberValue(text) == JInt(n);
    assert Number(text) == Ok(JInt(n), "");
  }

  /** The digit 0 with "x1" behind it: strtod reads a hexadecimal number, and the document is refused. */
  lemma {:induction false} ZeroBeforeX(text: Text, behind: Text)
    requires text == "0" && behind == "x1"
    ensures RunsOn(SkipWs(text), behind) && Document(text) == Ok(JInt(0), "")
  {
    assert text + behind == "0x1" && IsHex(text + behind);
    OneDigitDocument(text, 0);
  }
}
