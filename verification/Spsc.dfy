/**
  * The lock-free ring: producer and consumer as two threads whose loads, byte copies and publishes
  * interleave arbitrarily over sequentially consistent memory, with 32-bit wrapping counters.
  */
module Spsc {
  import opened Bits
  import opened Sequences

  const WORD: nat := 0x1_0000_0000        // 2^32
  const MAX_CAPACITY: nat := 0x8000_0000  // 2^31

  newtype byte = x: int | 0 <= x < 256
  type Elem = seq<byte>

  function Inc32(x: nat): nat { (x + 1) % WORD }
  function Sub32(x: nat, y: nat): nat
    requires y <= WORD
  {
    (x + WORD - y) % WORD
  }

  // ---- Creation -----------------------------------------------------------------------------

  /** The capacity `create` settles on with `bits`-bit words (32 in the source), truncation included. */
  function CreatedCapacity(requested: nat, bits: nat): nat {
    var r := requested % Pow2(bits);
    var cap := RoundPow2(r, bits);
    if cap == 0 then r else cap
  }

  /** The ring gets a power-of-two capacity of at least the requested size exactly up to half the word range. */
  lemma {:induction false} CreatedCapacityUsableIff(requested: nat, bits: nat)
    requires requested >= 1 && bits >= 2
    ensures IsPow2(CreatedCapacity(requested, bits)) && CreatedCapacity(requested, bits) >= requested
            <==> requested <= Pow2(bits - 1)
    ensures requested <= Pow2(bits - 1) ==> CreatedCapacity(requested, bits) <= Pow2(bits - 1)
  {
    var word, half := Pow2(bits), Pow2(bits - 1);
    var r := requested % word;
    if 1 <= r <= half {
      RoundPow2IsPow2(r, bits);
      var k := RoundPow2Correct(r, bits);
      Pow2Mono(k, bits - 1);
    } else {
      RoundPow2Wraps(r, bits);
      if r > half { NoPow2Between(r, bits); }
    }
    if requested < word { DivModUnique(requested, word, 0, requested); }
  }

  /** One more than half the word range is kept as it is, and is no power of two. */
  lemma {:induction false} JustAboveHalf(bits: nat)
    requires bits >= 2
    ensures var r := Pow2(bits - 1) + 1; CreatedCapacity(r, bits) == r && !IsPow2(r)
  {
    var r := Pow2(bits - 1) + 1;
    Pow2Mono(1, bits - 1);
    DivModUnique(r, Pow2(bits), 0, r);
    RoundPow2Wraps(r, bits);
    NoPow2Between(r, bits);
  }

  /** A request for 2^31 + 1 elements makes a ring of 2^31 + 1 slots, which masking cannot index. */
  lemma {:induction false} UnusableRing(bits: nat)
    requires bits == 32
    ensures CreatedCapacity(0x8000_0001, bits) == 0x8000_0001 && !IsPow2(0x8000_0001)
  {
    Pow2Words();
    JustAboveHalf(bits);
  }

  lemma {:induction false} NoPow2Between(r: nat, bits: nat)
    requires bits >= 1 && Pow2(bits - 1) < r < Pow2(bits)
    ensures !IsPow2(r)
  {
    forall k: nat ensures r != Pow2(k) {
      if k <= bits - 1 { Pow2Mono(k, bits - 1); } else { Pow2Mono(bits, k); }
    }
  }

  // ---- The two threads ----------------------------------------------------------------------

  datatype Producer =
    | PIdle
    | PHead(elem: Elem, head: nat)              // loaded head
    | PTail(elem: Elem, head: nat, tail: nat)   // loaded tail, about to compare
    | PCopy(elem: Elem, head: nat, k: nat)      // k bytes copied into the slot

  datatype Consumer =
    | CIdle
    | CHead(head: nat)                          // loaded head
    | CTail(head: nat, tail: nat)               // loaded tail, about to compare
    | CCopy(tail: nat, out: Elem)               // |out| bytes copied from the slot

  /**
    * Shared memory, the two threads, and history: what was published and consumed, how much the other side had
    * done when each thread loaded the other's counter, and how many calls answered OK.
    */
  datatype State = State(
    elemSize: nat, buffer: seq<Elem>, head: nat, tail: nat,
    producer: Producer, consumer: Consumer,
    pushed: seq<Elem>, popped: seq<Elem>, seenPopped: nat, seenPushed: nat, okPushes: nat, okPops: nat)

  /** `counter & mask` */
  function Slot(s: State, counter: nat): (r: nat)
    requires |s.buffer| >= 1
    ensures r < |s.buffer|
  {
    BitAnd(counter, |s.buffer| - 1)
  }

  /** One atomic step of the producer; `elem` is what it pushes when it starts a new call. */
  function ProducerStep(s: State, elem: Elem): State
    requires Typed(s)
  {
    match s.producer
    case PIdle => s.(producer := PHead(elem, s.head))
    case PHead(e, h) => s.(producer := PTail(e, h, s.tail), seenPopped := |s.popped|)
    case PTail(e, h, t) =>
      if Sub32(h, t) >= |s.buffer| then s.(producer := PIdle) else s.(producer := PCopy(e, h, 0))
    case PCopy(e, h, k) =>
      if k < s.elemSize then
        s.(buffer := s.buffer[Slot(s, h) := s.buffer[Slot(s, h)][k := e[k]]], producer := PCopy(e, h, k + 1))
      else
        s.(head := Inc32(h), producer := PIdle, pushed := s.pushed + [e])
  }

  function ConsumerStep(s: State): State
    requires Typed(s)
  {
    match s.consumer
    case CIdle => s.(consumer := CHead(s.head), seenPushed := |s.pushed|)
    case CHead(h) => s.(consumer := CTail(h, s.tail))
    case CTail(h, t) => if h == t then s.(consumer := CIdle) else s.(consumer := CCopy(t, []))
    case CCopy(t, out) =>
      if |out| < s.elemSize then
        s.(consumer := CCopy(t, out + [s.buffer[Slot(s, t)][|out|]]))
      else
        s.(tail := Inc32(t), consumer := CIdle, popped := s.popped + [out])
  }

  /** Array bounds and element sizes: what makes every access of a step defined. */
  predicate Typed(s: State) {
    && |s.buffer| >= 1 && s.elemSize >= 1
    && (forall i :: 0 <= i < |s.buffer| ==> |s.buffer[i]| == s.elemSize)
    && s.head < WORD && s.tail < WORD
    && (s.producer.PTail? ==> s.producer.tail < WORD)
    && (!s.producer.PIdle? ==> |s.producer.elem| == s.elemSize)
    && (s.producer.PCopy? ==> s.producer.k <= s.elemSize)
    && (s.consumer.CCopy? ==> |s.consumer.out| <= s.elemSize)
  }

  datatype Action = Produce(elem: Elem) | Consume

  /** A call that got past its test answers OK when it returns. */
  function Step(s: State, a: Action): State
    requires Typed(s)
  {
    match a
    case Produce(e) =>
      var t := ProducerStep(s, e);
      t.(okPushes := s.okPushes + if s.producer.PCopy? && t.producer.PIdle? then 1 else 0)
    case Consume =>
      var t := ConsumerStep(s);
      t.(okPops := s.okPops + if s.consumer.CCopy? && t.consumer.CIdle? then 1 else 0)
  }

  predicate Initial(s: State) {
    && Typed(s) && IsPow2(|s.buffer|) && |s.buffer| <= MAX_CAPACITY
    && s.head == 0 && s.tail == 0 && s.producer == PIdle && s.consumer == CIdle
    && s.pushed == [] && s.popped == [] && s.okPushes == 0 && s.okPops == 0
  }

  // ---- The invariant ------------------------------------------------------------------------

  ghost predicate Ring(s: State) {
    && Typed(s) && IsPow2(|s.buffer|) && |s.buffer| <= MAX_CAPACITY
    && s.head == |s.pushed| % WORD && s.tail == |s.popped| % WORD
    && |s.popped| <= |s.pushed| <= |s.popped| + |s.buffer|
    && (forall i :: 0 <= i < |s.pushed| ==> |s.pushed[i]| == s.elemSize)
    && s.popped <= s.pushed
    && (forall i :: |s.popped| <= i < |s.pushed| ==> s.buffer[Slot(s, i)] == s.pushed[i])
  }

  /** The producer's head is current; its view of the consumer may be stale but only pessimistic. */
  ghost predicate ProducerOk(s: State)
    requires Typed(s)
  {
    var n := |s.pushed|;
    match s.producer
    case PIdle => true
    case PHead(_, h) => h == s.head
    case PTail(_, h, t) =>
      h == s.head && s.seenPopped <= |s.popped| && n <= s.seenPopped + |s.buffer| && t == s.seenPopped % WORD
    case PCopy(e, h, k) =>
      h == s.head && n < |s.popped| + |s.buffer| && s.buffer[Slot(s, n)][..k] == e[..k]
  }

  ghost predicate ConsumerOk(s: State)
    requires Typed(s)
  {
    var n := |s.popped|;
    match s.consumer
    case CIdle => true
    case CHead(h) => n <= s.seenPushed <= |s.pushed| && h == s.seenPushed % WORD
    case CTail(h, t) => n <= s.seenPushed <= |s.pushed| && h == s.seenPushed % WORD && t == s.tail
    case CCopy(t, out) => t == s.tail && n < |s.pushed| && out <= s.pushed[n]
  }

  ghost predicate Inv(s: State) {
    Ring(s) && ProducerOk(s) && ConsumerOk(s)
  }

  /** Every push that answered OK published one element, every pop that did took one, and no others. */
  predicate Answered(s: State) { s.okPushes == |s.pushed| && s.okPops == |s.popped| }

  // ---- Counter arithmetic -------------------------------------------------------------------

  /** Low bits survive reduction modulo a larger power of two. */
  lemma {:induction false} LowBits(x: nat, k: nat, w: nat)
    requires k <= w
    ensures (x % Pow2(w)) % Pow2(k) == x % Pow2(k)
    decreases k
  {
    if k > 0 {
      LowBits(x / 2, k - 1, w - 1);
      ModHalf(x, Pow2(w - 1));
      var y := x % Pow2(w);
      assert y / 2 == (x / 2) % Pow2(w - 1) && y % 2 == x % 2;
      ModHalf(y, Pow2(k - 1));
      ModHalf(x, Pow2(k - 1));
    }
  }

  /** The wrapped counter masks to the slot of the unwrapped count. */
  lemma {:induction false} SlotOfCount(s: State, n: nat)
    requires |s.buffer| >= 1 && IsPow2(|s.buffer|) && |s.buffer| <= MAX_CAPACITY
    ensures Slot(s, n % WORD) == Slot(s, n)
  {
    var cap := |s.buffer|;
    var k: nat :| k <= cap && cap == Pow2(k);
    Pow2Words();
    if k > 32 { Pow2Mono(32, k); }
    AndMask(n % WORD, k);
    AndMask(n, k);
    LowBits(n, k, 32);
  }

  lemma {:induction false} SlotsDiffer(s: State, a: nat, b: nat)
    requires IsPow2(|s.buffer|) && |s.buffer| >= 1 && a < b < a + |s.buffer|
    ensures Slot(s, a) != Slot(s, b)
  {
    var cap := |s.buffer|;
    var k: nat :| k <= cap && cap == Pow2(k);
    AndMask(a, k);
    AndMask(b, k);
    ResiduesDiffer(a, b, cap);
  }

  lemma {:induction false} ResiduesDiffer(a: nat, b: nat, cap: nat)
    requires a < b < a + cap
    ensures a % cap != b % cap
  {
    var q, r := a / cap, a % cap;
    if r + (b - a) < cap {
      DivModUnique(b, cap, q, r + (b - a));
    } else {
      assert b == cap * (q + 1) + (r + (b - a) - cap) by { assert cap * (q + 1) == cap * q + cap; }
      DivModUnique(b, cap, q + 1, r + (b - a) - cap);
    }
  }

  lemma IncWraps(n: nat)
    ensures Inc32(n % WORD) == (n + 1) % WORD
  {
  }

  /** 32-bit subtraction recovers a difference of counts below 2^32. */
  lemma SubWraps(a: nat, b: nat)
    requires b <= a < b + WORD
    ensures Sub32(a % WORD, b % WORD) == a - b
  {
  }

  // ---- Every step keeps the invariant -------------------------------------------------------

  /** Writing the slot of the next element leaves the elements in flight alone. */
  lemma {:induction false} InFlightKept(s: State, slot: Elem)
    requires Ring(s) && |s.pushed| < |s.popped| + |s.buffer|
    ensures var s' := s.(buffer := s.buffer[Slot(s, |s.pushed|) := slot]);
            forall i :: |s.popped| <= i < |s.pushed| ==> s'.buffer[Slot(s', i)] == s.pushed[i]
  {
    var n := |s.pushed|;
    forall i | |s.popped| <= i < n ensures Slot(s, i) != Slot(s, n) { SlotsDiffer(s, i, n); }
  }

  lemma {:induction false} CopyByteInv(s: State)
    requires Inv(s) && s.producer.PCopy? && s.producer.k < s.elemSize
    ensures Inv(ProducerStep(s, []))
  {
    var PCopy(e, h, k) := s.producer;
    var n := |s.pushed|;
    SlotOfCount(s, n);
    var slot := s.buffer[Slot(s, n)];
    InFlightKept(s, slot[k := e[k]]);
    assert e[..k + 1] == e[..k] + [e[k]];
    assert slot[k := e[k]][..k + 1] == slot[..k] + [e[k]];
  }

  lemma {:induction false} PublishInv(s: State)
    requires Inv(s) && s.producer.PCopy? && s.producer.k == s.elemSize
    ensures Inv(ProducerStep(s, []))
  {
    var e := s.producer.elem;
    var slot := s.buffer[Slot(s, |s.pushed|)];
    assert slot[..s.elemSize] == slot && e[..s.elemSize] == e;
    IncWraps(|s.pushed|);
    if s.consumer.CCopy? { assert (s.pushed + [e])[|s.popped|] == s.pushed[|s.popped|]; }
  }

  lemma {:induction false} ProducerKeepsInv(s: State, elem: Elem)
    requires Inv(s) && |elem| == s.elemSize
    ensures Inv(ProducerStep(s, elem))
  {
    match s.producer
    case PTail(e, h, t) => SubWraps(|s.pushed|, s.seenPopped);
    case PCopy(e, h, k) => if k < s.elemSize { CopyByteInv(s); } else { PublishInv(s); }
    case _ =>
  }

  lemma {:induction false} ReadByteInv(s: State)
    requires Inv(s) && s.consumer.CCopy? && |s.consumer.out| < s.elemSize
    ensures Inv(ConsumerStep(s))
  {
    SlotOfCount(s, |s.popped|);
    assert s.buffer[Slot(s, |s.popped|)] == s.pushed[|s.popped|];
  }

  lemma {:induction false} ReleaseInv(s: State)
    requires Inv(s) && s.consumer.CCopy? && |s.consumer.out| == s.elemSize
    ensures Inv(ConsumerStep(s))
  {
    assert s.consumer.out == s.pushed[|s.popped|];
    IncWraps(|s.popped|);
  }

  lemma {:induction false} TestEmptyInv(s: State)
    requires Inv(s) && s.consumer.CTail?
    ensures Inv(ConsumerStep(s))
  {
    SubWraps(s.seenPushed, |s.popped|);
  }

  lemma {:induction false} ConsumerKeepsInv(s: State)
    requires Inv(s)
    ensures Inv(ConsumerStep(s))
  {
    match s.consumer
    case CTail(h, t) => TestEmptyInv(s);
    case CCopy(t, out) => if |out| < s.elemSize { ReadByteInv(s); } else { ReleaseInv(s); }
    case _ =>
  }

  // ---- Every run ----------------------------------------------------------------------------

  predicate WellSized(s: State, actions: seq<Action>) {
    forall i :: 0 <= i < |actions| && actions[i].Produce? ==> |actions[i].elem| == s.elemSize
  }

  /** The state after a schedule: any interleaving of the two threads is such a sequence. */
  function Run(s: State, actions: seq<Action>): (r: State)
    requires Inv(s) && WellSized(s, actions)
    ensures Inv(r) && r.elemSize == s.elemSize && |r.buffer| == |s.buffer|
    ensures Answered(s) ==> Answered(r)
  {
    if actions == [] then s
    else
      var t := Run(s, actions[..|actions| - 1]);
      var a := actions[|actions| - 1];
      StepKeepsInv(t, a);
      Step(t, a)
  }

  lemma {:induction false} StepKeepsInv(s: State, a: Action)
    requires Inv(s) && (a.Produce? ==> |a.elem| == s.elemSize)
    ensures Inv(Step(s, a)) && Step(s, a).elemSize == s.elemSize && |Step(s, a).buffer| == |s.buffer|
    ensures Answered(s) ==> Answered(Step(s, a))
  {
    match a
    case Produce(e) => ProduceKeepsInv(s, e);
    case Consume => ConsumeKeepsInv(s);
  }

  lemma {:induction false} ProduceKeepsInv(s: State, e: Elem)
    requires Inv(s) && |e| == s.elemSize
    ensures var t := Step(s, Produce(e));
            Inv(t) && t.elemSize == s.elemSize && |t.buffer| == |s.buffer| && (Answered(s) ==> Answered(t))
  {
    ProducerKeepsInv(s, e);
    OnlyAnswers(ProducerStep(s, e), Step(s, Produce(e)));
  }

  lemma {:induction false} ConsumeKeepsInv(s: State)
    requires Inv(s)
    ensures var t := Step(s, Consume);
            Inv(t) && t.elemSize == s.elemSize && |t.buffer| == |s.buffer| && (Answered(s) ==> Answered(t))
  {
    ConsumerKeepsInv(s);
    OnlyAnswers(ConsumerStep(s), Step(s, Consume));
  }

  /** The invariant does not look at the answers. */
  lemma {:induction false} OnlyAnswers(s: State, t: State)
    requires Inv(s) && t == s.(okPushes := t.okPushes, okPops := t.okPops)
    ensures Inv(t)
  {
    assert forall i :: Slot(t, i) == Slot(s, i);
  }

  /** The two slots in use at a state, when both threads are copying. */
  predicate Clash(s: State)
    requires Typed(s)
  {
    s.producer.PCopy? && s.consumer.CCopy? && Slot(s, s.producer.head) == Slot(s, s.consumer.tail)
  }

  /**
    * For every schedule from creation: what was popped is a prefix of what was pushed, at most
    * `capacity` elements are in flight, the wrapped counters tell their exact number, the slot being
    * written is never the slot being read, and the calls that answered OK are as many as the elements that went
    * in and came out.
    */
  lemma {:induction false} EveryRunIsFifo(s0: State, actions: seq<Action>)
    requires Initial(s0) && WellSized(s0, actions)
    ensures var s := Run(s0, actions);
            && s.popped <= s.pushed
            && |s.pushed| - |s.popped| <= |s0.buffer|
            && Sub32(s.head, s.tail) == |s.pushed| - |s.popped|
            && !Clash(s)
            && s.okPushes == |s.pushed| && s.okPops == |s.popped|
  {
    var s := Run(s0, actions);
    SubWraps(|s.pushed|, |s.popped|);
    if s.producer.PCopy? && s.consumer.CCopy? {
      SlotOfCount(s, |s.pushed|);
      SlotOfCount(s, |s.popped|);
      SlotsDiffer(s, |s.popped|, |s.pushed|);
    }
  }

  /**
    * A push answers FULL exactly when the ring held `capacity` elements as the producer loaded tail,
    * and a pop answers EMPTY exactly when nothing was unread as the consumer loaded head.
    */
  lemma {:induction false} RefusalsAreExact(s: State)
    requires Inv(s)
    ensures s.producer.PTail? ==> (ProducerStep(s, []).producer == PIdle <==> |s.pushed| - s.seenPopped == |s.buffer|)
    ensures s.consumer.CTail? ==> (ConsumerStep(s).consumer == CIdle <==> s.seenPushed == |s.popped|)
  {
    if s.producer.PTail? { SubWraps(|s.pushed|, s.seenPopped); }
    if s.consumer.CTail? { SubWraps(s.seenPushed, |s.popped|); }
  }

  // ---- Whole calls --------------------------------------------------------------------------

  ghost predicate Fits(s: State, a: Action) { Inv(s) && (a.Produce? ==> |a.elem| == s.elemSize) }

  /** n steps of one thread while the other stands still. */
  ghost function Alone(s: State, a: Action, n: nat): State
    requires Fits(s, a)
    decreases n
  {
    if n == 0 then s
    else
      StepKeepsInv(s, a);
      Alone(Step(s, a), a, n - 1)
  }

  lemma {:induction false} AloneKeepsInv(s: State, a: Action, n: nat)
    requires Fits(s, a)
    ensures Fits(Alone(s, a, n), a) && Alone(s, a, n).elemSize == s.elemSize
    decreases n
  {
    if n > 0 {
      StepKeepsInv(s, a);
      AloneKeepsInv(Step(s, a), a, n - 1);
    }
  }

  lemma {:induction false} AloneAgain(s: State, a: Action, m: nat, n: nat)
    requires Fits(s, a)
    ensures Fits(Alone(s, a, m), a) && Alone(Alone(s, a, m), a, n) == Alone(s, a, m + n)
    decreases m
  {
    if m > 0 {
      StepKeepsInv(s, a);
      AloneAgain(Step(s, a), a, m - 1, n);
    }
  }

  /** What the producer alone leaves as it was. */
  predicate ConsumerSideKept(s: State, t: State) {
    t.consumer == s.consumer && t.popped == s.popped && t.tail == s.tail && t.seenPushed == s.seenPushed && t.okPops == s.okPops
  }

  predicate ProducerSideKept(s: State, t: State) {
    && t.producer == s.producer && t.pushed == s.pushed && t.head == s.head && t.seenPopped == s.seenPopped
    && t.okPushes == s.okPushes && t.buffer == s.buffer
  }

  lemma {:induction false} ThreeSteps(s: State, a: Action, s1: State, s2: State, s3: State)
    requires Fits(s, a) && s1 == Step(s, a) && Typed(s1) && s2 == Step(s1, a) && Typed(s2) && s3 == Step(s2, a)
    ensures Alone(s, a, 3) == s3
  {
    StepKeepsInv(s, a);
    StepKeepsInv(s1, a);
    StepKeepsInv(s2, a);
    assert Alone(s3, a, 0) == s3;
    assert Alone(s2, a, 1) == s3;
    assert Alone(s1, a, 2) == s3;
  }

  /** Three steps bring a push to its verdict. */
  lemma {:induction false} PushTests(s: State, elem: Elem)
    requires Inv(s) && s.producer.PIdle? && |elem| == s.elemSize
    ensures Alone(s, Produce(elem), 3) == s.(
              seenPopped := |s.popped|,
              producer := if |s.pushed| - |s.popped| < |s.buffer| then PCopy(elem, s.head, 0) else PIdle)
  {
    SubWraps(|s.pushed|, |s.popped|);
    var s1 := s.(producer := PHead(elem, s.head));
    var s2 := s.(producer := PTail(elem, s.head, s.tail), seenPopped := |s.popped|);
    var s3 := s.(seenPopped := |s.popped|,
                 producer := if |s.pushed| - |s.popped| < |s.buffer| then PCopy(elem, s.head, 0) else PIdle);
    ThreeSteps(s, Produce(elem), s1, s2, s3);
  }

  /** A step in the middle of a copy writes one byte and nothing else. */
  lemma {:induction false} CopyStep(s: State, elem: Elem)
    requires Typed(s) && s.producer.PCopy? && s.producer.k < s.elemSize
    ensures var t := Step(s, Produce(elem));
            && t == s.(buffer := t.buffer, producer := s.producer.(k := s.producer.k + 1))
  {
  }

  lemma {:induction false} CopyAlone(s: State, elem: Elem, n: nat)
    requires Inv(s) && s.producer.PCopy? && s.producer.k + n <= s.elemSize && |elem| == s.elemSize
    ensures var t := Alone(s, Produce(elem), n);
            && t == s.(buffer := t.buffer, producer := s.producer.(k := s.producer.k + n))
    decreases n
  {
    if n > 0 {
      CopyStep(s, elem);
      StepKeepsInv(s, Produce(elem));
      CopyAlone(Step(s, Produce(elem)), elem, n - 1);
    }
  }

  /** The step after the last byte publishes the element. */
  lemma {:induction false} PublishAlone(s: State, elem: Elem)
    requires Inv(s) && s.producer.PCopy? && s.producer.k == s.elemSize && |elem| == s.elemSize
    ensures Alone(s, Produce(elem), 1) == s.(
              head := Inc32(s.producer.head), producer := PIdle, pushed := s.pushed + [s.producer.elem], okPushes := s.okPushes + 1)
  {
    StepKeepsInv(s, Produce(elem));
    assert Alone(Step(s, Produce(elem)), Produce(elem), 0) == Step(s, Produce(elem));
  }

  lemma {:induction false} PushState(s: State, elem: Elem)
    requires Inv(s) && s.producer.PIdle? && |elem| == s.elemSize && |s.pushed| - |s.popped| < |s.buffer|
    ensures var t := Alone(s, Produce(elem), s.elemSize + 4);
            t == s.(buffer := t.buffer, seenPopped := |s.popped|, head := Inc32(s.head), pushed := s.pushed + [elem],
                    okPushes := s.okPushes + 1)
  {
    var a, n := Produce(elem), s.elemSize;
    PushTests(s, elem);
    AloneAgain(s, a, 3, n + 1);
    CopyAndPublish(Alone(s, a, 3), elem);
  }

  lemma {:induction false} CopyAndPublish(s: State, elem: Elem)
    requires Inv(s) && s.producer == PCopy(elem, s.head, 0) && |elem| == s.elemSize
    ensures var t := Alone(s, Produce(elem), s.elemSize + 1);
            t == s.(buffer := t.buffer, head := Inc32(s.head), producer := PIdle, pushed := s.pushed + [elem],
                    okPushes := s.okPushes + 1)
  {
    var a, n := Produce(elem), s.elemSize;
    CopyAlone(s, elem, n);
    AloneAgain(s, a, n, 1);
    PublishAlone(Alone(s, a, n), elem);
  }

  /**
    * A whole push with room in the ring: elemSize + 4 steps of the producer alone publish exactly the element, at the
    * end, and answer OK.
    */
  lemma {:induction false} PushAlone(s: State, elem: Elem)
    requires Inv(s) && s.producer.PIdle? && |elem| == s.elemSize && |s.pushed| - |s.popped| < |s.buffer|
    ensures var t := Alone(s, Produce(elem), s.elemSize + 4);
            && t.producer.PIdle? && t.pushed == s.pushed + [elem] && t.okPushes == s.okPushes + 1 && ConsumerSideKept(s, t)
            && t.tail < WORD && Sub32(t.head, t.tail) == Sub32(s.head, s.tail) + 1
  {
    PushState(s, elem);
    CountGrows(s, |s.pushed| + 1, |s.popped|);
    IncWraps(|s.pushed|);
  }

  /** Both counters stand for the counts they are the residues of. */
  lemma {:induction false} CountGrows(s: State, pushed: nat, popped: nat)
    requires Inv(s) && popped <= pushed <= popped + |s.buffer|
    ensures Sub32(pushed % WORD, popped % WORD) == pushed - popped
    ensures Sub32(s.head, s.tail) == |s.pushed| - |s.popped|
  {
    SubWraps(pushed, popped);
    SubWraps(|s.pushed|, |s.popped|);
  }

  /** A whole push into a full ring: three steps, and nothing changes. */
  lemma {:induction false} PushRefused(s: State, elem: Elem)
    requires Inv(s) && s.producer.PIdle? && |elem| == s.elemSize && |s.pushed| - |s.popped| == |s.buffer|
    ensures Alone(s, Produce(elem), 3) == s.(seenPopped := |s.popped|)
  {
    PushTests(s, elem);
  }

  lemma {:induction false} PopTests(s: State)
    requires Inv(s) && s.consumer.CIdle?
    ensures Alone(s, Consume, 3) == s.(
              seenPushed := |s.pushed|,
              consumer := if |s.popped| < |s.pushed| then CCopy(s.tail, []) else CIdle)
  {
    SubWraps(|s.pushed|, |s.popped|);
    var s1 := s.(consumer := CHead(s.head), seenPushed := |s.pushed|);
    var s2 := s.(consumer := CTail(s.head, s.tail), seenPushed := |s.pushed|);
    var s3 := s.(seenPushed := |s.pushed|, consumer := if |s.popped| < |s.pushed| then CCopy(s.tail, []) else CIdle);
    ThreeSteps(s, Consume, s1, s2, s3);
  }

  /** A step in the middle of a copy reads one byte and changes nothing shared. */
  lemma {:induction false} ReadStep(s: State)
    requires Typed(s) && s.consumer.CCopy? && |s.consumer.out| < s.elemSize
    ensures var t := Step(s, Consume);
            && t.consumer.CCopy? && |t.consumer.out| == |s.consumer.out| + 1 && t.consumer.tail == s.consumer.tail
            && t == s.(consumer := t.consumer)
  {
  }

  lemma {:induction false} ReadAlone(s: State, n: nat)
    requires Inv(s) && s.consumer.CCopy? && |s.consumer.out| + n <= s.elemSize
    ensures var t := Alone(s, Consume, n);
            && t.consumer.CCopy? && t.consumer.tail == s.consumer.tail && |t.consumer.out| == |s.consumer.out| + n
            && t == s.(consumer := t.consumer)
    decreases n
  {
    if n > 0 {
      ReadStep(s);
      StepKeepsInv(s, Consume);
      ReadAlone(Step(s, Consume), n - 1);
    }
  }

  /** The step after the last byte releases the slot; what was read is the oldest element. */
  lemma {:induction false} ReleaseAlone(s: State)
    requires Inv(s) && s.consumer.CCopy? && |s.consumer.out| == s.elemSize
    ensures |s.popped| < |s.pushed|
    ensures Alone(s, Consume, 1) == s.(
              tail := Inc32(s.consumer.tail), consumer := CIdle, popped := s.popped + [s.pushed[|s.popped|]], okPops := s.okPops + 1)
  {
    assert s.consumer.out == s.pushed[|s.popped|];
    StepKeepsInv(s, Consume);
    assert Alone(Step(s, Consume), Consume, 0) == Step(s, Consume);
  }

  lemma {:induction false} PopState(s: State)
    requires Inv(s) && s.consumer.CIdle? && |s.popped| < |s.pushed|
    ensures Alone(s, Consume, s.elemSize + 4)
         == s.(seenPushed := |s.pushed|, tail := Inc32(s.tail), popped := s.popped + [s.pushed[|s.popped|]], okPops := s.okPops + 1)
  {
    var n := s.elemSize;
    PopTests(s);
    AloneAgain(s, Consume, 3, n + 1);
    var tested := Alone(s, Consume, 3);
    ReadAlone(tested, n);
    AloneAgain(tested, Consume, n, 1);
    ReleaseAlone(Alone(tested, Consume, n));
  }

  /** A whole pop with an element waiting: elemSize + 4 steps of the consumer alone take out the oldest one. */
  lemma {:induction false} PopAlone(s: State)
    requires Inv(s) && s.consumer.CIdle? && |s.popped| < |s.pushed|
    ensures var t := Alone(s, Consume, s.elemSize + 4);
            && t.consumer.CIdle? && t.popped == s.popped + [s.pushed[|s.popped|]] && t.okPops == s.okPops + 1
            && ProducerSideKept(s, t) && t.tail < WORD && Sub32(t.head, t.tail) == Sub32(s.head, s.tail) - 1
  {
    PopState(s);
    CountGrows(s, |s.pushed|, |s.popped| + 1);
    IncWraps(|s.popped|);
  }

  /** A whole pop from an empty ring: three steps, and nothing changes. */
  lemma {:induction false} PopRefused(s: State)
    requires Inv(s) && s.consumer.CIdle? && |s.popped| == |s.pushed|
    ensures Alone(s, Consume, 3) == s.(seenPushed := |s.pushed|)
  {
    PopTests(s);
  }
}
