/**
 Whole runs of one sender and one receiver over a network that may drop, reorder, replay and invent messages.

 Only the two endpoints are state: the network is the choice of the argument of every `Deliver`.
 */
module Channel {
  import opened ByteStrings
  import opened Results
  import opened Primitives
  import opened MessageContext

  datatype Sent = Sent(aad: Bytes, pt: Bytes, ct: Bytes)

  /** `sentBefore` counts the ciphertexts the sender had produced when this message was accepted. */
  datatype Accepted = Accepted(aad: Bytes, pt: Bytes, ct: Bytes, sentBefore: nat)

  datatype Message = Message(aad: Bytes, pt: Bytes)

  datatype Action =
    | Send(aad: Bytes, pt: Bytes)
    | Deliver(aad: Bytes, ct: Bytes)
    | ExportBoth(context: Bytes, length: nat)

  datatype Session = Session(sender: CtxState, receiver: CtxState, sent: seq<Sent>, accepted: seq<Accepted>)

  function SendStep(x: Session, aad: Bytes, pt: Bytes): Session {
    var (c, r) := SealStep(x.sender, aad, pt);
    x.(sender := c, sent := if r.Ok? then x.sent + [Sent(aad, pt, r.value)] else x.sent)
  }

  function DeliverStep(x: Session, aad: Bytes, ct: Bytes): Session {
    var (c, r) := OpenStep(x.receiver, aad, ct);
    x.(receiver := c,
       accepted := if r.Ok? then x.accepted + [Accepted(aad, r.value, ct, |x.sent|)] else x.accepted)
  }

  function Step(x: Session, a: Action): Session {
    match a
    case Send(aad, pt) => SendStep(x, aad, pt)
    case Deliver(aad, ct) => DeliverStep(x, aad, ct)
    case ExportBoth(_, _) => x
  }

  function Run(x: Session, actions: seq<Action>): Session {
    if actions == [] then x else Step(Run(x, actions[..|actions| - 1]), actions[|actions| - 1])
  }

  /** A session between the two ends of one setup: the same context value, nothing sent yet. */
  function Fresh(c: CtxState): Session {
    Session(c, c, [], [])
  }

  // ---- What every reachable session satisfies ----

  ghost predicate Inv(c: CtxState, x: Session) {
    && x.sender == c.(counter := |x.sent|)
    && x.receiver == c.(counter := |x.accepted|)
    && |x.sent| <= U64_MAX && |x.accepted| <= U64_MAX
    && (forall i :: 0 <= i < |x.sent| ==>
          c.suite.aead.encrypt(c.key, c.Nonce(i), x.sent[i].aad, x.sent[i].pt) == Some(x.sent[i].ct))
    && (forall i :: 0 <= i < |x.accepted| ==>
          && c.suite.aead.decrypt(c.key, c.Nonce(i), x.accepted[i].aad, x.accepted[i].ct) == Some(x.accepted[i].pt)
          && x.accepted[i].sentBefore <= |x.sent|)
  }

  lemma SameNonces(c: CtxState, d: CtxState)
    requires d == c.(counter := d.counter)
    ensures d.suite == c.suite && d.key == c.key && forall i: nat :: d.Nonce(i) == c.Nonce(i)
  {
  }

  lemma SendKeepsInv(c: CtxState, x: Session, aad: Bytes, pt: Bytes)
    requires c.CanSeal() && Inv(c, x)
    ensures Inv(c, SendStep(x, aad, pt))
    ensures x.sent <= SendStep(x, aad, pt).sent && x.accepted == SendStep(x, aad, pt).accepted
  {
    SameNonces(c, x.sender);
    var y := SendStep(x, aad, pt);
    assert forall i :: 0 <= i < |x.sent| ==> y.sent[i] == x.sent[i];
  }

  lemma DeliverKeepsInv(c: CtxState, x: Session, aad: Bytes, ct: Bytes)
    requires c.CanSeal() && Inv(c, x)
    ensures Inv(c, DeliverStep(x, aad, ct))
    ensures x.accepted <= DeliverStep(x, aad, ct).accepted && x.sent == DeliverStep(x, aad, ct).sent
  {
    SameNonces(c, x.receiver);
    var y := DeliverStep(x, aad, ct);
    assert forall i :: 0 <= i < |x.accepted| ==> y.accepted[i] == x.accepted[i];
  }

  lemma StepKeepsInv(c: CtxState, x: Session, a: Action)
    requires c.CanSeal() && Inv(c, x)
    ensures Inv(c, Step(x, a))
    ensures x.sent <= Step(x, a).sent && x.accepted <= Step(x, a).accepted
  {
    match a
    case Send(aad, pt) => SendKeepsInv(c, x, aad, pt);
    case Deliver(aad, ct) => DeliverKeepsInv(c, x, aad, ct);
    case ExportBoth(_, _) =>
  }

  /**
   The counters count successes and nothing else: after any run from a fresh session each equals the number of
   messages its side returned, never above 2^64 - 1, and every returned message is what the AEAD gives under the
   nonce of its own position.
   */
  lemma {:induction false} RunKeepsInv(c: CtxState, actions: seq<Action>)
    requires c.CanSeal() && c.counter == 0
    ensures Inv(c, Run(Fresh(c), actions))
  {
    if actions != [] {
      RunKeepsInv(c, actions[..|actions| - 1]);
      StepKeepsInv(c, Run(Fresh(c), actions[..|actions| - 1]), actions[|actions| - 1]);
    } else {
      assert c == c.(counter := 0);
    }
  }

  // ---- Nonce reuse ----

  /** All ciphertexts a sender ever returns were made under pairwise distinct nonces, failed seals included. */
  lemma NoNonceReuse(c: CtxState, actions: seq<Action>, i: nat, j: nat)
    requires c.CanSeal() && c.counter == 0
    requires i < j < |Run(Fresh(c), actions).sent|
    ensures var sent := Run(Fresh(c), actions).sent;
            && c.Nonce(i) != c.Nonce(j)
            && Some(sent[i].ct) == c.suite.aead.encrypt(c.key, c.Nonce(i), sent[i].aad, sent[i].pt)
            && Some(sent[j].ct) == c.suite.aead.encrypt(c.key, c.Nonce(j), sent[j].aad, sent[j].pt)
  {
    RunKeepsInv(c, actions);
    if c.Nonce(i) == c.Nonce(j) {
      NoncesDistinct(c, i, j);
    }
  }

  // ---- Safety ----

  /**
   The i-th accepted message is an AEAD forgery: it decrypts under its nonce, yet no ciphertext the sender had
   produced by then was made under that nonce with that associated data and is that ciphertext.
   */
  ghost predicate Forgery(c: CtxState, x: Session, i: nat)
    requires i < |x.accepted|
  {
    var e := x.accepted[i];
    && c.suite.aead.decrypt(c.key, c.Nonce(i), e.aad, e.ct) == Some(e.pt)
    && e.sentBefore <= |x.sent|
    && forall j | 0 <= j < e.sentBefore ::
         !(c.Nonce(j) == c.Nonce(i) && x.sent[j].aad == e.aad && x.sent[j].ct == e.ct)
  }

  function SentMessages(s: seq<Sent>): (m: seq<Message>)
    ensures |m| == |s| && forall i :: 0 <= i < |s| ==> m[i] == Message(s[i].aad, s[i].pt)
  {
    seq(|s|, i requires 0 <= i < |s| => Message(s[i].aad, s[i].pt))
  }

  function AcceptedMessages(s: seq<Accepted>): (m: seq<Message>)
    ensures |m| == |s| && forall i :: 0 <= i < |s| ==> m[i] == Message(s[i].aad, s[i].pt)
  {
    seq(|s|, i requires 0 <= i < |s| => Message(s[i].aad, s[i].pt))
  }

  /** The accepted messages are a prefix of the sent ones, or one of them is a forgery. */
  ghost predicate PrefixOrForgery(c: CtxState, x: Session) {
    || AcceptedMessages(x.accepted) <= SentMessages(x.sent)
    || exists i: nat | i < |x.accepted| :: Forgery(c, x, i)
  }

  /** A message that is accepted and not forged is the sender's message of the same position. */
  lemma AcceptedIsSentOrForged(c: CtxState, x: Session, i: nat)
    requires c.CanSeal() && c.suite.aead.Lawful() && Inv(c, x) && i < |x.accepted|
    requires !Forgery(c, x, i)
    ensures i < x.accepted[i].sentBefore <= |x.sent|
    ensures x.accepted[i].aad == x.sent[i].aad && x.accepted[i].pt == x.sent[i].pt && x.accepted[i].ct == x.sent[i].ct
  {
    var e := x.accepted[i];
    var j :| 0 <= j < e.sentBefore && c.Nonce(j) == c.Nonce(i) && x.sent[j].aad == e.aad && x.sent[j].ct == e.ct;
    NoncesDistinct(c, j, i);
    assert c.suite.aead.encrypt(c.key, c.Nonce(i), e.aad, x.sent[i].pt) == Some(e.ct);
  }

  /**
   Safety of every run, against every network: unless some accepted message is an explicit AEAD forgery, the
   receiver has accepted a prefix of what was sent, in order, each message at most once, and its counter is the
   length of that prefix.
   */
  lemma AcceptedIsPrefixOrForgery(c: CtxState, actions: seq<Action>)
    requires c.CanSeal() && c.counter == 0 && c.suite.aead.Lawful()
    ensures var x := Run(Fresh(c), actions);
            && x.receiver.counter == |x.accepted|
            && PrefixOrForgery(c, x)
  {
    RunKeepsInv(c, actions);
    var x := Run(Fresh(c), actions);
    if forall i: nat | i < |x.accepted| :: !Forgery(c, x, i) {
      var n := |x.accepted|;
      if n > 0 {
        AcceptedIsSentOrForged(c, x, n - 1);
      }
      forall i | 0 <= i < n ensures AcceptedMessages(x.accepted)[i] == SentMessages(x.sent)[i] {
        AcceptedIsSentOrForged(c, x, i);
      }
    }
  }

  // ---- Delivery ----

  function NextDelivery(s: seq<Sent>, i: nat): Action
    requires i < |s|
  {
    Deliver(s[i].aad, s[i].ct)
  }

  /** What the receiver records of the i-th message sent, if it accepts it as it was sent. */
  function Receipt(s: seq<Sent>, i: nat): Accepted
    requires i < |s|
  {
    Accepted(s[i].aad, s[i].pt, s[i].ct, |s|)
  }

  /** `x` after its receiver took in its next genuine message. */
  function TakeNext(x: Session): Session
    requires |x.accepted| < |x.sent|
  {
    x.(receiver := x.receiver.Advanced(), accepted := x.accepted + [Receipt(x.sent, |x.accepted|)])
  }

  lemma DeliverNext(c: CtxState, x: Session)
    requires c.CanSeal() && c.suite.aead.Lawful() && Inv(c, x) && |x.accepted| < |x.sent|
    ensures Step(x, NextDelivery(x.sent, |x.accepted|)) == TakeNext(x)
  {
    var m := x.sent[|x.accepted|];
    SameNonces(c, x.receiver);
    assert c.suite.aead.encrypt(c.key, c.Nonce(|x.accepted|), m.aad, m.pt) == Some(m.ct);
  }

  /**
   Whatever happened before, and however many failed opens came first, the genuine message whose position is the
   receiver's counter is accepted and decrypts to what was sent.
   */
  lemma GenuineMessageIsAccepted(c: CtxState, actions: seq<Action>)
    requires c.CanSeal() && c.counter == 0 && c.suite.aead.Lawful()
    requires var x := Run(Fresh(c), actions); x.receiver.counter < |x.sent|
    ensures var x := Run(Fresh(c), actions);
            var m := x.sent[x.receiver.counter];
            Step(x, Deliver(m.aad, m.ct)) ==
            x.(receiver := x.receiver.Advanced(), accepted := x.accepted + [Accepted(m.aad, m.pt, m.ct, |x.sent|)])
  {
    RunKeepsInv(c, actions);
    DeliverNext(c, Run(Fresh(c), actions));
  }

  /** Deliveries the receiver refuses change nothing at all. */
  lemma {:induction false} RefusedDeliveriesChangeNothing(x: Session, junk: seq<Action>)
    requires forall a | a in junk :: a.Deliver? && OpenStep(x.receiver, a.aad, a.ct).1.Err?
    ensures Run(x, junk) == x
  {
    if junk != [] {
      RefusedDeliveriesChangeNothing(x, junk[..|junk| - 1]);
      assert junk[|junk| - 1] in junk;
    }
  }

  /** The deliveries of `n` genuine messages from position `from` on, in order. */
  function Remaining(s: seq<Sent>, from: nat, n: nat): (r: seq<Action>)
    requires from + n <= |s|
    ensures |r| == n && forall k :: 0 <= k < n ==> r[k] == NextDelivery(s, from + k)
  {
    seq(n, k requires 0 <= k < n => NextDelivery(s, from + k))
  }

  /** What the receiver records on accepting the `n` messages from position `from` on. */
  function Receipts(s: seq<Sent>, from: nat, n: nat): (r: seq<Accepted>)
    requires from + n <= |s|
    ensures |r| == n && forall k :: 0 <= k < n ==> r[k] == Receipt(s, from + k)
  {
    seq(n, k requires 0 <= k < n => Receipt(s, from + k))
  }

  /** `x` after its receiver took in its next `n` genuine messages. */
  function CaughtUp(x: Session, n: nat): Session
    requires |x.accepted| + n <= |x.sent|
  {
    x.(receiver := x.receiver.(counter := x.receiver.counter + n),
       accepted := x.accepted + Receipts(x.sent, |x.accepted|, n))
  }

  lemma CaughtUpOneMore(x: Session, n: nat)
    requires |x.accepted| + n < |x.sent|
    ensures var z := CaughtUp(x, n);
            && |z.accepted| == |x.accepted| + n && z.sent == x.sent
            && CaughtUp(x, n + 1) == TakeNext(z)
  {
    var receipts := Receipts(x.sent, |x.accepted|, n);
    var last := Receipt(x.sent, |x.accepted| + n);
    assert Receipts(x.sent, |x.accepted|, n + 1) == receipts + [last];
    assert (x.accepted + receipts) + [last] == x.accepted + (receipts + [last]);
  }

  lemma ReceiptIsAuthentic(c: CtxState, x: Session, i: nat)
    requires c.suite.aead.Lawful() && Inv(c, x) && i < |x.sent|
    ensures var e := Receipt(x.sent, i);
            c.suite.aead.decrypt(c.key, c.Nonce(i), e.aad, e.ct) == Some(e.pt) && e.sentBefore == |x.sent|
  {
    assert c.suite.aead.encrypt(c.key, c.Nonce(i), x.sent[i].aad, x.sent[i].pt) == Some(x.sent[i].ct);
  }

  lemma CaughtUpKeepsInv(c: CtxState, x: Session, n: nat)
    requires c.suite.aead.Lawful() && Inv(c, x) && |x.accepted| + n <= |x.sent|
    ensures Inv(c, CaughtUp(x, n))
  {
    var z := CaughtUp(x, n);
    forall i | |x.accepted| <= i < |x.accepted| + n
      ensures c.suite.aead.decrypt(c.key, c.Nonce(i), z.accepted[i].aad, z.accepted[i].ct) == Some(z.accepted[i].pt)
      ensures z.accepted[i].sentBefore == |x.sent|
    {
      assert z.accepted[i] == Receipt(x.sent, i);
      ReceiptIsAuthentic(c, x, i);
    }
  }

  lemma NextIsAccepted(c: CtxState, x: Session, n: nat)
    requires c.CanSeal() && c.suite.aead.Lawful() && Inv(c, x) && |x.accepted| + n < |x.sent|
    ensures Step(CaughtUp(x, n), NextDelivery(x.sent, |x.accepted| + n)) == CaughtUp(x, n + 1)
  {
    CaughtUpKeepsInv(c, x, n);
    CaughtUpOneMore(x, n);
    DeliverNext(c, CaughtUp(x, n));
  }

  /** The run as a fold over an arbitrary step function. */
  function Fold<S, A>(f: (S, A) -> S, x: S, actions: seq<A>): S {
    if actions == [] then x else f(Fold(f, x, actions[..|actions| - 1]), actions[|actions| - 1])
  }

  lemma {:induction false} RunIsFold(x: Session, actions: seq<Action>)
    ensures Run(x, actions) == Fold(Step, x, actions)
  {
    if actions != [] {
      RunIsFold(x, actions[..|actions| - 1]);
    }
  }

  lemma {:induction false} FoldChain<S, A>(f: (S, A) -> S, states: seq<S>, actions: seq<A>)
    requires |states| == |actions| + 1
    requires forall k :: 0 <= k < |actions| ==> f(states[k], actions[k]) == states[k + 1]
    ensures Fold(f, states[0], actions) == states[|actions|]
  {
    if actions != [] {
      FoldChain(f, states[..|actions|], actions[..|actions| - 1]);
    }
  }

  lemma CatchUp(c: CtxState, x: Session, n: nat)
    requires c.CanSeal() && c.suite.aead.Lawful() && Inv(c, x) && |x.accepted| + n <= |x.sent|
    ensures Run(x, Remaining(x.sent, |x.accepted|, n)) == CaughtUp(x, n)
  {
    var deliveries := Remaining(x.sent, |x.accepted|, n);
    var sessions := seq(n + 1, k requires 0 <= k <= n => CaughtUp(x, k));
    forall k | 0 <= k < n ensures Step(sessions[k], deliveries[k]) == sessions[k + 1] {
      NextIsAccepted(c, x, k);
    }
    assert CaughtUp(x, 0) == x;
    RunIsFold(x, deliveries);
    FoldChain(Step, sessions, deliveries);
  }

  /** From any reachable session, delivering outstanding messages in order makes the receiver accept them all. */
  lemma ReceiverCatchesUp(c: CtxState, actions: seq<Action>, n: nat)
    requires c.CanSeal() && c.counter == 0 && c.suite.aead.Lawful()
    requires var x := Run(Fresh(c), actions); |x.accepted| + n <= |x.sent|
    ensures var x := Run(Fresh(c), actions);
            Run(x, Remaining(x.sent, |x.accepted|, n)) == CaughtUp(x, n)
  {
    RunKeepsInv(c, actions);
    CatchUp(c, Run(Fresh(c), actions), n);
  }

  // ---- What a session keeps, all at once ----

  /** No two positions in what was sent have one nonce. */
  ghost predicate FreshNonces(c: CtxState, x: Session) {
    forall i: nat, j: nat :: i < j < |x.sent| ==> c.Nonce(i) != c.Nonce(j)
  }

  /** The genuine message of the receiver's position is accepted as it was sent, and so are all after it in order. */
  ghost predicate Delivers(x: Session) {
    && (x.receiver.counter < |x.sent| ==>
          var m := x.sent[x.receiver.counter];
          Step(x, Deliver(m.aad, m.ct)) ==
          x.(receiver := x.receiver.Advanced(), accepted := x.accepted + [Accepted(m.aad, m.pt, m.ct, |x.sent|)]))
    && (forall n: nat :: |x.accepted| + n <= |x.sent| ==>
          Run(x, Remaining(x.sent, |x.accepted|, n)) == CaughtUp(x, n))
  }

  /** With the counters that `Inv` ties to what was sent and accepted, and each ciphertext to its nonce. */
  ghost predicate Safe(c: CtxState, x: Session) {
    PrefixOrForgery(c, x) && Inv(c, x) && FreshNonces(c, x) && Delivers(x)
  }

  /** Every reachable session is safe, whatever the network did. */
  lemma EveryRunIsSafe(c: CtxState, actions: seq<Action>)
    requires c.CanSeal() && c.counter == 0 && c.suite.aead.Lawful()
    ensures Safe(c, Run(Fresh(c), actions))
  {
    var x := Run(Fresh(c), actions);
    AcceptedIsPrefixOrForgery(c, actions);
    RunKeepsInv(c, actions);
    forall i: nat, j: nat | i < j < |x.sent| ensures c.Nonce(i) != c.Nonce(j) {
      NoNonceReuse(c, actions, i, j);
    }
    if x.receiver.counter < |x.sent| {
      GenuineMessageIsAccepted(c, actions);
    }
    forall n: nat | |x.accepted| + n <= |x.sent|
      ensures Run(x, Remaining(x.sent, |x.accepted|, n)) == CaughtUp(x, n)
    {
      ReceiverCatchesUp(c, actions, n);
    }
  }

  // ---- Exporting ----

  lemma LabeledKdfFacts(c: CtxState, context: Bytes, length: nat)
    requires c.suite.Lawful() && |c.exporterSecret| == c.suite.kdf.hashLen
    ensures var r := ExportOf(c, context, length);
            && (r.Ok? <==> length <= 255 * c.suite.kdf.hashLen)
            && (r.Ok? ==> |r.value| == length)
            && (r.Err? ==> r.error == ExportLengthExceeded)
  {
    LabeledKdf.ExpandSucceedsExactly(c.suite.kdf, c.exporterSecret, SuiteCaller(c.suite).SuiteId(),
      DomainSeparation.Label.Sec.Text(), context, length);
  }

  /**
   At any point of any run both ends export the same octets, the answer does not depend on the messages exchanged,
   and it is an answer, of the length asked for, exactly when the length is at most 255 blocks.
   */
  lemma ExportsAgree(c: CtxState, actions: seq<Action>, context: Bytes, length: nat)
    requires c.CanSeal() && c.counter == 0 && c.suite.Lawful() && |c.exporterSecret| == c.suite.kdf.hashLen
    ensures var x := Run(Fresh(c), actions);
            ExportOf(x.sender, context, length) == ExportOf(x.receiver, context, length) == ExportOf(c, context, length)
    ensures ExportOf(c, context, length).Ok? <==> length <= 255 * c.suite.kdf.hashLen
    ensures ExportOf(c, context, length).Ok? ==> |ExportOf(c, context, length).value| == length
    ensures ExportOf(c, context, length).Err? ==> ExportOf(c, context, length).error == ExportLengthExceeded
  {
    RunKeepsInv(c, actions);
    LabeledKdfFacts(c, context, length);
  }

  /** The run with its exports left out. */
  function WithoutExports(actions: seq<Action>): seq<Action> {
    if actions == [] then []
    else
      var front, last := actions[..|actions| - 1], actions[|actions| - 1];
      WithoutExports(front) + if last.ExportBoth? then [] else [last]
  }

  /** Exports may be interleaved anywhere: they move no counter and change nothing that is sent or accepted. */
  lemma {:induction false} ExportsInterleaveFreely(x: Session, actions: seq<Action>)
    ensures Run(x, WithoutExports(actions)) == Run(x, actions)
    ensures forall a :: a in WithoutExports(actions) <==> a in actions && !a.ExportBoth?
  {
    if actions != [] {
      var front, last := actions[..|actions| - 1], actions[|actions| - 1];
      ExportsInterleaveFreely(x, front);
      if !last.ExportBoth? {
        var kept := WithoutExports(front) + [last];
        assert WithoutExports(actions) == kept;
        assert kept[..|kept| - 1] == WithoutExports(front);
      } else {
        assert WithoutExports(actions) == WithoutExports(front);
      }
    }
  }

  // ---- Refinement of the RFC's context ----

  function RfcStep(x: Session, a: Action): Session {
    match a
    case Send(aad, pt) =>
      var (c, r) := RfcSeal(x.sender, aad, pt);
      x.(sender := c, sent := if r.Ok? then x.sent + [Sent(aad, pt, r.value)] else x.sent)
    case Deliver(aad, ct) =>
      var (c, r) := RfcOpen(x.receiver, aad, ct);
      x.(receiver := c,
         accepted := if r.Ok? then x.accepted + [Accepted(aad, r.value, ct, |x.sent|)] else x.accepted)
    case ExportBoth(_, _) => x
  }

  function RfcRun(x: Session, actions: seq<Action>): Session {
    if actions == [] then x else RfcStep(RfcRun(x, actions[..|actions| - 1]), actions[|actions| - 1])
  }

  /** The endpoint an action runs on has used up its 64-bit counter. */
  predicate Exhausted(x: Session, a: Action) {
    match a
    case Send(_, _) => x.sender.counter == U64_MAX
    case Deliver(_, _) => x.receiver.counter == U64_MAX
    case ExportBoth(_, _) => false
  }

  /** The actions of a run that the crate did not refuse with its message limit. */
  function Admitted(x: Session, actions: seq<Action>): seq<Action> {
    if actions == [] then []
    else
      var front, last := actions[..|actions| - 1], actions[|actions| - 1];
      Admitted(x, front) + if Exhausted(Run(x, front), last) then [] else [last]
  }

  /**
   Every run of the u64 contexts is a run of the RFC's contexts, with limit 2^(8 Nn) - 1, on the same actions less
   those refused at the 64-bit limit; the two runs send and accept the same messages under the same counters.
   */
  lemma {:induction false} RunRefinesRfc(c: CtxState, actions: seq<Action>)
    requires c.CanSeal() && c.counter == 0
    ensures Run(Fresh(c), actions) == RfcRun(Fresh(c), Admitted(Fresh(c), actions))
  {
    if actions != [] {
      var front, last := actions[..|actions| - 1], actions[|actions| - 1];
      RunRefinesRfc(c, front);
      RunKeepsInv(c, front);
      var x := Run(Fresh(c), front);
      var admitted := Admitted(Fresh(c), front);
      if Exhausted(x, last) {
        assert Admitted(Fresh(c), actions) == admitted;
      } else {
        var more := admitted + [last];
        assert Admitted(Fresh(c), actions) == more;
        assert more[..|more| - 1] == admitted;
        match last
        case Send(aad, pt) => SealMatchesRfcExactly(x.sender, aad, pt);
        case Deliver(aad, ct) => OpenMatchesRfcExactly(x.receiver, aad, ct);
        case ExportBoth(_, _) =>
      }
    }
  }

  /** If fewer than 2^64 - 1 messages were sent and accepted, nothing was refused and the runs are the same run. */
  lemma {:induction false} ShortRunsAreRfcRuns(c: CtxState, actions: seq<Action>)
    requires c.CanSeal() && c.counter == 0
    requires |Run(Fresh(c), actions).sent| < U64_MAX && |Run(Fresh(c), actions).accepted| < U64_MAX
    ensures Admitted(Fresh(c), actions) == actions
    ensures Run(Fresh(c), actions) == RfcRun(Fresh(c), actions)
  {
    RunRefinesRfc(c, actions);
    if actions != [] {
      var front, last := actions[..|actions| - 1], actions[|actions| - 1];
      RunKeepsInv(c, front);
      StepKeepsInv(c, Run(Fresh(c), front), last);
      ShortRunsAreRfcRuns(c, front);
      assert actions == front + [last];
    }
  }

  // ---- The limit ----

  /** An AEAD that never refuses to encrypt. */
  ghost predicate AlwaysEncrypts(aead: Aead) {
    forall key, nonce, aad, pt :: aead.encrypt(key, nonce, aad, pt).Some?
  }

  /** Every counter up to the limit is reached: n sends bring the sender to n, for every n up to 2^64 - 1. */
  lemma {:induction false} SendsReachEveryCounter(c: CtxState, sends: seq<Action>)
    requires c.CanSeal() && c.counter == 0 && AlwaysEncrypts(c.suite.aead)
    requires (forall a | a in sends :: a.Send?) && |sends| <= U64_MAX
    ensures var x := Run(Fresh(c), sends);
            x.sender == c.(counter := |sends|) && |x.sent| == |sends|
  {
    if sends == [] {
      assert c == c.(counter := 0);
    } else {
      var front, last := sends[..|sends| - 1], sends[|sends| - 1];
      SendsReachEveryCounter(c, front);
      assert last in sends;
    }
  }

  /**
   The departure from the RFC, in a run: after 2^64 - 1 sends the next one is refused and changes nothing, where the
   RFC's context would still have sealed it, for any nonce longer than eight octets.
   */
  lemma LimitDepartsFromRfc(c: CtxState, sends: seq<Action>, aad: Bytes, pt: Bytes)
    requires c.CanSeal() && c.counter == 0 && AlwaysEncrypts(c.suite.aead)
    requires (forall a | a in sends :: a.Send?) && |sends| == U64_MAX
    ensures var x := Run(Fresh(c), sends);
            && SealStep(x.sender, aad, pt) == (x.sender, Err(MessageLimitReached))
            && Step(x, Send(aad, pt)) == x
            && (RfcSeal(x.sender, aad, pt).1.Ok? <==> c.suite.aead.nonceLen > SEQ_LEN)
  {
    SendsReachEveryCounter(c, sends);
    LimitsCompared(c);
  }
}
