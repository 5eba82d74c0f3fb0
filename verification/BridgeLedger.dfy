/**
 * Releases and refunds over one bridge whose verifier extends its consumed-deposit ledger after each passing
 * release: quorum intersection, at-most-once release and conservation.
 */
module BridgeLedger {
  import opened ByteStrings
  import opened Primitives
  import opened Price
  import opened Deposits
  import Disclose
  import Quorum
  import BridgeRelease
  import TankRefund

  /** When the declared set size is that of the authorised set, a passing release and refund share a signer of both. */
  lemma ReleaseAndRefundShareASigner(c: Crypto, clock: Clock, release: BridgeRelease.Evidence, ro: Options,
                                     refund: TankRefund.Evidence, fo: Options) returns (signer: string)
    requires ro.authorizedShardSet.Some? && fo.authorizedShardSet.Some?
    requires Quorum.NormalisedShardSet(ro.authorizedShardSet.value) ==
      Quorum.NormalisedShardSet(fo.authorizedShardSet.value)
    requires ro.shardSetSize == fo.shardSetSize == Some(|Quorum.NormalisedShardSet(ro.authorizedShardSet.value)|)
    requires BridgeRelease.Passes(c, clock, release, ro) && TankRefund.Passes(c, clock, refund, fo)
    ensures signer in Quorum.NormalisedShardSet(ro.authorizedShardSet.value)
    ensures BridgeRelease.SignedCommitment(c, release, signer) && TankRefund.SignedCommitment(c, refund, signer)
  {
    var shards := Quorum.NormalisedShardSet(ro.authorizedShardSet.value);
    signer := Quorum.MajoritiesIntersect(
      shards, BridgeRelease.Signers(c, release, shards), TankRefund.Signers(c, refund, shards));
  }

  datatype Event =
    | Release(release: BridgeRelease.Evidence, options: Options)
    | Refund(refund: TankRefund.Evidence, options: Options)

  datatype Payment = Payment(depositId: string, asset: string, amount: real)

  /** `ledger` is the verifier's consumed-deposit ledger; `released` and `refunded` record what passed. */
  datatype State = State(ledger: seq<string>, released: seq<Payment>, refunded: seq<Payment>)

  /** The caller always supplies its own ledger. */
  function WithLedger(o: Options, ledger: seq<string>): Options {
    o.(consumedDepositLedger := Some(ledger))
  }

  /** What an event pays out of the unconsumed deposits. */
  datatype Effect = NoPayment | Releases(payment: Payment) | Refunds(payment: Payment)

  ghost function EffectOf(c: Crypto, clock: Clock, e: Event, ledger: seq<string>): Effect {
    match e
    case Release(ev, o) =>
      if BridgeRelease.Passes(c, clock, ev, WithLedger(o, ledger)) then
        Effect.Releases(Payment(ev.proof.value.depositId, ev.amount.asset, Amount(ev.amount)))
      else NoPayment
    case Refund(ev, o) =>
      if TankRefund.Passes(c, clock, ev, WithLedger(o, ledger)) then
        Effect.Refunds(Payment(ev.proof.value.depositId, ev.amount.asset, Amount(ev.amount)))
      else NoPayment
  }

  /** The source's callers extend the ledger after a release, not after a refund. */
  function Apply(s: State, effect: Effect): State {
    match effect
    case NoPayment => s
    case Releases(payment) => State(s.ledger + [payment.depositId], s.released + [payment], s.refunded)
    case Refunds(payment) => s.(refunded := s.refunded + [payment])
  }

  ghost function Step(c: Crypto, clock: Clock, s: State, e: Event): State {
    Apply(s, EffectOf(c, clock, e, s.ledger))
  }

  /** How often a list of payments pays a deposit. */
  function TimesPaid(payments: seq<Payment>, id: string): nat {
    if |payments| == 0 then 0
    else
      TimesPaid(payments[..|payments| - 1], id) + if payments[|payments| - 1].depositId == id then 1 else 0
  }

  lemma TimesPaidSnoc(payments: seq<Payment>, p: Payment, id: string)
    ensures TimesPaid(payments + [p], id) == TimesPaid(payments, id) + if p.depositId == id then 1 else 0
  {
    assert (payments + [p])[..|payments|] == payments;
  }

  predicate Touches(effect: Effect, id: string) {
    !effect.NoPayment? && effect.payment.depositId == id
  }

  /** What an event pays while nothing is consumed: decided without any ledger. */
  ghost function UnblockedEffect(c: Crypto, clock: Clock, e: Event): Effect {
    EffectOf(c, clock, e, [])
  }

  lemma LedgerBlocksReleases(c: Crypto, clock: Clock, ev: BridgeRelease.Evidence, o: Options, ledger: seq<string>)
    ensures BridgeRelease.Passes(c, clock, ev, WithLedger(o, ledger)) <==>
      (BridgeRelease.Passes(c, clock, ev, WithLedger(o, [])) && ev.proof.value.depositId !in ledger)
  {
  }

  lemma LedgerBlocksRefunds(c: Crypto, clock: Clock, ev: TankRefund.Evidence, o: Options, ledger: seq<string>)
    ensures TankRefund.Passes(c, clock, ev, WithLedger(o, ledger)) <==>
      (TankRefund.Passes(c, clock, ev, WithLedger(o, [])) && ev.proof.value.depositId !in ledger)
  {
  }

  /** All a ledger does to a release or refund is to block consumed deposits. */
  lemma LedgerOnlyBlocks(c: Crypto, clock: Clock, e: Event, ledger: seq<string>)
    ensures EffectOf(c, clock, e, ledger) ==
      var effect := UnblockedEffect(c, clock, e);
      if exists id :: id in ledger && Touches(effect, id) then NoPayment else effect
  {
    match e
    case Release(ev, o) => LedgerBlocksReleases(c, clock, ev, o, ledger);
    case Refund(ev, o) => LedgerBlocksRefunds(c, clock, ev, o, ledger);
  }

  ghost function Run(c: Crypto, clock: Clock, s: State, events: seq<Event>): State {
    if |events| == 0 then s
    else Step(c, clock, Run(c, clock, s, events[..|events| - 1]), events[|events| - 1])
  }

  predicate NoDuplicates(ids: seq<string>) {
    forall i, j :: 0 <= i < j < |ids| ==> ids[i] != ids[j]
  }

  /** The released deposits are exactly the ledger, each once. */
  ghost predicate EachReleasedOnce(s: State) {
    && NoDuplicates(s.ledger)
    && |s.released| == |s.ledger|
    && forall i :: 0 <= i < |s.ledger| ==> s.released[i].depositId == s.ledger[i]
  }

  lemma ApplyReleasesOnce(s: State, effect: Effect)
    requires EachReleasedOnce(s) && forall id :: Touches(effect, id) ==> id !in s.ledger
    ensures EachReleasedOnce(Apply(s, effect)) && s.ledger <= Apply(s, effect).ledger
    ensures |Apply(s, effect).refunded| > |s.refunded| ==>
      Apply(s, effect).refunded[|s.refunded|].depositId !in s.ledger
  {
    if !effect.NoPayment? {
      assert Touches(effect, effect.payment.depositId);
    }
  }

  lemma PaidIsUnconsumed(c: Crypto, clock: Clock, e: Event, ledger: seq<string>, id: string)
    requires Touches(EffectOf(c, clock, e, ledger), id)
    ensures id !in ledger
  {
    LedgerOnlyBlocks(c, clock, e, ledger);
  }

  lemma StepReleasesOnce(c: Crypto, clock: Clock, s: State, e: Event)
    requires EachReleasedOnce(s)
    ensures EachReleasedOnce(Step(c, clock, s, e))
    ensures s.ledger <= Step(c, clock, s, e).ledger
    ensures |Step(c, clock, s, e).refunded| > |s.refunded| ==>
      Step(c, clock, s, e).refunded[|s.refunded|].depositId !in s.ledger
  {
    var effect := EffectOf(c, clock, e, s.ledger);
    forall id | Touches(effect, id) ensures id !in s.ledger {
      PaidIsUnconsumed(c, clock, e, s.ledger, id);
    }
    ApplyReleasesOnce(s, effect);
  }

  /** Every deposit is released at most once, whatever is presented in whatever order. */
  lemma {:induction false} EveryDepositReleasedAtMostOnce(c: Crypto, clock: Clock, events: seq<Event>)
    ensures EachReleasedOnce(Run(c, clock, State([], [], []), events))
    decreases |events|
  {
    if |events| > 0 {
      var init := events[..|events| - 1];
      EveryDepositReleasedAtMostOnce(c, clock, init);
      StepReleasesOnce(c, clock, Run(c, clock, State([], [], []), init), events[|events| - 1]);
    }
  }

  /** A released deposit is never refunded afterwards, and never leaves the ledger. */
  lemma {:induction false} NoRefundAfterRelease(c: Crypto, clock: Clock, s: State, events: seq<Event>, id: string)
    requires EachReleasedOnce(s) && id in s.ledger
    ensures var s' := Run(c, clock, s, events);
      && EachReleasedOnce(s') && s.ledger <= s'.ledger && |s.refunded| <= |s'.refunded|
      && forall i :: |s.refunded| <= i < |s'.refunded| ==> s'.refunded[i].depositId != id
    decreases |events|
  {
    if |events| > 0 {
      var init := events[..|events| - 1];
      NoRefundAfterRelease(c, clock, s, init, id);
      StepReleasesOnce(c, clock, Run(c, clock, s, init), events[|events| - 1]);
    }
  }

  // ------------------------------------------------------- when a deposit is paid out twice

  /** What one event is to one deposit, before any ledger is looked at. */
  datatype Outcome = Releasing | Refunding | Neither

  function OutcomeFor(effect: Effect, id: string): Outcome {
    if !Touches(effect, id) then Neither else if effect.Releases? then Releasing else Refunding
  }

  ghost function EventOutcome(c: Crypto, clock: Clock, id: string): Event -> Outcome {
    e => OutcomeFor(UnblockedEffect(c, clock, e), id)
  }

  function Mapped(of: Event -> Outcome, events: seq<Event>): (os: seq<Outcome>)
    ensures |os| == |events| && forall i :: 0 <= i < |os| ==> os[i] == of(events[i])
  {
    if |events| == 0 then [] else Mapped(of, events[..|events| - 1]) + [of(events[|events| - 1])]
  }

  ghost function Outcomes(c: Crypto, clock: Clock, events: seq<Event>, id: string): seq<Outcome> {
    Mapped(EventOutcome(c, clock, id), events)
  }

  /** How many refunds are paid: those before the first release. */
  function RefundsPaid(os: seq<Outcome>): nat {
    if |os| == 0 then 0
    else
      var init := os[..|os| - 1];
      RefundsPaid(init) + if os[|os| - 1] == Refunding && Releasing !in init then 1 else 0
  }

  predicate RefundPaidAt(os: seq<Outcome>, i: nat) {
    i < |os| && os[i] == Refunding && Releasing !in os[..i]
  }

  lemma {:induction false} PaidRefunds(os: seq<Outcome>)
    ensures RefundsPaid(os) >= 1 <==> exists i: nat :: RefundPaidAt(os, i)
    ensures RefundsPaid(os) >= 2 <==> exists i: nat, j: nat :: i < j && RefundPaidAt(os, i) && RefundPaidAt(os, j)
  {
    if |os| > 0 {
      var init, n := os[..|os| - 1], |os| - 1;
      PaidRefunds(init);
      forall i: nat | i < n ensures RefundPaidAt(os, i) <==> RefundPaidAt(init, i) {
        assert init[..i] == os[..i];
      }
      assert forall i: nat :: RefundPaidAt(init, i) ==> i < n && RefundPaidAt(os, i);
      assert RefundPaidAt(os, n) <==> os[n] == Refunding && Releasing !in init;
    }
  }

  lemma ApplyPays(s: State, effect: Effect, paid: Effect, id: string)
    requires paid == if exists other :: other in s.ledger && Touches(effect, other) then NoPayment else effect
    ensures var s', outcome := Apply(s, paid), OutcomeFor(effect, id);
      && (id in s'.ledger <==> id in s.ledger || outcome == Releasing)
      && TimesPaid(s'.refunded, id) ==
           TimesPaid(s.refunded, id) + if outcome == Refunding && id !in s.ledger then 1 else 0
  {
    assert forall other :: Touches(effect, id) && Touches(effect, other) ==> other == id;
    if effect.Refunds? {
      TimesPaidSnoc(s.refunded, effect.payment, id);
    }
  }

  lemma StepPays(c: Crypto, clock: Clock, s: State, e: Event, id: string)
    ensures var s', outcome := Step(c, clock, s, e), EventOutcome(c, clock, id)(e);
      && (id in s'.ledger <==> id in s.ledger || outcome == Releasing)
      && TimesPaid(s'.refunded, id) ==
           TimesPaid(s.refunded, id) + if outcome == Refunding && id !in s.ledger then 1 else 0
  {
    LedgerOnlyBlocks(c, clock, e, s.ledger);
    ApplyPays(s, UnblockedEffect(c, clock, e), EffectOf(c, clock, e, s.ledger), id);
  }

  /** Over runs from nothing: released means some release of it passed, refunded counts the refunds before that. */
  lemma {:induction false} RunPays(c: Crypto, clock: Clock, events: seq<Event>, id: string)
    ensures var s, os := Run(c, clock, State([], [], []), events), Outcomes(c, clock, events, id);
      (id in s.ledger <==> Releasing in os) && TimesPaid(s.refunded, id) == RefundsPaid(os)
    decreases |events|
  {
    if |events| > 0 {
      var init, os := events[..|events| - 1], Outcomes(c, clock, events, id);
      RunPays(c, clock, init, id);
      StepPays(c, clock, Run(c, clock, State([], [], []), init), events[|events| - 1], id);
      assert os[..|os| - 1] == Outcomes(c, clock, init, id);
      assert os == os[..|os| - 1] + [os[|os| - 1]];
    }
  }

  /**
   * Exactly when the code pays a deposit out twice.  It ends up both refunded and released if and only if a passing
   * refund of it precedes its first passing release and there is one; it is refunded twice if and only if two passing
   * refunds precede any release.
   */
  lemma PaidOutTwiceExactlyWhen(c: Crypto, clock: Clock, events: seq<Event>, id: string)
    ensures var s, os := Run(c, clock, State([], [], []), events), Outcomes(c, clock, events, id);
      && (id in s.ledger && TimesPaid(s.refunded, id) >= 1 <==> Releasing in os && exists i: nat :: RefundPaidAt(os, i))
      && (TimesPaid(s.refunded, id) >= 2 <==>
        exists i: nat, j: nat :: i < j && RefundPaidAt(os, i) && RefundPaidAt(os, j))
  {
    RunPays(c, clock, events, id);
    PaidRefunds(Outcomes(c, clock, events, id));
  }

  // --------------------------------------------- every refundable deposit can be paid twice

  /** One shard's signature over a commitment body. */
  function ShardSigns(c: Crypto, separator: string, body: Bytes, key: Bytes): Quorum.ShardSignature {
    Quorum.ShardSignature(BytesToHex(c.publicKey(key)), BytesToHex(c.sign(separator, body, key)))
  }

  lemma ShardSignatureChecks(c: Crypto, separator: string, body: Bytes, key: Bytes)
    requires SignaturesWork(c)
    ensures Quorum.CheckOver(c, separator, body)(ShardSigns(c, separator, body, key)) ==
      Some(BytesToHex(c.publicKey(key)))
  {
    HexRoundTrip(c.publicKey(key));
    HexRoundTrip(c.sign(separator, body, key));
    assert c.verify(separator, c.sign(separator, body, key), body, c.publicKey(key));
    assert |c.publicKey(key)| == 32 && |c.sign(separator, body, key)| == 64;
    assert Disclose.FixedWidth(BytesToHex(c.publicKey(key)), 32) == Some(c.publicKey(key));
    assert Disclose.FixedWidth(BytesToHex(c.sign(separator, body, key)), 64) == Some(c.sign(separator, body, key));
    var check := Quorum.CheckOver(c, separator, body);
    var s := ShardSigns(c, separator, body, key);
    assert check(s) == Some(BytesToHex(c.publicKey(key)));
  }

  lemma LoneShardSet(name: string)
    requires |name| > 0 && StripHexPrefix(Lower(name)) == name
    ensures Quorum.NormalisedShardSet([name]) == {name}
  {
    assert [name][0] == name;
  }

  lemma LoneSignerCarries(q: Quorum.Case, s: Quorum.ShardSignature, name: string)
    requires q.ready && q.required == 1 && q.authorized == {name} && q.check(s) == Some(name)
    ensures Quorum.Carried(q, [s])
  {
    assert Quorum.Signed(q.check, [s], name) by { assert [s][0] == s; }
    assert Quorum.ValidSigners(q.check, [s], {name}) == {name};
  }

  function OneShard(c: Crypto, key: Bytes): Options {
    Options(1, Some(1), Some([BytesToHex(c.publicKey(key))]), Some([]))
  }

  /** A deposit that may be released and, once its lock has expired, refunded. */
  predicate Payable(clock: Clock, p: DepositProof) {
    && DepositCheck(Some(p), p.bridgeId, p.amount) == ""
    && BridgeRelease.InWindow(clock, p)
    && p.depositor.Some? && p.depositor.value != ""
  }

  lemma ReleaseExists(c: Crypto, clock: Clock, key: Bytes, p: DepositProof) returns (release: BridgeRelease.Evidence)
    requires SignaturesWork(c) && (forall j :: c.jcs(j).Some?) && Payable(clock, p)
    ensures release.proof == Some(p) && BridgeRelease.Passes(c, clock, release, OneShard(c, key))
  {
    var name := BytesToHex(c.publicKey(key));
    var bare := BridgeRelease.Evidence(p.bridgeId, p.amount, Some(p), [], "");
    BoundDepositMatchesAmount(Some(p), p.bridgeId, p.amount);
    var body := BridgeRelease.CommitmentBody(c, bare).value;
    var s := ShardSigns(c, BridgeRelease.BRIDGE_RELEASE_ATTESTATION, body, key);
    ShardSignatureChecks(c, BridgeRelease.BRIDGE_RELEASE_ATTESTATION, body, key);
    HexRoundTrip(c.publicKey(key));
    HexDigitsHaveNoPrefix(name);
    LoneShardSet(name);
    LoneSignerCarries(BridgeRelease.CaseOf(c, clock, bare, OneShard(c, key)), s, name);
    BridgeRelease.PassesByCase(c, clock, bare, OneShard(c, key), [s]);
    release := bare.(signatures := [s]);
  }

  lemma RefundExists(c: Crypto, clock: Clock, key: Bytes, p: DepositProof, at: string)
    returns (refund: TankRefund.Evidence)
    requires SignaturesWork(c) && (forall j :: c.jcs(j).Some?) && Payable(clock, p) && clock(at).Some?
    ensures refund.proof == Some(p) && TankRefund.Passes(c, clock, refund, OneShard(c, key))
  {
    var name := BytesToHex(c.publicKey(key));
    var bare := TankRefund.Evidence(p.bridgeId, p.amount, p.depositor.value, Some(p), at, at, "", []);
    BoundDepositMatchesAmount(Some(p), p.bridgeId, p.amount);
    var body := TankRefund.CommitmentBody(c, bare).value;
    var s := ShardSigns(c, TankRefund.TANK_REFUND_ATTESTATION, body, key);
    ShardSignatureChecks(c, TankRefund.TANK_REFUND_ATTESTATION, body, key);
    HexRoundTrip(c.publicKey(key));
    HexDigitsHaveNoPrefix(name);
    LoneShardSet(name);
    LoneSignerCarries(TankRefund.CaseOf(c, clock, bare, OneShard(c, key)), s, name);
    TankRefund.PassesByCase(c, clock, bare, OneShard(c, key), [s]);
    refund := bare.(signatures := [s]);
  }

  lemma PassingEventTouches(c: Crypto, clock: Clock, key: Bytes, p: DepositProof, release: BridgeRelease.Evidence,
                            refund: TankRefund.Evidence)
    requires release.proof == Some(p) && BridgeRelease.Passes(c, clock, release, OneShard(c, key))
    requires refund.proof == Some(p) && TankRefund.Passes(c, clock, refund, OneShard(c, key))
    ensures EventOutcome(c, clock, p.depositId)(Release(release, OneShard(c, key))) == Releasing
    ensures EventOutcome(c, clock, p.depositId)(Refund(refund, OneShard(c, key))) == Refunding
  {
    assert WithLedger(OneShard(c, key), []) == OneShard(c, key);
  }

  /**
   * Every payable deposit has honestly signed evidence that pays it out twice: refund then release, or two refunds.
   * The verifiers never see refunds in the ledger, so nothing they check stands in the way.
   */
  lemma PayableDepositCanBePaidTwice(c: Crypto, clock: Clock, key: Bytes, p: DepositProof, at: string)
    returns (refund: Event, release: Event)
    requires SignaturesWork(c) && (forall j :: c.jcs(j).Some?) && Payable(clock, p) && clock(at).Some?
    ensures var s := Run(c, clock, State([], [], []), [refund, release]);
      p.depositId in s.ledger && TimesPaid(s.refunded, p.depositId) >= 1
    ensures TimesPaid(Run(c, clock, State([], [], []), [refund, refund]).refunded, p.depositId) >= 2
  {
    var ev := ReleaseExists(c, clock, key, p);
    var back := RefundExists(c, clock, key, p, at);
    PassingEventTouches(c, clock, key, p, ev, back);
    release, refund := Release(ev, OneShard(c, key)), Refund(back, OneShard(c, key));
    TwiceByOutcomes(c, clock, refund, release, p.depositId);
  }

  lemma TwiceByOutcomes(c: Crypto, clock: Clock, refund: Event, release: Event, id: string)
    requires EventOutcome(c, clock, id)(refund) == Refunding && EventOutcome(c, clock, id)(release) == Releasing
    ensures var s := Run(c, clock, State([], [], []), [refund, release]);
      id in s.ledger && TimesPaid(s.refunded, id) >= 1
    ensures TimesPaid(Run(c, clock, State([], [], []), [refund, refund]).refunded, id) >= 2
  {
    var mixed, both := [refund, release], [refund, refund];
    PaidOutTwiceExactlyWhen(c, clock, mixed, id);
    PaidOutTwiceExactlyWhen(c, clock, both, id);
    var os, twice := Outcomes(c, clock, mixed, id), Outcomes(c, clock, both, id);
    assert mixed[0] == refund && mixed[1] == release && both[0] == refund && both[1] == refund;
    assert os[0] == Refunding && os[1] == Releasing && twice[0] == Refunding && twice[1] == Refunding;
    assert os[..0] == [] && twice[..0] == [] && twice[..1] == [Refunding];
    assert RefundPaidAt(os, 0) && RefundPaidAt(twice, 0) && RefundPaidAt(twice, 1);
    assert Releasing in os;
  }

  lemma OneIsPositive()
    ensures CanonicalPrice(PriceTerm("1", "X", None)) == Some("1") && IsPositiveAmount(PriceTerm("1", "X", None))
  {
    assert Trim("1") == "1";
    var n := Numeral(false, "1", "");
    assert PrintUnsigned(n) == "1" && Print(n) == "1";
    ParseUndoesPrint(n);
    assert StripLeadingZeros("1") == "1" && StripTrailingZeros("") == "";
    assert CanonicalNumeral(PriceTerm("1", "X", None)) == Some(n);
  }

  /** There are such deposits. */
  lemma SomeDepositIsPayable(clock: Clock)
    ensures exists p :: Payable(clock, p)
  {
    var amount := PriceTerm("1", "X", None);
    var p := DepositProof("deposit", "bridge", amount, true, Some("now"), None, None, Some("depositor"), None);
    OneIsPositive();
    assert DepositCheck(Some(p), "bridge", amount) == "";
    assert Payable(clock, p);
  }

  /** The policy that rules it out: the ledger is extended after refunds too. */
  function ApplyRecording(s: State, effect: Effect): State {
    match effect
    case NoPayment => s
    case Releases(payment) => State(s.ledger + [payment.depositId], s.released + [payment], s.refunded)
    case Refunds(payment) => State(s.ledger + [payment.depositId], s.released, s.refunded + [payment])
  }

  ghost function RecordingStep(c: Crypto, clock: Clock, s: State, e: Event): State {
    ApplyRecording(s, EffectOf(c, clock, e, s.ledger))
  }

  ghost function RecordingRun(c: Crypto, clock: Clock, s: State, events: seq<Event>): State {
    if |events| == 0 then s
    else RecordingStep(c, clock, RecordingRun(c, clock, s, events[..|events| - 1]), events[|events| - 1])
  }

  /** The ledger lists every payment of a deposit, of either kind, and none twice. */
  predicate PaidOnce(s: State, id: string) {
    TimesPaid(s.released, id) + TimesPaid(s.refunded, id) == if id in s.ledger then 1 else 0
  }

  lemma ApplyRecordingPaysOnce(s: State, effect: Effect, id: string)
    requires PaidOnce(s, id) && (Touches(effect, id) ==> id !in s.ledger)
    ensures PaidOnce(ApplyRecording(s, effect), id)
    ensures NoDuplicates(s.ledger) && (forall other :: Touches(effect, other) ==> other !in s.ledger) ==>
      NoDuplicates(ApplyRecording(s, effect).ledger)
  {
    if !effect.NoPayment? {
      TimesPaidSnoc(s.released, effect.payment, id);
      TimesPaidSnoc(s.refunded, effect.payment, id);
      assert Touches(effect, effect.payment.depositId);
    }
  }

  /** With refunds recorded too, each deposit is paid out at most once, by release or by refund, over any run. */
  lemma {:induction false} RecordingRefundsPaysEachOnce(c: Crypto, clock: Clock, events: seq<Event>, id: string)
    ensures var s := RecordingRun(c, clock, State([], [], []), events);
      && TimesPaid(s.released, id) + TimesPaid(s.refunded, id) == (if id in s.ledger then 1 else 0)
      && NoDuplicates(s.ledger)
    decreases |events|
  {
    if |events| > 0 {
      var init, e := events[..|events| - 1], events[|events| - 1];
      RecordingRefundsPaysEachOnce(c, clock, init, id);
      var s := RecordingRun(c, clock, State([], [], []), init);
      forall other | Touches(EffectOf(c, clock, e, s.ledger), other) ensures other !in s.ledger {
        PaidIsUnconsumed(c, clock, e, s.ledger, other);
      }
      ApplyRecordingPaysOnce(s, EffectOf(c, clock, e, s.ledger), id);
    }
  }

  // --------------------------------------------------------------- conservation

  /** What was really deposited on the source chain under each id. */
  datatype Deposit = Deposit(asset: string, amount: real)

  function ProofOf(e: Event): Option<DepositProof> {
    match e
    case Release(ev, _) => ev.proof
    case Refund(ev, _) => ev.proof
  }

  predicate HonestProof(p: DepositProof, deposits: string -> Deposit) {
    CanonicalPrice(p.amount).Some? ==> deposits(p.depositId) == Deposit(p.amount.asset, Amount(p.amount))
  }

  /** The event's proof, if any, states the real deposit. */
  predicate HonestEvent(e: Event, deposits: string -> Deposit) {
    ProofOf(e).Some? ==> HonestProof(ProofOf(e).value, deposits)
  }

  predicate Honest(payment: Payment, deposits: string -> Deposit) {
    deposits(payment.depositId) == Deposit(payment.asset, payment.amount)
  }

  ghost function TotalPaid(payments: seq<Payment>, asset: string): real {
    if |payments| == 0 then 0.0
    else
      var last := payments[|payments| - 1];
      TotalPaid(payments[..|payments| - 1], asset) + if last.asset == asset then last.amount else 0.0
  }

  ghost function TotalDeposited(ids: seq<string>, deposits: string -> Deposit, asset: string): real {
    if |ids| == 0 then 0.0
    else
      var last := deposits(ids[|ids| - 1]);
      TotalDeposited(ids[..|ids| - 1], deposits, asset) + if last.asset == asset then last.amount else 0.0
  }

  /** What passes pays what was deposited, and in the deposit's asset. */
  lemma PaymentIsTheDeposit(c: Crypto, clock: Clock, e: Event, ledger: seq<string>, deposits: string -> Deposit)
    requires HonestEvent(e, deposits)
    ensures var effect := EffectOf(c, clock, e, ledger); !effect.NoPayment? ==> Honest(effect.payment, deposits)
  {
    if !EffectOf(c, clock, e, ledger).NoPayment? {
      match e
      case Release(ev, _) => BoundDepositMatchesAmount(ev.proof, ev.bridgeId, ev.amount);
      case Refund(ev, _) => BoundDepositMatchesAmount(ev.proof, ev.bridgeId, ev.amount);
    }
  }

  lemma OneMorePayment(payments: seq<Payment>, ids: seq<string>, payment: Payment, deposits: string -> Deposit,
                       asset: string)
    requires Honest(payment, deposits)
    ensures TotalPaid(payments + [payment], asset) - TotalPaid(payments, asset) ==
      TotalDeposited(ids + [payment.depositId], deposits, asset) - TotalDeposited(ids, deposits, asset)
  {
    assert (payments + [payment])[..|payments|] == payments && (ids + [payment.depositId])[..|ids|] == ids;
  }

  /** Conservation: for every asset, the total released is the total of the consumed deposits, each counted once. */
  lemma {:induction false} ReleasesAreConserved(c: Crypto, clock: Clock, events: seq<Event>,
                                                deposits: string -> Deposit, asset: string)
    requires forall i :: 0 <= i < |events| && events[i].Release? ==> HonestEvent(events[i], deposits)
    ensures var s := Run(c, clock, State([], [], []), events);
      TotalPaid(s.released, asset) == TotalDeposited(s.ledger, deposits, asset)
    decreases |events|
  {
    if |events| > 0 {
      var init, e := events[..|events| - 1], events[|events| - 1];
      assert forall i :: 0 <= i < |init| ==> init[i] == events[i];
      ReleasesAreConserved(c, clock, init, deposits, asset);
      var s := Run(c, clock, State([], [], []), init);
      var effect := EffectOf(c, clock, e, s.ledger);
      if effect.Releases? {
        PaymentIsTheDeposit(c, clock, e, s.ledger, deposits);
        OneMorePayment(s.released, s.ledger, effect.payment, deposits, asset);
      }
    }
  }

  /**
   * With refunds recorded too, for every asset the total released and refunded is the total of the paid deposits, and
   * by RecordingRefundsPaysEachOnce each of these is counted once.
   */
  lemma {:induction false} RecordedPaymentsAreConserved(c: Crypto, clock: Clock, events: seq<Event>,
                                                        deposits: string -> Deposit, asset: string)
    requires forall i :: 0 <= i < |events| ==> HonestEvent(events[i], deposits)
    ensures var s := RecordingRun(c, clock, State([], [], []), events);
      TotalPaid(s.released, asset) + TotalPaid(s.refunded, asset) == TotalDeposited(s.ledger, deposits, asset)
    decreases |events|
  {
    if |events| > 0 {
      var init, e := events[..|events| - 1], events[|events| - 1];
      assert forall i :: 0 <= i < |init| ==> init[i] == events[i];
      RecordedPaymentsAreConserved(c, clock, init, deposits, asset);
      var s := RecordingRun(c, clock, State([], [], []), init);
      var effect := EffectOf(c, clock, e, s.ledger);
      if !effect.NoPayment? {
        PaymentIsTheDeposit(c, clock, e, s.ledger, deposits);
        OneMorePayment(s.released, s.ledger, effect.payment, deposits, asset);
        OneMorePayment(s.refunded, s.ledger, effect.payment, deposits, asset);
      }
    }
  }
}
