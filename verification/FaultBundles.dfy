/** Fault reconciliation of src/lib/bundle-binding-v1.ts: groups of fault bundles, and groups of mixed versions. */
module FaultBundles {
  import opened ByteStrings
  import opened Primitives
  import opened Bundles
  import opened VerifyBundle
  import opened FaultRules

  // ------------------------------------------------------------------- one copy

  /** What lies at an anchor: an object, or something else. */
  datatype Copy = NotAnObject | Object(bundle: Bundle)

  /** A copy under the role whose address it was published at. */
  datatype Anchored = Anchored(key: string, copy: Copy)

  datatype OutcomeClass = Success | Abort | Failure | Substrate

  function ClassOf(outcome: string): Option<OutcomeClass> {
    if outcome == "completed" then Some(Success)
    else if outcome == "failed-substrate" then Some(Substrate)
    else if outcome == "aborted-by-self" || outcome == "aborted-by-other" then Some(Abort)
    else if outcome == "failed-perm" || outcome == "failed-counterparty" then Some(Failure)
    else None
  }

  /** The fault a legacy copy implies: none, its own anchoring role, or everybody else on the roster. */
  function LegacyFaultSet(b: Bundle, roles: Roster): Option<set<string>> {
    if IsNoneClass(b.outcome) then Some({"none"})
    else if IsSelfClass(b.outcome) then Some({b.anchoredByRole})
    else
      var others := roles.Values - {b.anchoredByRole};
      if others != {} then Some(others) else None
  }

  function ImpliedFaultSet(b: Bundle, roles: Roster): Option<set<string>> {
    if b.outcome !in OUTCOMES || b.anchoredByRole !in ROLES || b.anchoredByRole !in roles.Values then None
    else if IsFaultBundle(b) then
      if FaultedPartyPermitted(b, roles) then Some({b.faultedParty.value}) else None
    else LegacyFaultSet(b, roles)
  }

  datatype Facts = Facts(bundle: Bundle, roles: Roster, faultSet: set<string>, klass: OutcomeClass)

  /** validateFaultCopy */
  function Validate(k: Context, keys: KeyTable, copy: Copy): Option<Facts> {
    if copy.NotAnObject? then None
    else
      var b := copy.bundle;
      match RoleClaims(k, b)
      case None => None
      case Some(roles) =>
        var klass, faults, hash := ClassOf(b.outcome), ImpliedFaultSet(b, roles), ScopeHash(k.c.hash, k.json, b);
        if klass.None? || faults.None? || hash.None? then None
        else if !AllSignFor(k, keys, roles, DomainOf(b), hash.value, b) then None
        else Some(Facts(b, roles, faults.value, klass.value))
  }

  /** The anchoring role is unsigned, so it must be the role of the address. */
  predicate AnchorRoleMismatch(a: Anchored) {
    || a.key !in ROLES
    || a.copy.NotAnObject?
    || a.copy.bundle.anchoredByRole !in ROLES
    || a.copy.bundle.anchoredByRole != a.key
  }

  // ----------------------------------------------------------- the phase-summary limb

  /** By-value key of a phase index: its canonical text; None where it cannot be canonicalised. */
  type IndexKey = int -> Option<string>

  /** Every index has a key and no key repeats. */
  predicate WellKeyed(ik: IndexKey, phases: seq<Phase>) {
    && (forall i :: 0 <= i < |phases| ==> ik(phases[i].index).Some?)
    && (forall i, j :: 0 <= i < j < |phases| ==> ik(phases[i].index) != ik(phases[j].index))
  }

  predicate Contradict(ik: IndexKey, p: Phase, q: Phase) {
    ik(p.index) == ik(q.index) && (p.kind != q.kind || p.outcome != q.outcome)
  }

  predicate PhasesDiverge(ik: IndexKey, a: Bundle, b: Bundle) {
    || !WellKeyed(ik, a.phaseSummary)
    || !WellKeyed(ik, b.phaseSummary)
    || exists i, j :: 0 <= i < |a.phaseSummary| && 0 <= j < |b.phaseSummary|
         && Contradict(ik, a.phaseSummary[i], b.phaseSummary[j])
  }

  /** The first limb of phaseSummaryDiverges: the entries keyed, or None when one must fail closed. */
  method KeyPhases(ik: IndexKey, phases: seq<Phase>) returns (byIndex: Option<map<string, Phase>>)
    ensures byIndex.Some? <==> WellKeyed(ik, phases)
    ensures byIndex.Some? ==> Keys(ik, byIndex.value, phases)
  {
    var result: map<string, Phase> := map[];
    for i := 0 to |phases|
      invariant WellKeyed(ik, phases[..i])
      invariant forall j :: 0 <= j < i ==> ik(phases[j].index).Some? && ik(phases[j].index).value in result
      invariant forall j :: 0 <= j < i ==> result[ik(phases[j].index).value] == phases[j]
      invariant forall key :: key in result ==> exists j :: 0 <= j < i && ik(phases[j].index) == Some(key)
    {
      var key := ik(phases[i].index);
      if key.None? {
        return None;
      }
      if key.value in result {
        return None;
      }
      result := result[key.value := phases[i]];
      assert phases[..i + 1] == phases[..i] + [phases[i]];
    }
    assert phases[..|phases|] == phases;
    byIndex := Some(result);
  }

  /** `byIndex` is what KeyPhases makes of `phases`. */
  ghost predicate Keys(ik: IndexKey, byIndex: map<string, Phase>, phases: seq<Phase>) {
    && (forall key :: key in byIndex <==> exists i :: 0 <= i < |phases| && ik(phases[i].index) == Some(key))
    && (forall i :: 0 <= i < |phases| ==> ik(phases[i].index).Some? && byIndex[ik(phases[i].index).value] == phases[i])
  }

  predicate Clashes(ik: IndexKey, byIndex: map<string, Phase>, p: Phase) {
    && ik(p.index).Some? && ik(p.index).value in byIndex
    && (byIndex[ik(p.index).value].kind != p.kind || byIndex[ik(p.index).value].outcome != p.outcome)
  }

  lemma ClashIsContradiction(ik: IndexKey, byIndex: map<string, Phase>, phases: seq<Phase>, p: Phase)
    requires Keys(ik, byIndex, phases) && ik(p.index).Some?
    ensures Clashes(ik, byIndex, p) <==> exists i :: 0 <= i < |phases| && Contradict(ik, phases[i], p)
  {
    if Clashes(ik, byIndex, p) {
      var i :| 0 <= i < |phases| && ik(phases[i].index) == ik(p.index);
      assert Contradict(ik, phases[i], p);
    }
  }

  method AnyClash(ik: IndexKey, byIndex: map<string, Phase>, pb: seq<Phase>) returns (diverges: bool)
    ensures diverges <==> !WellKeyed(ik, pb) || exists j :: 0 <= j < |pb| && Clashes(ik, byIndex, pb[j])
  {
    var seen: set<string> := {};
    for j := 0 to |pb|
      invariant WellKeyed(ik, pb[..j])
      invariant forall m :: 0 <= m < j ==> ik(pb[m].index).Some? && ik(pb[m].index).value in seen
      invariant forall key :: key in seen ==> exists m :: 0 <= m < j && ik(pb[m].index) == Some(key)
      invariant forall m :: 0 <= m < j ==> !Clashes(ik, byIndex, pb[m])
    {
      var key := ik(pb[j].index);
      if key.None? {
        return true;
      }
      if key.value in seen {
        return true;
      }
      seen := seen + {key.value};
      assert pb[..j + 1] == pb[..j] + [pb[j]];
      if key.value in byIndex
         && (byIndex[key.value].kind != pb[j].kind || byIndex[key.value].outcome != pb[j].outcome) {
        assert Clashes(ik, byIndex, pb[j]);
        return true;
      }
    }
    assert pb[..|pb|] == pb;
    diverges := false;
  }

  method PhaseSummaryDiverges(ik: IndexKey, a: Bundle, b: Bundle) returns (diverges: bool)
    ensures diverges <==> PhasesDiverge(ik, a, b)
  {
    var keyed := KeyPhases(ik, a.phaseSummary);
    if keyed.None? {
      return true;
    }
    diverges := AnyClash(ik, keyed.value, b.phaseSummary);
    if WellKeyed(ik, b.phaseSummary) {
      forall j | 0 <= j < |b.phaseSummary|
        ensures Clashes(ik, keyed.value, b.phaseSummary[j]) <==>
          exists i :: 0 <= i < |a.phaseSummary| && Contradict(ik, a.phaseSummary[i], b.phaseSummary[j])
      {
        ClashIsContradiction(ik, keyed.value, a.phaseSummary, b.phaseSummary[j]);
      }
    }
  }

  lemma PhaseDivergenceIsSymmetric(ik: IndexKey, a: Bundle, b: Bundle)
    ensures PhasesDiverge(ik, a, b) <==> PhasesDiverge(ik, b, a)
  {
    if i, j :|
      0 <= i < |a.phaseSummary| && 0 <= j < |b.phaseSummary| && Contradict(ik, a.phaseSummary[i], b.phaseSummary[j]) {
      assert Contradict(ik, b.phaseSummary[j], a.phaseSummary[i]);
    }
    if j, i :|
      0 <= j < |b.phaseSummary| && 0 <= i < |a.phaseSummary| && Contradict(ik, b.phaseSummary[j], a.phaseSummary[i]) {
      assert Contradict(ik, a.phaseSummary[i], b.phaseSummary[j]);
    }
  }

  // ------------------------------------------------------------- groups of fault bundles

  datatype Resolution = Unified(bundle: Bundle) | Rejected

  /** An anchored copy that may enter a group. */
  predicate Admissible(k: Context, keys: KeyTable, a: Anchored) {
    !AnchorRoleMismatch(a) && Validate(k, keys, a.copy).Some?
  }

  function FactsOf(k: Context, keys: KeyTable, a: Anchored): Facts
    requires Admissible(k, keys, a)
  {
    Validate(k, keys, a.copy).value
  }

  method ParseCopies(k: Context, keys: KeyTable, copies: seq<Anchored>) returns (parsed: Option<seq<Facts>>)
    ensures parsed.Some? <==> forall i :: 0 <= i < |copies| ==> Admissible(k, keys, copies[i])
    ensures parsed.Some? ==> |parsed.value| == |copies|
    ensures parsed.Some? ==> forall i :: 0 <= i < |copies| ==> parsed.value[i] == FactsOf(k, keys, copies[i])
  {
    var result: seq<Facts> := [];
    for i := 0 to |copies|
      invariant |result| == i
      invariant forall j :: 0 <= j < i ==> Admissible(k, keys, copies[j]) && result[j] == FactsOf(k, keys, copies[j])
    {
      if AnchorRoleMismatch(copies[i]) {
        return None;
      }
      var validated := Validate(k, keys, copies[i].copy);
      if validated.None? {
        return None;
      }
      result := result + [validated.value];
    }
    parsed := Some(result);
  }

  /** Two copies a fault-bundle group may hold together. */
  predicate Concur(ik: IndexKey, x: Facts, y: Facts) {
    x.klass == y.klass && x.faultSet == y.faultSet && !PhasesDiverge(ik, x.bundle, y.bundle)
  }

  method AllConcur(ik: IndexKey, facts: seq<Facts>) returns (ok: bool)
    requires |facts| > 0
    ensures ok <==> forall i :: 0 < i < |facts| ==> Concur(ik, facts[0], facts[i])
  {
    for i := 1 to |facts|
      invariant forall j :: 0 < j < i ==> Concur(ik, facts[0], facts[j])
    {
      if facts[i].klass != facts[0].klass {
        return false;
      }
      if facts[i].faultSet != facts[0].faultSet {
        return false;
      }
      var diverges := PhaseSummaryDiverges(ik, facts[0].bundle, facts[i].bundle);
      if diverges {
        return false;
      }
    }
    ok := true;
  }

  /** Every copy is admissible and concurs with the first. */
  predicate Converges(k: Context, keys: KeyTable, ik: IndexKey, copies: seq<Anchored>) {
    && |copies| > 0
    && (forall i :: 0 <= i < |copies| ==> Admissible(k, keys, copies[i]))
    && (forall i :: 0 < i < |copies| ==> Concur(ik, FactsOf(k, keys, copies[0]), FactsOf(k, keys, copies[i])))
  }

  method ResolveFaultBundlePair(k: Context, keys: KeyTable, ik: IndexKey, copies: seq<Anchored>) returns (r: Resolution)
    ensures r.Unified? <==> Converges(k, keys, ik, copies)
    ensures r.Unified? ==> r.bundle == copies[0].copy.bundle
  {
    var parsed := ParseCopies(k, keys, copies);
    if parsed.None? || |copies| == 0 {
      return Rejected;
    }
    var facts := parsed.value;
    if |facts| == 1 {
      return Unified(facts[0].bundle);
    }
    var concur := AllConcur(ik, facts);
    r := if concur then Unified(facts[0].bundle) else Rejected;
  }

  /**
   * A converging group of any size has one outcome class and one fault set; its fault bundles all name one
   * permitted faulted party, which is the whole fault set of every other copy too.
   */
  lemma ConvergingGroupHasOneFault(k: Context, keys: KeyTable, ik: IndexKey, copies: seq<Anchored>, i: nat, j: nat)
    requires Converges(k, keys, ik, copies) && i < |copies| && j < |copies|
    ensures FactsOf(k, keys, copies[i]).klass == FactsOf(k, keys, copies[j]).klass
    ensures FactsOf(k, keys, copies[i]).faultSet == FactsOf(k, keys, copies[j]).faultSet
    ensures IsFaultBundle(copies[i].copy.bundle) ==>
      && copies[i].copy.bundle.faultedParty.Some?
      && FactsOf(k, keys, copies[j]).faultSet == {copies[i].copy.bundle.faultedParty.value}
    ensures IsFaultBundle(copies[i].copy.bundle) && IsFaultBundle(copies[j].copy.bundle) ==>
      copies[i].copy.bundle.faultedParty == copies[j].copy.bundle.faultedParty
  {
    var first, x, y := FactsOf(k, keys, copies[0]), FactsOf(k, keys, copies[i]), FactsOf(k, keys, copies[j]);
    assert i == 0 || Concur(ik, first, x);
    assert j == 0 || Concur(ik, first, y);
    FactsAreImplied(k, keys, copies[i]);
    FactsAreImplied(k, keys, copies[j]);
    if IsFaultBundle(copies[i].copy.bundle) && IsFaultBundle(copies[j].copy.bundle) {
      assert copies[i].copy.bundle.faultedParty.value in y.faultSet;
    }
  }

  lemma FactsAreImplied(k: Context, keys: KeyTable, a: Anchored)
    requires Admissible(k, keys, a)
    ensures var f := FactsOf(k, keys, a);
      && f.bundle == a.copy.bundle && RoleClaims(k, f.bundle) == Some(f.roles)
      && ImpliedFaultSet(f.bundle, f.roles) == Some(f.faultSet) && ClassOf(f.bundle.outcome) == Some(f.klass)
      && f.bundle.anchoredByRole == a.key && a.key in f.roles.Values && f.bundle.outcome in OUTCOMES
      && (IsFaultBundle(f.bundle) ==> f.bundle.faultedParty.Some? && f.faultSet == {f.bundle.faultedParty.value})
  {
  }

  // ----------------------------------------------------------- groups of mixed versions

  predicate Reconcile(ik: IndexKey, x: Facts, y: Facts) {
    x.klass == y.klass && x.faultSet * y.faultSet != {} && !PhasesDiverge(ik, x.bundle, y.bundle)
  }

  method AllReconcile(ik: IndexKey, facts: seq<Facts>) returns (ok: bool)
    requires |facts| > 0
    ensures ok <==> forall i :: 0 < i < |facts| ==> Reconcile(ik, facts[0], facts[i])
  {
    for i := 1 to |facts|
      invariant forall j :: 0 < j < i ==> Reconcile(ik, facts[0], facts[j])
    {
      if facts[i].klass != facts[0].klass {
        return false;
      }
      if facts[0].faultSet * facts[i].faultSet == {} {
        return false;
      }
      var diverges := PhaseSummaryDiverges(ik, facts[0].bundle, facts[i].bundle);
      if diverges {
        return false;
      }
    }
    ok := true;
  }

  predicate Reconciles(k: Context, keys: KeyTable, ik: IndexKey, copies: seq<Anchored>) {
    && |copies| >= 2
    && (forall i :: 0 <= i < |copies| ==> Admissible(k, keys, copies[i]))
    && (forall i :: 0 < i < |copies| ==> Reconcile(ik, FactsOf(k, keys, copies[0]), FactsOf(k, keys, copies[i])))
  }

  /** The copy a unified group is derived from: the first plain fault bundle, else the first copy. */
  function Authoritative(copies: seq<Anchored>): Bundle
    requires |copies| > 0 && forall i :: 0 <= i < |copies| ==> copies[i].copy.Object?
  {
    if exists i :: 0 <= i < |copies| && HasFault(copies[i].copy.bundle) then FirstFaultBundle(copies)
    else copies[0].copy.bundle
  }

  function FirstFaultBundle(copies: seq<Anchored>): (b: Bundle)
    requires forall i :: 0 <= i < |copies| ==> copies[i].copy.Object?
    requires exists i :: 0 <= i < |copies| && HasFault(copies[i].copy.bundle)
    ensures HasFault(b)
  {
    if HasFault(copies[0].copy.bundle) then copies[0].copy.bundle
    else
      var i :| 0 <= i < |copies| && HasFault(copies[i].copy.bundle);
      assert copies[1..][i - 1] == copies[i];
      FirstFaultBundle(copies[1..])
  }

  method ResolveMixedVersionPair(k: Context, keys: KeyTable, ik: IndexKey, copies: seq<Anchored>)
    returns (r: Resolution)
    ensures r.Unified? <==> Reconciles(k, keys, ik, copies)
    ensures r.Unified? ==> r.bundle == Authoritative(copies)
  {
    var parsed := ParseCopies(k, keys, copies);
    if parsed.None? {
      return Rejected;
    }
    var facts := parsed.value;
    if |facts| < 2 {
      return Rejected;
    }
    var reconcile := AllReconcile(ik, facts);
    if !reconcile {
      return Rejected;
    }
    var bundle := SelectAuthoritative(copies, facts);
    r := Unified(bundle);
  }

  method SelectAuthoritative(copies: seq<Anchored>, facts: seq<Facts>) returns (bundle: Bundle)
    requires |facts| == |copies| > 0
    requires forall i :: 0 <= i < |copies| ==> copies[i].copy == Object(facts[i].bundle)
    ensures bundle == Authoritative(copies)
  {
    for i := 0 to |facts|
      invariant forall j :: 0 <= j < i ==> !HasFault(facts[j].bundle)
    {
      if HasFault(facts[i].bundle) {
        FirstFaultBundleAt(copies, i);
        return facts[i].bundle;
      }
    }
    bundle := facts[0].bundle;
  }

  lemma {:induction false} FirstFaultBundleAt(copies: seq<Anchored>, i: nat)
    requires i < |copies| && forall j :: 0 <= j < |copies| ==> copies[j].copy.Object?
    requires HasFault(copies[i].copy.bundle)
    requires forall j :: 0 <= j < i ==> !HasFault(copies[j].copy.bundle)
    ensures FirstFaultBundle(copies) == copies[i].copy.bundle
  {
    if i > 0 {
      assert copies[1..][i - 1] == copies[i];
      FirstFaultBundleAt(copies[1..], i - 1);
    }
  }

  // --------------------------------------------------------------- buyer and seller

  /** A roster of buyer and seller, and nobody else. */
  predicate TwoParties(roles: Roster) {
    roles.Values == {"buyer", "seller"}
  }

  /** With two parties an explicit fault is exactly the one a legacy copy of the same side would imply. */
  lemma ExplicitFaultIsTheLegacyFault(b: Bundle, roles: Roster)
    requires TwoParties(roles) && IsFaultBundle(b)
    ensures FaultedPartyPermitted(b, roles) ==>
      ImpliedFaultSet(b, roles) == ImpliedFaultSet(b.(version := BUNDLE_V1, faultedParty := None), roles)
      && LegacyFaultSet(b, roles) == Some({b.faultedParty.value})
  {
    assert "buyer"[0] != "seller"[0];
    if FaultedPartyPermitted(b, roles) {
      var other := OtherParty(b.anchoredByRole);
      if !IsNoneClass(b.outcome) && !IsSelfClass(b.outcome) {
        assert b.faultedParty.value in {"buyer", "seller"} - {b.anchoredByRole};
      }
    }
  }

  lemma OtherParty(role: string) returns (other: string)
    requires role in {"buyer", "seller"}
    ensures other in {"buyer", "seller"} && {"buyer", "seller"} - {role} == {other}
  {
    assert "buyer"[0] != "seller"[0];
    other := if role == "buyer" then "seller" else "buyer";
  }

  /** With two parties every admissible copy implies exactly one fault. */
  lemma FaultIsSingle(k: Context, keys: KeyTable, a: Anchored) returns (fault: string)
    requires Admissible(k, keys, a) && TwoParties(FactsOf(k, keys, a).roles)
    ensures FactsOf(k, keys, a).faultSet == {fault}
    ensures !IsFaultBundle(a.copy.bundle) || a.copy.bundle.faultedParty == Some(fault)
  {
    FactsAreImplied(k, keys, a);
    var f := FactsOf(k, keys, a);
    var b := f.bundle;
    if IsFaultBundle(b) {
      fault := b.faultedParty.value;
    } else if IsNoneClass(b.outcome) {
      fault := "none";
    } else if IsSelfClass(b.outcome) {
      fault := b.anchoredByRole;
    } else {
      fault := OtherParty(b.anchoredByRole);
    }
  }

  /**
   * Two copies of a buyer-and-seller session, whatever their versions, unify exactly when class, absolute fault
   * and shared phases agree; the order they are listed in does not matter.
   */
  lemma TwoCopiesUnifyExactlyWhenTheyAgree(k: Context, keys: KeyTable, ik: IndexKey, x: Anchored, y: Anchored)
    requires Admissible(k, keys, x) && TwoParties(FactsOf(k, keys, x).roles)
    requires Admissible(k, keys, y) && TwoParties(FactsOf(k, keys, y).roles)
    ensures Reconciles(k, keys, ik, [x, y]) <==> Concur(ik, FactsOf(k, keys, x), FactsOf(k, keys, y))
    ensures Reconciles(k, keys, ik, [x, y]) <==> Reconciles(k, keys, ik, [y, x])
    ensures Reconciles(k, keys, ik, [x, y]) <==> Converges(k, keys, ik, [x, y])
  {
    var fx, fy := FactsOf(k, keys, x), FactsOf(k, keys, y);
    var xFault := FaultIsSingle(k, keys, x);
    var yFault := FaultIsSingle(k, keys, y);
    SingletonsMeet(xFault, yFault);
    PhaseDivergenceIsSymmetric(ik, fx.bundle, fy.bundle);
    assert [x, y][0] == x && [x, y][1] == y && [y, x][0] == y && [y, x][1] == x;
    PairReconciles(k, keys, ik, x, y);
    PairReconciles(k, keys, ik, y, x);
    PairConverges(k, keys, ik, x, y);
  }

  lemma SingletonsMeet(x: string, y: string)
    ensures {x} * {y} != {} <==> x == y
    ensures {x} == {y} <==> x == y
  {
    assert x in {x} && y in {y};
    if x == y {
      assert x in {x} * {y};
    } else {
      assert {x} * {y} == {};
    }
  }

  lemma PairReconciles(k: Context, keys: KeyTable, ik: IndexKey, x: Anchored, y: Anchored)
    requires Admissible(k, keys, x) && Admissible(k, keys, y)
    ensures Reconciles(k, keys, ik, [x, y]) <==> Reconcile(ik, FactsOf(k, keys, x), FactsOf(k, keys, y))
  {
    var copies := [x, y];
    assert copies[0] == x && copies[1] == y;
  }

  lemma PairConverges(k: Context, keys: KeyTable, ik: IndexKey, x: Anchored, y: Anchored)
    requires Admissible(k, keys, x) && Admissible(k, keys, y)
    ensures Converges(k, keys, ik, [x, y]) <==> Concur(ik, FactsOf(k, keys, x), FactsOf(k, keys, y))
  {
    var copies := [x, y];
    assert copies[0] == x && copies[1] == y;
  }

  // ------------------------------------------------ what comparing with the first leaves open

  predicate Lists(ik: IndexKey, b: Bundle, p: Phase) {
    exists n :: 0 <= n < |b.phaseSummary| && ik(b.phaseSummary[n].index) == ik(p.index)
  }

  /** `a` and `b` do not contradict each other on the indices that `first` leaves out. */
  predicate AgreeBeyond(ik: IndexKey, first: Bundle, a: Bundle, b: Bundle) {
    forall i, j :: 0 <= i < |a.phaseSummary| && 0 <= j < |b.phaseSummary| && !Lists(ik, first, a.phaseSummary[i]) ==>
      !Contradict(ik, a.phaseSummary[i], b.phaseSummary[j])
  }

  lemma PhasesAgreeBeyond(ik: IndexKey, first: Bundle, a: Bundle, b: Bundle)
    requires !PhasesDiverge(ik, first, a) && !PhasesDiverge(ik, first, b)
    ensures !PhasesDiverge(ik, a, b) <==> AgreeBeyond(ik, first, a, b)
  {
    if AgreeBeyond(ik, first, a, b) {
      forall i, j | 0 <= i < |a.phaseSummary| && 0 <= j < |b.phaseSummary|
        ensures !Contradict(ik, a.phaseSummary[i], b.phaseSummary[j])
      {
        if Lists(ik, first, a.phaseSummary[i]) {
          var n :| 0 <= n < |first.phaseSummary| && ik(first.phaseSummary[n].index) == ik(a.phaseSummary[i].index);
          assert !Contradict(ik, first.phaseSummary[n], a.phaseSummary[i]);
          assert !Contradict(ik, first.phaseSummary[n], b.phaseSummary[j]);
        }
      }
    }
  }

  /**
   * A converging group is compared with its first copy only.  Exactly when all its copies concur with each other: any
   * two later ones agree on the indices that the first leaves out.
   */
  lemma CopiesConcurPairwiseExactlyWhen(k: Context, keys: KeyTable, ik: IndexKey, copies: seq<Anchored>)
    requires Converges(k, keys, ik, copies)
    ensures
      (forall i, j :: 0 <= i < j < |copies| ==>
        Concur(ik, FactsOf(k, keys, copies[i]), FactsOf(k, keys, copies[j]))) <==>
      (forall i, j :: 0 < i < j < |copies| ==>
        AgreeBeyond(ik, FactsOf(k, keys, copies[0]).bundle, FactsOf(k, keys, copies[i]).bundle,
          FactsOf(k, keys, copies[j]).bundle))
  {
    var first := FactsOf(k, keys, copies[0]);
    forall i, j | 0 < i < j < |copies|
      ensures Concur(ik, FactsOf(k, keys, copies[i]), FactsOf(k, keys, copies[j])) <==>
        AgreeBeyond(ik, first.bundle, FactsOf(k, keys, copies[i]).bundle, FactsOf(k, keys, copies[j]).bundle)
    {
      assert Concur(ik, first, FactsOf(k, keys, copies[i])) && Concur(ik, first, FactsOf(k, keys, copies[j]));
      PhasesAgreeBeyond(ik, first.bundle, FactsOf(k, keys, copies[i]).bundle, FactsOf(k, keys, copies[j]).bundle);
    }
  }

  /**
   * The same for a reconciling group of mixed versions, whose legacy copies may leave several faults open: later copies
   * must also have a fault in common, which each having one with the first does not give.
   */
  lemma CopiesReconcilePairwiseExactlyWhen(k: Context, keys: KeyTable, ik: IndexKey, copies: seq<Anchored>)
    requires Reconciles(k, keys, ik, copies)
    ensures
      (forall i, j :: 0 <= i < j < |copies| ==>
        Reconcile(ik, FactsOf(k, keys, copies[i]), FactsOf(k, keys, copies[j]))) <==>
      (forall i, j :: 0 < i < j < |copies| ==>
        SharesFaultBeyond(ik, FactsOf(k, keys, copies[0]), FactsOf(k, keys, copies[i]), FactsOf(k, keys, copies[j])))
  {
    var first := FactsOf(k, keys, copies[0]);
    forall i, j | 0 < i < j < |copies|
      ensures Reconcile(ik, FactsOf(k, keys, copies[i]), FactsOf(k, keys, copies[j])) <==>
        SharesFaultBeyond(ik, first, FactsOf(k, keys, copies[i]), FactsOf(k, keys, copies[j]))
    {
      assert Reconcile(ik, first, FactsOf(k, keys, copies[i])) && Reconcile(ik, first, FactsOf(k, keys, copies[j]));
      PhasesAgreeBeyond(ik, first.bundle, FactsOf(k, keys, copies[i]).bundle, FactsOf(k, keys, copies[j]).bundle);
    }
  }

  predicate SharesFaultBeyond(ik: IndexKey, first: Facts, x: Facts, y: Facts) {
    x.faultSet * y.faultSet != {} && AgreeBeyond(ik, first.bundle, x.bundle, y.bundle)
  }

  // -------------------------------------------------- which copy a unified group names

  /**
   * Exactly when a unified group of any size is derived from a fault bundle: some copy is a plain one, or the first
   * copy happens to be a fault bundle.  Evidence-bound fault bundles further down are passed over.
   */
  lemma UnifiedBundleIsAFaultBundleExactlyWhen(k: Context, keys: KeyTable, ik: IndexKey, copies: seq<Anchored>)
    requires Reconciles(k, keys, ik, copies)
    ensures IsFaultBundle(Authoritative(copies)) <==>
      (exists i :: 0 <= i < |copies| && HasFault(copies[i].copy.bundle)) || IsFaultBundle(copies[0].copy.bundle)
    ensures exists i :: 0 <= i < |copies| && Authoritative(copies) == copies[i].copy.bundle
  {
    if exists i :: 0 <= i < |copies| && HasFault(copies[i].copy.bundle) {
      var i := FirstWithFault(copies);
      FirstFaultBundleAt(copies, i);
    }
  }

  lemma {:induction false} FirstWithFault(copies: seq<Anchored>) returns (i: nat)
    requires forall j :: 0 <= j < |copies| ==> copies[j].copy.Object?
    requires exists j :: 0 <= j < |copies| && HasFault(copies[j].copy.bundle)
    ensures i < |copies| && HasFault(copies[i].copy.bundle)
    ensures forall j :: 0 <= j < i ==> !HasFault(copies[j].copy.bundle)
  {
    i := 0;
    while !HasFault(copies[i].copy.bundle)
      invariant i < |copies| && forall j :: 0 <= j < i ==> !HasFault(copies[j].copy.bundle)
      decreases |copies| - i
    {
      i := i + 1;
    }
  }

  /** One completed session, and one roster member whose key the resolver knows. */
  ghost predicate Preparable(k: Context, keys: KeyTable, ik: IndexKey, u: Bundle, s: Signer) {
    && Works(k) && (forall scope :: k.json.scope(scope).Some?)
    && u.outcome == "completed" && WellKeyed(ik, u.phaseSummary)
    && RoleClaims(k, u).Some?
    && "buyer" in RoleClaims(k, u).value.Values && "seller" in RoleClaims(k, u).value.Values
    && k.id.claimKey(s.party).Some? && k.id.claimKey(s.party).value in RoleClaims(k, u).value
    && keys(s.party) == Some(k.c.publicKey(s.privKey))
  }

  /** The session's copy at `role`'s address, signed under the domain of its version. */
  function SignedCopy(k: Context, b: Bundle, s: Signer): Bundle
    requires ScopeHash(k.c.hash, k.json, b).Some?
  {
    var hash := ScopeHash(k.c.hash, k.json, b).value;
    b.(signatures :=
      [Signature(s.party, "ed25519", k.encodeSignature(k.c.sign(DomainOf(b), k.c.utf8(hash), s.privKey)))])
  }

  lemma SignedCopySigns(k: Context, keys: KeyTable, b: Bundle, s: Signer, roles: Roster)
    requires Works(k) && ScopeHash(k.c.hash, k.json, b).Some?
    requires k.id.claimKey(s.party).Some? && k.id.claimKey(s.party).value in roles
    requires keys(s.party) == Some(k.c.publicKey(s.privKey))
    ensures AllSignFor(k, keys, roles, DomainOf(b), ScopeHash(k.c.hash, k.json, b).value, SignedCopy(k, b, s))
  {
    var hash := ScopeHash(k.c.hash, k.json, b).value;
    var raw := k.c.sign(DomainOf(b), k.c.utf8(hash), s.privKey);
    assert |raw| == 64 && k.decodeSignature(k.encodeSignature(raw)) == Some(raw);
    assert k.c.verify(DomainOf(b), raw, k.c.utf8(hash), k.c.publicKey(s.privKey));
  }

  lemma CompletionHasNoFault(b: Bundle, roles: Roster)
    requires b.outcome == "completed" && b.anchoredByRole in ROLES && b.anchoredByRole in roles.Values
    requires IsFaultBundle(b) ==> b.faultedParty == Some("none")
    ensures ImpliedFaultSet(b, roles) == Some({"none"}) && ClassOf(b.outcome) == Some(Success)
  {
  }

  lemma ValidCopyIsAdmissible(k: Context, keys: KeyTable, b: Bundle, roles: Roster, faults: set<string>,
                              klass: OutcomeClass, hash: string)
    requires RoleClaims(k, b) == Some(roles)
    requires ImpliedFaultSet(b, roles) == Some(faults) && ClassOf(b.outcome) == Some(klass)
    requires ScopeHash(k.c.hash, k.json, b) == Some(hash) && AllSignFor(k, keys, roles, DomainOf(b), hash, b)
    ensures Admissible(k, keys, Anchored(b.anchoredByRole, Object(b)))
    ensures FactsOf(k, keys, Anchored(b.anchoredByRole, Object(b))) == Facts(b, roles, faults, klass)
  {
  }

  /** What a copy of the session may vary in. */
  predicate IsSide(u: Bundle, b: Bundle) {
    && b == u.(version := b.version, anchoredByRole := b.anchoredByRole, faultedParty := b.faultedParty,
               phaseSummary := b.phaseSummary)
    && b.anchoredByRole in ROLES
    && (b.version == BUNDLE_V1 || (b.version == EVIDENCE_BOUND_FAULT_BUNDLE_V1 && b.faultedParty == Some("none")))
  }

  lemma SignedCopyIsAdmissible(k: Context, keys: KeyTable, ik: IndexKey, u: Bundle, s: Signer, b: Bundle)
    requires Preparable(k, keys, ik, u, s) && IsSide(u, b) && b.anchoredByRole in RoleClaims(k, u).value.Values
    ensures ScopeHash(k.c.hash, k.json, b).Some?
    ensures var a := Anchored(b.anchoredByRole, Object(SignedCopy(k, b, s)));
      Admissible(k, keys, a) && FactsOf(k, keys, a).klass == Success && FactsOf(k, keys, a).faultSet == {"none"}
  {
    var roles, copy := RoleClaims(k, u).value, SignedCopy(k, b, s);
    var hash := ScopeHash(k.c.hash, k.json, b).value;
    CopiesShareScope(k.c.hash, k.json, b, copy);
    SignedCopySigns(k, keys, b, s, roles);
    SameRoster(k, u, copy);
    CompletionHasNoFault(copy, roles);
    ValidCopyIsAdmissible(k, keys, copy, roles, {"none"}, Success, hash);
  }

  lemma SameRoster(k: Context, a: Bundle, b: Bundle)
    requires a.parties == b.parties
    ensures RoleClaims(k, a) == RoleClaims(k, b)
  {
  }

  lemma SamePhasesAgree(ik: IndexKey, a: Bundle, b: Bundle)
    requires WellKeyed(ik, a.phaseSummary) && a.phaseSummary == b.phaseSummary
    ensures !PhasesDiverge(ik, a, b)
  {
    forall i, j | 0 <= i < |a.phaseSummary| && 0 <= j < |a.phaseSummary|
      ensures !Contradict(ik, a.phaseSummary[i], a.phaseSummary[j])
    {
      assert i < j ==> ik(a.phaseSummary[i].index) != ik(a.phaseSummary[j].index);
      assert j < i ==> ik(a.phaseSummary[j].index) != ik(a.phaseSummary[i].index);
    }
  }

  /**
   * It does happen: for every such session there is a legacy copy and an evidence-bound fault bundle that unify, and
   * whichever is listed first is the result.
   */
  lemma EvidenceBoundCopyIsPassedOver(k: Context, keys: KeyTable, ik: IndexKey, u: Bundle, s: Signer)
    returns (legacy: Anchored, fault: Anchored)
    requires Preparable(k, keys, ik, u, s)
    ensures legacy.copy.Object? && fault.copy.Object?
    ensures Reconciles(k, keys, ik, [legacy, fault]) && Reconciles(k, keys, ik, [fault, legacy])
    ensures IsFaultBundle(fault.copy.bundle) && !IsFaultBundle(legacy.copy.bundle)
    ensures Authoritative([legacy, fault]) == legacy.copy.bundle && Authoritative([fault, legacy]) == fault.copy.bundle
  {
    var plain := u.(version := BUNDLE_V1, anchoredByRole := "buyer", faultedParty := None);
    var bound :=
      u.(version := EVIDENCE_BOUND_FAULT_BUNDLE_V1, anchoredByRole := "seller", faultedParty := Some("none"));
    SignedCopyIsAdmissible(k, keys, ik, u, s, plain);
    SignedCopyIsAdmissible(k, keys, ik, u, s, bound);
    legacy := Anchored("buyer", Object(SignedCopy(k, plain, s)));
    fault := Anchored("seller", Object(SignedCopy(k, bound, s)));
    SamePhasesAgree(ik, legacy.copy.bundle, fault.copy.bundle);
    SamePhasesAgree(ik, fault.copy.bundle, legacy.copy.bundle);
    FactsAreImplied(k, keys, legacy);
    FactsAreImplied(k, keys, fault);
    SingletonsMeet("none", "none");
    PairReconciles(k, keys, ik, legacy, fault);
    PairReconciles(k, keys, ik, fault, legacy);
    PairNamesFirst(legacy, fault);
    PairNamesFirst(fault, legacy);
  }

  lemma PairNamesFirst(x: Anchored, y: Anchored)
    requires x.copy.Object? && y.copy.Object? && !HasFault(x.copy.bundle) && !HasFault(y.copy.bundle)
    ensures Authoritative([x, y]) == x.copy.bundle
  {
    var copies := [x, y];
    assert copies[0] == x && copies[1] == y;
  }

  predicate IsCompletedCopy(k: Context, keys: KeyTable, a: Anchored) {
    Admissible(k, keys, a) && FactsOf(k, keys, a).klass == Success && FactsOf(k, keys, a).faultSet == {"none"}
  }

  /** Copies of completed sessions go together by their phases alone. */
  lemma CompletedCopiesGoByPhases(k: Context, keys: KeyTable, ik: IndexKey, x: Anchored, y: Anchored)
    requires IsCompletedCopy(k, keys, x) && IsCompletedCopy(k, keys, y)
    ensures x.copy.Object? && y.copy.Object?
    ensures Reconcile(ik, FactsOf(k, keys, x), FactsOf(k, keys, y)) <==>
      !PhasesDiverge(ik, x.copy.bundle, y.copy.bundle)
    ensures Concur(ik, FactsOf(k, keys, x), FactsOf(k, keys, y)) <==> !PhasesDiverge(ik, x.copy.bundle, y.copy.bundle)
  {
    SingletonsMeet("none", "none");
    FactsAreImplied(k, keys, x);
    FactsAreImplied(k, keys, y);
  }

  lemma CompletedTriplesGoByPhases(k: Context, keys: KeyTable, ik: IndexKey, x: Anchored, y: Anchored, z: Anchored)
    requires IsCompletedCopy(k, keys, x) && IsCompletedCopy(k, keys, y) && IsCompletedCopy(k, keys, z)
    ensures x.copy.Object? && y.copy.Object? && z.copy.Object?
    ensures Reconciles(k, keys, ik, [x, y, z]) <==>
      !PhasesDiverge(ik, x.copy.bundle, y.copy.bundle) && !PhasesDiverge(ik, x.copy.bundle, z.copy.bundle)
    ensures Converges(k, keys, ik, [x, y, z]) <==>
      !PhasesDiverge(ik, x.copy.bundle, y.copy.bundle) && !PhasesDiverge(ik, x.copy.bundle, z.copy.bundle)
  {
    CompletedCopiesGoByPhases(k, keys, ik, x, y);
    CompletedCopiesGoByPhases(k, keys, ik, x, z);
    TripleReconciles(k, keys, ik, x, y, z);
    TripleConverges(k, keys, ik, x, y, z);
  }

  lemma LaterOfThree(keep: Anchored -> bool, x: Anchored, y: Anchored, z: Anchored)
    ensures (forall i :: 0 < i < 3 ==> keep([x, y, z][i])) <==> keep(y) && keep(z)
  {
    assert [x, y, z][1] == y && [x, y, z][2] == z;
  }

  lemma TripleReconciles(k: Context, keys: KeyTable, ik: IndexKey, x: Anchored, y: Anchored, z: Anchored)
    requires Admissible(k, keys, x) && Admissible(k, keys, y) && Admissible(k, keys, z)
    ensures Reconciles(k, keys, ik, [x, y, z]) <==>
      && Reconcile(ik, FactsOf(k, keys, x), FactsOf(k, keys, y))
      && Reconcile(ik, FactsOf(k, keys, x), FactsOf(k, keys, z))
  {
    LaterOfThree(a => Admissible(k, keys, a) && Reconcile(ik, FactsOf(k, keys, x), FactsOf(k, keys, a)), x, y, z);
  }

  lemma TripleConverges(k: Context, keys: KeyTable, ik: IndexKey, x: Anchored, y: Anchored, z: Anchored)
    requires Admissible(k, keys, x) && Admissible(k, keys, y) && Admissible(k, keys, z)
    ensures Converges(k, keys, ik, [x, y, z]) <==>
      && Concur(ik, FactsOf(k, keys, x), FactsOf(k, keys, y))
      && Concur(ik, FactsOf(k, keys, x), FactsOf(k, keys, z))
  {
    var first := FactsOf(k, keys, x);
    LaterOfThree(a => Admissible(k, keys, a) && Concur(ik, first, FactsOf(k, keys, a)), x, y, z);
  }

  /** The side of a completed session that is published with these phases. */
  lemma SideOf(k: Context, keys: KeyTable, ik: IndexKey, u: Bundle, s: Signer, role: string, phases: seq<Phase>)
    returns (a: Anchored)
    requires Preparable(k, keys, ik, u, s) && role in ROLES && role in RoleClaims(k, u).value.Values
    ensures a.key == role && a.copy.Object? && a.copy.bundle.phaseSummary == phases && IsCompletedCopy(k, keys, a)
  {
    var b := u.(version := BUNDLE_V1, anchoredByRole := role, faultedParty := None, phaseSummary := phases);
    SignedCopyIsAdmissible(k, keys, ik, u, s, b);
    a := Anchored(role, Object(SignedCopy(k, b, s)));
  }

  lemma OneClash(ik: IndexKey, x: Bundle, y: Bundle, z: Bundle, p: Phase, q: Phase)
    requires ik(p.index).Some? && Contradict(ik, p, q)
    requires x.phaseSummary == [] && y.phaseSummary == [p] && z.phaseSummary == [q]
    ensures !PhasesDiverge(ik, x, y) && !PhasesDiverge(ik, x, z) && !PhasesDiverge(ik, y, x) && PhasesDiverge(ik, y, z)
  {
    assert Contradict(ik, y.phaseSummary[0], z.phaseSummary[0]);
  }

  /**
   * It does happen that later copies disagree: in every completed session of three parties, a first copy that leaves
   * an index out unites a group whose other two contradict each other there, and that is refused in another order.
   */
  lemma FirstCopyHidesADisagreement(k: Context, keys: KeyTable, ik: IndexKey, u: Bundle, s: Signer, p: Phase, q: Phase)
    returns (x: Anchored, y: Anchored, z: Anchored)
    requires Preparable(k, keys, ik, u, s) && "orchestrator" in RoleClaims(k, u).value.Values
    requires ik(p.index).Some? && Contradict(ik, p, q)
    ensures x.key == "buyer" && y.key == "seller" && z.key == "orchestrator"
    ensures Reconciles(k, keys, ik, [x, y, z]) && Converges(k, keys, ik, [x, y, z])
    ensures !Reconciles(k, keys, ik, [y, x, z]) && !Converges(k, keys, ik, [y, x, z])
  {
    x := SideOf(k, keys, ik, u, s, "buyer", []);
    y := SideOf(k, keys, ik, u, s, "seller", [p]);
    z := SideOf(k, keys, ik, u, s, "orchestrator", [q]);
    OneClash(ik, x.copy.bundle, y.copy.bundle, z.copy.bundle, p, q);
    CompletedTriplesGoByPhases(k, keys, ik, x, y, z);
    CompletedTriplesGoByPhases(k, keys, ik, y, x, z);
  }

  // ------------------------------------------------------------- the rules, spelled out

  /** Completed, failed for the substrate, aborted by either, or failed by either. */
  predicate SameClass(x: string, y: string) {
    || (x == y && (x == "completed" || x == "failed-substrate"))
    || (x in {"aborted-by-self", "aborted-by-other"} && y in {"aborted-by-self", "aborted-by-other"})
    || (x in {"failed-perm", "failed-counterparty"} && y in {"failed-perm", "failed-counterparty"})
  }

  lemma ClassesSpelled(x: string, y: string)
    ensures ClassOf(x).Some? <==> IsAnOutcome(x)
    ensures ClassOf(x).Some? && ClassOf(x) == ClassOf(y) <==> SameClass(x, y)
  {
  }

  /** Whom a copy blames: the party its fault version names, or else all that its outcome leaves open. */
  ghost predicate Blames(b: Bundle, roles: Roster, party: string) {
    if b.version.fault.Some? || b.version.evidenceBound.Some? then b.faultedParty == Some(party)
    else MayBlame(b, roles, party)
  }

  /**
   * A copy that may enter a group: published by the role it declares, with a roster that has this role, signed over its
   * scope by rostered keys, and blaming somebody its outcome allows.
   */
  ghost predicate IsGoodCopy(k: Context, keys: KeyTable, a: Anchored) {
    && IsARole(a.key) && a.copy.Object? && a.copy.bundle.anchoredByRole == a.key
    && RoleClaims(k, a.copy.bundle).Some?
    && IsAnOutcome(a.copy.bundle.outcome) && a.key in RoleClaims(k, a.copy.bundle).value.Values
    && k.json.scope(ScopeOf(a.copy.bundle)).Some? && a.copy.bundle.signatures != []
    && (forall i :: 0 <= i < |a.copy.bundle.signatures| ==>
          VerifiesFor(k, keys, RoleClaims(k, a.copy.bundle).value, SigningDomain(a.copy.bundle),
                      BytesToHex(k.c.hash(k.json.scope(ScopeOf(a.copy.bundle)).value)), a.copy.bundle.signatures[i]))
    && (exists party :: Blames(a.copy.bundle, RoleClaims(k, a.copy.bundle).value, party))
    && (forall party :: Blames(a.copy.bundle, RoleClaims(k, a.copy.bundle).value, party) ==>
          MayBlame(a.copy.bundle, RoleClaims(k, a.copy.bundle).value, party))
  }

  lemma BlameSpelled(b: Bundle, roles: Roster)
    requires IsAnOutcome(b.outcome) && IsARole(b.anchoredByRole) && b.anchoredByRole in roles.Values
    requires forall role :: role in roles.Values ==> role != "none"
    ensures ImpliedFaultSet(b, roles).Some? <==>
      && (exists party :: Blames(b, roles, party))
      && (forall party :: Blames(b, roles, party) ==> MayBlame(b, roles, party))
    ensures ImpliedFaultSet(b, roles).Some? ==>
      forall party :: party in ImpliedFaultSet(b, roles).value <==> Blames(b, roles, party)
  {
    PermissionSpelled(b, roles);
    if IsFaultBundle(b) {
      if b.faultedParty.Some? { assert Blames(b, roles, b.faultedParty.value); }
    } else {
      LegacyBlameSpelled(b, roles);
      forall party ensures Blames(b, roles, party) <==> MayBlame(b, roles, party) {
      }
    }
  }

  lemma LegacyBlameSpelled(b: Bundle, roles: Roster)
    requires IsAnOutcome(b.outcome)
    requires forall role :: role in roles.Values ==> role != "none"
    ensures LegacyFaultSet(b, roles).Some? <==> exists party :: MayBlame(b, roles, party)
    ensures LegacyFaultSet(b, roles).Some? ==>
      forall party :: party in LegacyFaultSet(b, roles).value <==> MayBlame(b, roles, party)
  {
    if IsNoneClass(b.outcome) {
      assert MayBlame(b, roles, "none");
    } else if IsSelfClass(b.outcome) {
      assert MayBlame(b, roles, b.anchoredByRole);
    } else {
      var others := roles.Values - {b.anchoredByRole};
      forall party ensures MayBlame(b, roles, party) <==> party in others {
      }
      if party :| party in others { assert MayBlame(b, roles, party); }
    }
  }

  lemma RosterNamesRoles(k: Context, b: Bundle)
    requires RoleClaims(k, b).Some?
    ensures forall role :: role in RoleClaims(k, b).value.Values ==> IsARole(role)
  {
    RosterIsOfTheParties(k, b.parties);
  }

  lemma DomainSpelled(b: Bundle)
    ensures DomainOf(b) == SigningDomain(b)
  {
  }

  /** What validation makes of an object, once its roster and its place are settled. */
  lemma ValidationSpelled(k: Context, keys: KeyTable, b: Bundle)
    requires RoleClaims(k, b).Some? && IsAnOutcome(b.outcome) && IsARole(b.anchoredByRole)
    requires b.anchoredByRole in RoleClaims(k, b).value.Values
    ensures
      var roles, v := RoleClaims(k, b).value, Validate(k, keys, Object(b));
      && (v.Some? <==>
            && ImpliedFaultSet(b, roles).Some? && k.json.scope(ScopeOf(b)).Some?
            && AllSignFor(k, keys, roles, SigningDomain(b), BytesToHex(k.c.hash(k.json.scope(ScopeOf(b)).value)), b))
      && (v.Some? ==>
            && v.value.bundle == b && ClassOf(b.outcome) == Some(v.value.klass)
            && ImpliedFaultSet(b, roles) == Some(v.value.faultSet))
  {
    DomainSpelled(b);
    ClassesSpelled(b.outcome, b.outcome);
  }

  /** An object that is admissible is placed, has a roster and a known outcome. */
  lemma AdmissibleIsPlaced(k: Context, keys: KeyTable, a: Anchored)
    ensures Admissible(k, keys, a) ==>
      && IsARole(a.key) && a.copy.Object? && a.copy.bundle.anchoredByRole == a.key && IsAnOutcome(a.copy.bundle.outcome)
      && RoleClaims(k, a.copy.bundle).Some? && a.key in RoleClaims(k, a.copy.bundle).value.Values
    ensures Admissible(k, keys, a) <==>
      && IsARole(a.key) && a.copy.Object? && a.copy.bundle.anchoredByRole == a.key && Validate(k, keys, a.copy).Some?
  {
    if a.copy.Object? {
      RolesAndOutcomesSpelled(a.copy.bundle);
      ClassesSpelled(a.copy.bundle.outcome, a.copy.bundle.outcome);
    }
  }

  /** Exactly which copies may enter a group, and what is compared of them. */
  lemma GoodCopiesAreAdmissible(k: Context, keys: KeyTable, a: Anchored)
    ensures Admissible(k, keys, a) <==> IsGoodCopy(k, keys, a)
    ensures Admissible(k, keys, a) ==>
      var f := FactsOf(k, keys, a);
      && f.bundle == a.copy.bundle && ClassOf(a.copy.bundle.outcome) == Some(f.klass)
      && forall party :: party in f.faultSet <==> Blames(a.copy.bundle, RoleClaims(k, a.copy.bundle).value, party)
  {
    AdmissibleIsPlaced(k, keys, a);
    if a.copy.Object? && RoleClaims(k, a.copy.bundle).Some? && a.copy.bundle.anchoredByRole == a.key
      && IsARole(a.key) && IsAnOutcome(a.copy.bundle.outcome) && a.key in RoleClaims(k, a.copy.bundle).value.Values {
      var b, roles := a.copy.bundle, RoleClaims(k, a.copy.bundle).value;
      RosterNamesRoles(k, b);
      ValidationSpelled(k, keys, b);
      BlameSpelled(b, roles);
      if k.json.scope(ScopeOf(b)).Some? {
        SignaturesSpelled(k, keys, roles, SigningDomain(b), BytesToHex(k.c.hash(k.json.scope(ScopeOf(b)).value)), b);
      }
    }
  }

  /** The entry of a phase index with its key text, kind and outcome, kept or contradicted by another list. */
  predicate PhasesFit(ik: IndexKey, xs: seq<Phase>, ys: seq<Phase>) {
    && (forall i :: 0 <= i < |xs| ==> ik(xs[i].index).Some?) && (forall j :: 0 <= j < |ys| ==> ik(ys[j].index).Some?)
    && (forall i, j :: 0 <= i < j < |xs| ==> ik(xs[i].index) != ik(xs[j].index))
    && (forall i, j :: 0 <= i < j < |ys| ==> ik(ys[i].index) != ik(ys[j].index))
    && forall i, j :: 0 <= i < |xs| && 0 <= j < |ys| && ik(xs[i].index) == ik(ys[j].index) ==>
        xs[i].kind == ys[j].kind && xs[i].outcome == ys[j].outcome
  }

  /** Two copies that blame the same parties. */
  ghost predicate SameBlame(k: Context, x: Bundle, y: Bundle)
    requires RoleClaims(k, x).Some? && RoleClaims(k, y).Some?
  {
    forall party :: Blames(x, RoleClaims(k, x).value, party) <==> Blames(y, RoleClaims(k, y).value, party)
  }

  /** Two copies that blame some party in common. */
  ghost predicate SharedBlame(k: Context, x: Bundle, y: Bundle)
    requires RoleClaims(k, x).Some? && RoleClaims(k, y).Some?
  {
    exists party :: Blames(x, RoleClaims(k, x).value, party) && Blames(y, RoleClaims(k, y).value, party)
  }

  lemma ComparisonSpelled(k: Context, keys: KeyTable, ik: IndexKey, x: Anchored, y: Anchored)
    requires Admissible(k, keys, x) && Admissible(k, keys, y)
    ensures x.copy.Object? && y.copy.Object? && RoleClaims(k, x.copy.bundle).Some? && RoleClaims(k, y.copy.bundle).Some?
    ensures Concur(ik, FactsOf(k, keys, x), FactsOf(k, keys, y)) <==>
      && SameClass(x.copy.bundle.outcome, y.copy.bundle.outcome) && SameBlame(k, x.copy.bundle, y.copy.bundle)
      && PhasesFit(ik, x.copy.bundle.phaseSummary, y.copy.bundle.phaseSummary)
    ensures Reconcile(ik, FactsOf(k, keys, x), FactsOf(k, keys, y)) <==>
      && SameClass(x.copy.bundle.outcome, y.copy.bundle.outcome) && SharedBlame(k, x.copy.bundle, y.copy.bundle)
      && PhasesFit(ik, x.copy.bundle.phaseSummary, y.copy.bundle.phaseSummary)
  {
    GoodCopiesAreAdmissible(k, keys, x);
    GoodCopiesAreAdmissible(k, keys, y);
    ClassesSpelled(x.copy.bundle.outcome, y.copy.bundle.outcome);
    PhasesSpelled(ik, x.copy.bundle, y.copy.bundle);
    SetsCompare(FactsOf(k, keys, x).faultSet, FactsOf(k, keys, y).faultSet);
  }

  lemma SetsCompare(x: set<string>, y: set<string>)
    ensures x == y <==> forall party :: party in x <==> party in y
    ensures x * y != {} <==> exists party :: party in x && party in y
  {
    if party :| party in x && party in y { assert party in x * y; }
  }

  lemma PhasesSpelled(ik: IndexKey, x: Bundle, y: Bundle)
    ensures !PhasesDiverge(ik, x, y) <==> PhasesFit(ik, x.phaseSummary, y.phaseSummary)
  {
  }

  /** Fault bundles unify exactly when all copies are good and each is like the first in class, blame and phases. */
  lemma UnifiesExactlyWhen(k: Context, keys: KeyTable, ik: IndexKey, copies: seq<Anchored>)
    ensures Converges(k, keys, ik, copies) <==>
      && copies != [] && (forall i :: 0 <= i < |copies| ==> IsGoodCopy(k, keys, copies[i]))
      && forall i :: 0 < i < |copies| ==>
          && SameClass(copies[0].copy.bundle.outcome, copies[i].copy.bundle.outcome)
          && SameBlame(k, copies[0].copy.bundle, copies[i].copy.bundle)
          && PhasesFit(ik, copies[0].copy.bundle.phaseSummary, copies[i].copy.bundle.phaseSummary)
  {
    forall i | 0 <= i < |copies| ensures Admissible(k, keys, copies[i]) <==> IsGoodCopy(k, keys, copies[i]) {
      GoodCopiesAreAdmissible(k, keys, copies[i]);
    }
    if forall i :: 0 <= i < |copies| ==> Admissible(k, keys, copies[i]) {
      forall i | 0 < i < |copies|
        ensures Concur(ik, FactsOf(k, keys, copies[0]), FactsOf(k, keys, copies[i])) <==>
          && SameClass(copies[0].copy.bundle.outcome, copies[i].copy.bundle.outcome)
          && SameBlame(k, copies[0].copy.bundle, copies[i].copy.bundle)
          && PhasesFit(ik, copies[0].copy.bundle.phaseSummary, copies[i].copy.bundle.phaseSummary)
      {
        ComparisonSpelled(k, keys, ik, copies[0], copies[i]);
      }
    }
  }

  /** Copies of mixed versions, two at least: the same, but some blamed party in common is enough. */
  lemma MixedVersionsUnifyExactlyWhen(k: Context, keys: KeyTable, ik: IndexKey, copies: seq<Anchored>)
    ensures Reconciles(k, keys, ik, copies) <==>
      && |copies| >= 2 && (forall i :: 0 <= i < |copies| ==> IsGoodCopy(k, keys, copies[i]))
      && forall i :: 0 < i < |copies| ==>
          && SameClass(copies[0].copy.bundle.outcome, copies[i].copy.bundle.outcome)
          && SharedBlame(k, copies[0].copy.bundle, copies[i].copy.bundle)
          && PhasesFit(ik, copies[0].copy.bundle.phaseSummary, copies[i].copy.bundle.phaseSummary)
  {
    forall i | 0 <= i < |copies| ensures Admissible(k, keys, copies[i]) <==> IsGoodCopy(k, keys, copies[i]) {
      GoodCopiesAreAdmissible(k, keys, copies[i]);
    }
    if forall i :: 0 <= i < |copies| ==> Admissible(k, keys, copies[i]) {
      forall i | 0 < i < |copies|
        ensures Reconcile(ik, FactsOf(k, keys, copies[0]), FactsOf(k, keys, copies[i])) <==>
          && SameClass(copies[0].copy.bundle.outcome, copies[i].copy.bundle.outcome)
          && SharedBlame(k, copies[0].copy.bundle, copies[i].copy.bundle)
          && PhasesFit(ik, copies[0].copy.bundle.phaseSummary, copies[i].copy.bundle.phaseSummary)
      {
        ComparisonSpelled(k, keys, ik, copies[0], copies[i]);
      }
    }
  }

  /** The unified bundle of mixed versions is the first listed that has a faultBundleVersion, else the first. */
  lemma {:induction false} AuthoritySpelled(copies: seq<Anchored>) returns (at: nat)
    requires |copies| > 0 && forall i :: 0 <= i < |copies| ==> copies[i].copy.Object?
    ensures at < |copies| && Authoritative(copies) == copies[at].copy.bundle
    ensures copies[at].copy.bundle.version.fault.Some? || at == 0
    ensures forall i :: 0 <= i < |copies| && copies[i].copy.bundle.version.fault.Some? ==>
      copies[at].copy.bundle.version.fault.Some? && at <= i
  {
    at := 0;
    if exists i :: 0 <= i < |copies| && HasFault(copies[i].copy.bundle) {
      at := FirstWithFault(copies);
      FirstFaultBundleAt(copies, at);
    }
  }
}
