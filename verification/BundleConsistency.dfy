/** Canonical divergence and two-sided classification of src/lib/bundle-consistency-v1.ts. */
module BundleConsistency {
  import opened ByteStrings
  import opened Bundles

  // ------------------------------------------------------------------ divergence

  /** What the comparison reads of a phase. */
  datatype Reading = Reading(outcome: string, errorClass: Option<string>)

  function ReadingOf(p: Phase): Reading {
    Reading(p.outcome, p.errorClass)
  }

  /** Entries keyed by index; the last entry with an index wins. */
  function PhasesByIndex(phases: seq<Phase>): map<int, Phase> {
    if |phases| == 0 then map[]
    else PhasesByIndex(phases[..|phases| - 1])[phases[|phases| - 1].index := phases[|phases| - 1]]
  }

  method CollectPhases(phases: seq<Phase>) returns (byIndex: map<int, Phase>)
    ensures byIndex == PhasesByIndex(phases)
  {
    byIndex := map[];
    for i := 0 to |phases|
      invariant byIndex == PhasesByIndex(phases[..i])
    {
      assert phases[..i + 1][..i] == phases[..i];
      byIndex := byIndex[phases[i].index := phases[i]];
    }
    assert phases[..|phases|] == phases;
  }

  lemma {:induction false} PhasesByIndexKeys(phases: seq<Phase>)
    ensures forall k :: k in PhasesByIndex(phases) <==> exists i :: 0 <= i < |phases| && phases[i].index == k
    ensures forall k :: k in PhasesByIndex(phases) ==>
      PhasesByIndex(phases)[k].index == k && PhasesByIndex(phases)[k] in phases
  {
    if |phases| > 0 {
      var init, last := phases[..|phases| - 1], phases[|phases| - 1];
      PhasesByIndexKeys(init);
      forall k ensures k in PhasesByIndex(phases) <==> exists i :: 0 <= i < |phases| && phases[i].index == k {
        if k in PhasesByIndex(phases) {
          if k == last.index {
            assert phases[|phases| - 1].index == k;
          } else {
            var i :| 0 <= i < |init| && init[i].index == k;
            assert phases[i].index == k;
          }
        }
        if i :| 0 <= i < |phases| && phases[i].index == k && k != last.index {
          assert init[i].index == k;
        }
      }
      forall k | k in PhasesByIndex(phases) ensures PhasesByIndex(phases)[k] in phases {
        if k == last.index {
          assert phases[|phases| - 1] == last;
        } else {
          assert PhasesByIndex(init)[k] in init;
        }
      }
    }
  }

  /** canonicalDivergenceV1 returns null. */
  predicate Agree(a: Bundle, b: Bundle) {
    var pa, pb := PhasesByIndex(a.phaseSummary), PhasesByIndex(b.phaseSummary);
    && a.outcome == b.outcome
    && pa.Keys == pb.Keys
    && forall k :: k in pa ==> ReadingOf(pa[k]) == ReadingOf(pb[k])
  }

  datatype Contradiction =
    | Outcome
    | OnlyInA(index: int)
    | OnlyInB(index: int)
    | PhaseOutcome(index: int)
    | PhaseErrorClass(index: int)

  predicate Contradicts(a: Bundle, b: Bundle, c: Contradiction) {
    var pa, pb := PhasesByIndex(a.phaseSummary), PhasesByIndex(b.phaseSummary);
    match c
    case Outcome => a.outcome != b.outcome
    case OnlyInA(k) => k in pa && k !in pb
    case OnlyInB(k) => k in pb && k !in pa
    case PhaseOutcome(k) => k in pa && k in pb && pa[k].outcome != pb[k].outcome
    case PhaseErrorClass(k) => k in pa && k in pb && pa[k].errorClass != pb[k].errorClass
  }

  /** Entries are visited in order, so keys come in a JavaScript Map's insertion order (a repeated key twice). */
  method MissingIndex(phases: seq<Phase>, other: map<int, Phase>) returns (missing: Option<int>)
    ensures missing.None? <==> PhasesByIndex(phases).Keys <= other.Keys
    ensures missing.Some? ==> missing.value in PhasesByIndex(phases) && missing.value !in other
  {
    PhasesByIndexKeys(phases);
    for i := 0 to |phases|
      invariant forall j :: 0 <= j < i ==> phases[j].index in other
    {
      if phases[i].index !in other {
        assert phases[i].index in PhasesByIndex(phases).Keys;
        return Some(phases[i].index);
      }
    }
    forall k | k in PhasesByIndex(phases) ensures k in other {
      var i :| 0 <= i < |phases| && phases[i].index == k;
    }
    missing := None;
  }

  /** Any contradiction found is a real one, and none is missed. */
  method CanonicalDivergenceV1(a: Bundle, b: Bundle) returns (divergence: Option<Contradiction>)
    ensures divergence.None? <==> Agree(a, b)
    ensures divergence.Some? ==> Contradicts(a, b, divergence.value)
  {
    if a.outcome != b.outcome {
      return Some(Outcome);
    }
    var pa := CollectPhases(a.phaseSummary);
    var pb := CollectPhases(b.phaseSummary);
    var onlyA := MissingIndex(a.phaseSummary, pb);
    if onlyA.Some? { return Some(OnlyInA(onlyA.value)); }
    var onlyB := MissingIndex(b.phaseSummary, pa);
    if onlyB.Some? { return Some(OnlyInB(onlyB.value)); }
    PhasesByIndexKeys(a.phaseSummary);
    for i := 0 to |a.phaseSummary|
      invariant forall j :: 0 <= j < i ==>
        ReadingOf(pa[a.phaseSummary[j].index]) == ReadingOf(pb[a.phaseSummary[j].index])
    {
      var k := a.phaseSummary[i].index;
      if pa[k].outcome != pb[k].outcome { return Some(PhaseOutcome(k)); }
      if pa[k].errorClass != pb[k].errorClass { return Some(PhaseErrorClass(k)); }
    }
    forall k | k in pa ensures ReadingOf(pa[k]) == ReadingOf(pb[k]) {
      var i :| 0 <= i < |a.phaseSummary| && a.phaseSummary[i].index == k;
    }
    divergence := None;
  }

  /** Not diverging is an equivalence relation on bundles. */
  lemma AgreementIsAnEquivalence(a: Bundle, b: Bundle, c: Bundle)
    ensures Agree(a, a)
    ensures Agree(a, b) ==> Agree(b, a)
    ensures Agree(a, b) && Agree(b, c) ==> Agree(a, c)
  {
    if Agree(a, b) {
      var pa, pb := PhasesByIndex(a.phaseSummary), PhasesByIndex(b.phaseSummary);
      forall k | k in pb ensures ReadingOf(pb[k]) == ReadingOf(pa[k]) {
        assert k in pa;
      }
    }
  }

  // ------------------------------------------------- against v1Divergence

  /** v1Divergence (src/lib/verify-bundle-v1.ts) returns null: it walks every entry of `a`, not one per index. */
  predicate V1Agree(a: Bundle, b: Bundle) {
    var pa, pb := PhasesByIndex(a.phaseSummary), PhasesByIndex(b.phaseSummary);
    && a.outcome == b.outcome
    && pa.Keys == pb.Keys
    && forall i :: 0 <= i < |a.phaseSummary| ==>
        a.phaseSummary[i].index in pb && ReadingOf(a.phaseSummary[i]) == ReadingOf(pb[a.phaseSummary[i].index])
  }

  /** Entries that share an index read the same. */
  predicate SelfConsistent(b: Bundle) {
    forall i, j :: 0 <= i < j < |b.phaseSummary| && b.phaseSummary[i].index == b.phaseSummary[j].index ==>
      ReadingOf(b.phaseSummary[i]) == ReadingOf(b.phaseSummary[j])
  }

  predicate DistinctIndices(b: Bundle) {
    forall i, j :: 0 <= i < j < |b.phaseSummary| ==> b.phaseSummary[i].index != b.phaseSummary[j].index
  }

  lemma LastEntryOf(b: Bundle, i: nat) returns (j: nat)
    requires i < |b.phaseSummary|
    ensures j < |b.phaseSummary| && b.phaseSummary[j].index == b.phaseSummary[i].index
    ensures b.phaseSummary[i].index in PhasesByIndex(b.phaseSummary)
    ensures PhasesByIndex(b.phaseSummary)[b.phaseSummary[i].index] == b.phaseSummary[j]
  {
    PhasesByIndexKeys(b.phaseSummary);
    var k := b.phaseSummary[i].index;
    var last := PhasesByIndex(b.phaseSummary)[k];
    j :| 0 <= j < |b.phaseSummary| && b.phaseSummary[j] == last;
  }

  /** The walk finds nothing exactly when the maps agree and the first copy's repeated indices read the same. */
  lemma V1AgreementIsAgreementOfAConsistentCopy(a: Bundle, b: Bundle)
    ensures V1Agree(a, b) <==> Agree(a, b) && SelfConsistent(a)
  {
    var pa, pb := PhasesByIndex(a.phaseSummary), PhasesByIndex(b.phaseSummary);
    PhasesByIndexKeys(a.phaseSummary);
    if V1Agree(a, b) {
      forall k | k in pa ensures ReadingOf(pa[k]) == ReadingOf(pb[k]) {
        var i :| 0 <= i < |a.phaseSummary| && a.phaseSummary[i] == pa[k];
      }
    }
    if Agree(a, b) && SelfConsistent(a) {
      forall i | 0 <= i < |a.phaseSummary|
        ensures a.phaseSummary[i].index in pb && ReadingOf(a.phaseSummary[i]) == ReadingOf(pb[a.phaseSummary[i].index])
      {
        var j := LastEntryOf(a, i);
        assert i == j || ReadingOf(a.phaseSummary[i]) == ReadingOf(a.phaseSummary[j]);
      }
    }
  }

  /** With distinct phase indices the two definitions coincide. */
  lemma DefinitionsCoincideOnDistinctIndices(a: Bundle, b: Bundle)
    requires DistinctIndices(a)
    ensures V1Agree(a, b) <==> Agree(a, b)
  {
    V1AgreementIsAgreementOfAConsistentCopy(a, b);
  }

  /** With repeated indices the walk is neither reflexive nor symmetric: a copy can diverge from itself. */
  lemma RepeatedIndexDivergesFromItself(b: Bundle, index: int)
    requires b.phaseSummary == [Phase(index, "k", "ok", None), Phase(index, "k", "fail", None)]
    ensures !V1Agree(b, b) && Agree(b, b)
    ensures var last := b.(phaseSummary := [Phase(index, "k", "fail", None)]);
      V1Agree(last, b) && !V1Agree(b, last)
  {
    var last := b.(phaseSummary := [Phase(index, "k", "fail", None)]);
    V1AgreementIsAgreementOfAConsistentCopy(b, b);
    V1AgreementIsAgreementOfAConsistentCopy(b, last);
    V1AgreementIsAgreementOfAConsistentCopy(last, b);
    AgreementIsAnEquivalence(b, last, b);
    assert b.phaseSummary[..1] == [Phase(index, "k", "ok", None)];
    assert last.phaseSummary[..0] == [] && b.phaseSummary[..1][..0] == [];
    assert PhasesByIndex(last.phaseSummary) == map[index := Phase(index, "k", "fail", None)];
    assert PhasesByIndex(b.phaseSummary) == map[index := Phase(index, "k", "fail", None)];
  }

  method V1Divergence(a: Bundle, b: Bundle) returns (divergence: Option<Contradiction>)
    ensures divergence.None? <==> V1Agree(a, b)
  {
    if a.outcome != b.outcome {
      return Some(Outcome);
    }
    var aIdx := CollectPhases(a.phaseSummary);
    var bIdx := CollectPhases(b.phaseSummary);
    var onlyA := MissingIndex(a.phaseSummary, bIdx);
    if onlyA.Some? { return Some(OnlyInA(onlyA.value)); }
    var onlyB := MissingIndex(b.phaseSummary, aIdx);
    if onlyB.Some? { return Some(OnlyInB(onlyB.value)); }
    PhasesByIndexKeys(a.phaseSummary);
    for i := 0 to |a.phaseSummary|
      invariant forall j :: 0 <= j < i ==>
        a.phaseSummary[j].index in bIdx && ReadingOf(a.phaseSummary[j]) == ReadingOf(bIdx[a.phaseSummary[j].index])
    {
      var p := a.phaseSummary[i];
      assert p.index in aIdx;
      var other := bIdx[p.index];
      if other.outcome != p.outcome { return Some(PhaseOutcome(p.index)); }
      if other.errorClass != p.errorClass { return Some(PhaseErrorClass(p.index)); }
    }
    divergence := None;
  }

  // -------------------------------------------------------------- classification

  datatype Role = Buyer | Seller
  datatype SignatureSetClass = Full | Single | Invalid
  datatype Verdict = Absent | OneSided(role: Role, fullSignatures: bool) | Unified | Divergent
  datatype Reason = InvalidSignatureSet | SingleSignedNonAbort
  datatype Rejection = Rejection(role: Role, reason: Reason)

  /** Copies that are not objects count as absent. */
  datatype Copies = Copies(buyer: Option<Bundle>, seller: Option<Bundle>)

  type Classifier = (Bundle, Role) -> SignatureSetClass

  function StructuralSignatureClass(b: Bundle): SignatureSetClass {
    if |b.signatures| >= 2 then Full else if |b.signatures| == 1 then Single else Invalid
  }

  function CopyOf(copies: Copies, role: Role): Option<Bundle> {
    match role case Buyer => copies.buyer case Seller => copies.seller
  }

  /** A copy that is present and whose signature set is not invalid. */
  predicate Stands(copies: Copies, classify: Classifier, role: Role) {
    CopyOf(copies, role).Some? && classify(CopyOf(copies, role).value, role) != Invalid
  }

  predicate Dropped(copies: Copies, classify: Classifier, role: Role) {
    CopyOf(copies, role).Some? && classify(CopyOf(copies, role).value, role) == Invalid
  }

  /** A lone copy stands with full signatures, or single-signed with an abort outcome. */
  function LoneVerdict(copies: Copies, classify: Classifier, role: Role): Verdict
    requires Stands(copies, classify, role)
  {
    var b := CopyOf(copies, role).value;
    if classify(b, role) == Full then OneSided(role, true)
    else if b.outcome in ABORT then OneSided(role, false)
    else Absent
  }

  function VerdictOf(copies: Copies, classify: Classifier): Verdict {
    if Stands(copies, classify, Buyer) && Stands(copies, classify, Seller) then
      if Agree(copies.buyer.value, copies.seller.value) then Unified else Divergent
    else if Stands(copies, classify, Buyer) then LoneVerdict(copies, classify, Buyer)
    else if Stands(copies, classify, Seller) then LoneVerdict(copies, classify, Seller)
    else Absent
  }

  /** Which copies are rejected, and why. */
  predicate Rejects(copies: Copies, classify: Classifier, r: Rejection) {
    match r.reason
    case InvalidSignatureSet => Dropped(copies, classify, r.role)
    case SingleSignedNonAbort =>
      Stands(copies, classify, r.role) && VerdictOf(copies, classify) == Absent
  }

  method BundleConsistencyV1(copies: Copies, classify: Classifier) returns (verdict: Verdict, rejected: seq<Rejection>)
    ensures verdict == VerdictOf(copies, classify)
    ensures forall r :: r in rejected <==> Rejects(copies, classify, r)
  {
    rejected := [];
    var standing: seq<(Role, Bundle, SignatureSetClass)> := [];
    var roles := [Buyer, Seller];
    for i := 0 to 2
      invariant forall r :: r in rejected <==>
        r.reason.InvalidSignatureSet? && r.role in roles[..i] && Dropped(copies, classify, r.role)
      invariant standing ==
        (if i > 0 && Stands(copies, classify, Buyer)
          then [(Buyer, copies.buyer.value, classify(copies.buyer.value, Buyer))] else []) +
        (if i > 1 && Stands(copies, classify, Seller)
          then [(Seller, copies.seller.value, classify(copies.seller.value, Seller))] else [])
    {
      var role := roles[i];
      var raw := CopyOf(copies, role);
      assert roles[..i + 1] == roles[..i] + [role];
      if raw.None? {
        continue;
      }
      var sig := classify(raw.value, role);
      if sig == Invalid {
        rejected := rejected + [Rejection(role, InvalidSignatureSet)];
        continue;
      }
      standing := standing + [(role, raw.value, sig)];
    }
    assert roles[..2] == roles;
    if |standing| == 1 {
      var (role, bundle, sig) := standing[0];
      if sig == Single && bundle.outcome !in ABORT {
        rejected := rejected + [Rejection(role, SingleSignedNonAbort)];
        verdict := Absent;
        return;
      }
      verdict := OneSided(role, sig == Full);
      return;
    }
    if |standing| == 0 {
      verdict := Absent;
      return;
    }
    var divergence := CanonicalDivergenceV1(standing[0].1, standing[1].1);
    verdict := if divergence.Some? then Divergent else Unified;
  }

  // ----------------------------------------------------------------- role swap

  function Other(role: Role): Role {
    match role case Buyer => Seller case Seller => Buyer
  }

  function Swapped(copies: Copies): Copies {
    Copies(copies.seller, copies.buyer)
  }

  function SwappedClassifier(classify: Classifier): Classifier {
    (b: Bundle, role: Role) => classify(b, Other(role))
  }

  function Relabelled(v: Verdict): Verdict {
    match v
    case OneSided(role, full) => OneSided(Other(role), full)
    case _ => v
  }

  /** Swapping buyer and seller relabels the roles of verdict and rejections and changes nothing else. */
  lemma ClassificationIsSymmetric(copies: Copies, classify: Classifier, r: Rejection)
    ensures VerdictOf(Swapped(copies), SwappedClassifier(classify)) == Relabelled(VerdictOf(copies, classify))
    ensures Rejects(Swapped(copies), SwappedClassifier(classify), Rejection(Other(r.role), r.reason)) <==>
      Rejects(copies, classify, r)
  {
    var swapped, flipped := Swapped(copies), SwappedClassifier(classify);
    assert forall role :: Stands(swapped, flipped, Other(role)) <==> Stands(copies, classify, role);
    assert forall role :: Dropped(swapped, flipped, Other(role)) <==> Dropped(copies, classify, role);
    assert Other(Buyer) == Seller && Other(Seller) == Buyer;
    if copies.buyer.Some? && copies.seller.Some? {
      AgreementIsAnEquivalence(copies.buyer.value, copies.seller.value, copies.buyer.value);
      AgreementIsAnEquivalence(copies.seller.value, copies.buyer.value, copies.seller.value);
    }
  }

  /** The classifier used when the caller injects none: it counts signatures and never looks at the role. */
  function StructuralClassifier(): Classifier {
    (b: Bundle, role: Role) => StructuralSignatureClass(b)
  }

  /** With the default classifier a swap of the copies relabels the verdict and its rejections. */
  lemma StructuralClassificationIsSymmetric(copies: Copies, r: Rejection)
    ensures VerdictOf(Swapped(copies), StructuralClassifier()) == Relabelled(VerdictOf(copies, StructuralClassifier()))
    ensures Rejects(Swapped(copies), StructuralClassifier(), Rejection(Other(r.role), r.reason)) <==>
      Rejects(copies, StructuralClassifier(), r)
  {
    var default, flipped := StructuralClassifier(), SwappedClassifier(StructuralClassifier());
    ClassificationIsSymmetric(copies, default, r);
    assert forall role :: Stands(Swapped(copies), flipped, role) <==> Stands(Swapped(copies), default, role);
    assert forall role :: Dropped(Swapped(copies), flipped, role) <==> Dropped(Swapped(copies), default, role);
  }

  // ------------------------------------------------------------- the rules, said of the entries

  /** No later entry has this one's index. */
  predicate IsLastAt(phases: seq<Phase>, i: int) {
    0 <= i < |phases| && forall j :: i < j < |phases| ==> phases[j].index != phases[i].index
  }

  lemma {:induction false} LastEntryCounts(phases: seq<Phase>, i: nat)
    requires IsLastAt(phases, i)
    ensures phases[i].index in PhasesByIndex(phases) && PhasesByIndex(phases)[phases[i].index] == phases[i]
  {
    var init := phases[..|phases| - 1];
    if i < |init| {
      assert phases[|phases| - 1].index != phases[i].index;
      LastEntryCounts(init, i);
    }
  }

  lemma {:induction false} LastPosition(phases: seq<Phase>, i: nat) returns (j: nat)
    requires i < |phases|
    ensures IsLastAt(phases, j) && phases[j].index == phases[i].index
    ensures phases[i].index in PhasesByIndex(phases) && PhasesByIndex(phases)[phases[i].index] == phases[j]
  {
    j := i;
    for n := i to |phases|
      invariant i <= j < |phases| && phases[j].index == phases[i].index
      invariant forall m :: j < m < n ==> phases[m].index != phases[i].index
    {
      if phases[n].index == phases[i].index { j := n; }
    }
    LastEntryCounts(phases, j);
  }

  predicate ListsIndex(phases: seq<Phase>, index: int) {
    exists i :: 0 <= i < |phases| && phases[i].index == index
  }

  /** The two copies list the same indices. */
  ghost predicate SameIndices(a: Bundle, b: Bundle) {
    && (forall i :: 0 <= i < |a.phaseSummary| ==> ListsIndex(b.phaseSummary, a.phaseSummary[i].index))
    && (forall i :: 0 <= i < |b.phaseSummary| ==> ListsIndex(a.phaseSummary, b.phaseSummary[i].index))
  }

  predicate ReadAlike(p: Phase, q: Phase) {
    p.outcome == q.outcome && p.errorClass == q.errorClass
  }

  lemma KeysAreListed(phases: seq<Phase>)
    ensures forall k :: k in PhasesByIndex(phases) <==> ListsIndex(phases, k)
  {
    PhasesByIndexKeys(phases);
  }

  lemma SameIndicesSameKeys(a: Bundle, b: Bundle)
    ensures SameIndices(a, b) <==> PhasesByIndex(a.phaseSummary).Keys == PhasesByIndex(b.phaseSummary).Keys
  {
    KeysAreListed(a.phaseSummary);
    KeysAreListed(b.phaseSummary);
    var pa, pb := PhasesByIndex(a.phaseSummary), PhasesByIndex(b.phaseSummary);
    if SameIndices(a, b) {
      forall k ensures k in pa.Keys <==> k in pb.Keys {
        if i :| 0 <= i < |a.phaseSummary| && a.phaseSummary[i].index == k { assert ListsIndex(b.phaseSummary, k); }
        if i :| 0 <= i < |b.phaseSummary| && b.phaseSummary[i].index == k { assert ListsIndex(a.phaseSummary, k); }
      }
    }
    if pa.Keys == pb.Keys {
      forall i | 0 <= i < |a.phaseSummary| ensures ListsIndex(b.phaseSummary, a.phaseSummary[i].index) {
        assert ListsIndex(a.phaseSummary, a.phaseSummary[i].index);
        assert a.phaseSummary[i].index in pa.Keys;
      }
      forall i | 0 <= i < |b.phaseSummary| ensures ListsIndex(a.phaseSummary, b.phaseSummary[i].index) {
        assert ListsIndex(b.phaseSummary, b.phaseSummary[i].index);
        assert b.phaseSummary[i].index in pb.Keys;
      }
    }
  }

  /** Canonical agreement: same outcome, same indices, and the last entries of each index read the same. */
  lemma AgreementSpelled(a: Bundle, b: Bundle)
    ensures Agree(a, b) <==>
      && a.outcome == b.outcome && SameIndices(a, b)
      && (forall i, j ::
            IsLastAt(a.phaseSummary, i) && IsLastAt(b.phaseSummary, j)
            && a.phaseSummary[i].index == b.phaseSummary[j].index ==>
              ReadAlike(a.phaseSummary[i], b.phaseSummary[j]))
  {
    var pa, pb := PhasesByIndex(a.phaseSummary), PhasesByIndex(b.phaseSummary);
    SameIndicesSameKeys(a, b);
    KeysAreListed(a.phaseSummary);
    KeysAreListed(b.phaseSummary);
    if Agree(a, b) {
      forall i, j | IsLastAt(a.phaseSummary, i) && IsLastAt(b.phaseSummary, j)
                    && a.phaseSummary[i].index == b.phaseSummary[j].index
        ensures ReadingOf(a.phaseSummary[i]) == ReadingOf(b.phaseSummary[j])
      {
        LastEntryCounts(a.phaseSummary, i);
        LastEntryCounts(b.phaseSummary, j);
      }
    } else if a.outcome == b.outcome && SameIndices(a, b) {
      var k :| k in pa && ReadingOf(pa[k]) != ReadingOf(pb[k]);
      var m, n := IndexPosition(a.phaseSummary, k), IndexPosition(b.phaseSummary, k);
      var i := LastPosition(a.phaseSummary, m);
      var j := LastPosition(b.phaseSummary, n);
      assert a.phaseSummary[i].index == b.phaseSummary[j].index == k;
    }
  }

  function IndexPosition(phases: seq<Phase>, index: int): (i: nat)
    requires ListsIndex(phases, index)
    ensures i < |phases| && phases[i].index == index
  {
    if phases[0].index == index then 0
    else
      var i :| 0 <= i < |phases| && phases[i].index == index;
      assert phases[1..][i - 1].index == index;
      1 + IndexPosition(phases[1..], index)
  }

  /** The verifier's own walk: every entry of the first copy, not only the last, reads like the second's last one. */
  lemma WalkSpelled(a: Bundle, b: Bundle)
    ensures V1Agree(a, b) <==>
      && a.outcome == b.outcome && SameIndices(a, b)
      && (forall i, j ::
            0 <= i < |a.phaseSummary| && IsLastAt(b.phaseSummary, j)
            && a.phaseSummary[i].index == b.phaseSummary[j].index ==>
              ReadAlike(a.phaseSummary[i], b.phaseSummary[j]))
  {
    SameIndicesSameKeys(a, b);
    if V1Agree(a, b) {
      forall i, j | 0 <= i < |a.phaseSummary| && IsLastAt(b.phaseSummary, j)
                    && a.phaseSummary[i].index == b.phaseSummary[j].index
        ensures ReadingOf(a.phaseSummary[i]) == ReadingOf(b.phaseSummary[j])
      {
        LastEntryCounts(b.phaseSummary, j);
      }
    } else if a.outcome == b.outcome && SameIndices(a, b) {
      KeysAreListed(b.phaseSummary);
      var i :| 0 <= i < |a.phaseSummary|
        && ReadingOf(a.phaseSummary[i]) != ReadingOf(PhasesByIndex(b.phaseSummary)[a.phaseSummary[i].index]);
      var n := IndexPosition(b.phaseSummary, a.phaseSummary[i].index);
      var j := LastPosition(b.phaseSummary, n);
      assert a.phaseSummary[i].index == b.phaseSummary[j].index;
    }
  }

  /** What one copy left standing amounts to: one side with full signatures, one side of an abort, or nothing. */
  function LoneStanding(b: Bundle, role: Role, klass: SignatureSetClass): Verdict {
    if klass == Full then OneSided(role, true)
    else if b.outcome == "aborted-by-self" || b.outcome == "aborted-by-other" then OneSided(role, false)
    else Absent
  }

  /** The classification over which copies are present with a signature set that is not invalid. */
  lemma ClassificationSpelled(copies: Copies, classify: Classifier)
    ensures
      var buyer := copies.buyer.Some? && classify(copies.buyer.value, Buyer) != Invalid;
      var seller := copies.seller.Some? && classify(copies.seller.value, Seller) != Invalid;
      VerdictOf(copies, classify) ==
        if buyer && seller then (if Agree(copies.buyer.value, copies.seller.value) then Unified else Divergent)
        else if buyer then LoneStanding(copies.buyer.value, Buyer, classify(copies.buyer.value, Buyer))
        else if seller then LoneStanding(copies.seller.value, Seller, classify(copies.seller.value, Seller))
        else Absent
    ensures Rejects(copies, classify, Rejection(Buyer, InvalidSignatureSet)) <==>
      copies.buyer.Some? && classify(copies.buyer.value, Buyer) == Invalid
    ensures Rejects(copies, classify, Rejection(Seller, InvalidSignatureSet)) <==>
      copies.seller.Some? && classify(copies.seller.value, Seller) == Invalid
    ensures forall role :: Rejects(copies, classify, Rejection(role, SingleSignedNonAbort)) <==>
      var copy := if role.Buyer? then copies.buyer else copies.seller;
      var other := if role.Buyer? then copies.seller else copies.buyer;
      && copy.Some? && classify(copy.value, role) == Single
      && copy.value.outcome != "aborted-by-self" && copy.value.outcome != "aborted-by-other"
      && (other.None? || classify(other.value, if role.Buyer? then Seller else Buyer) == Invalid)
  {
  }

  /** Without an injected classifier the entries are counted: two or more are a full set, one a single signature. */
  lemma CountingSpelled(b: Bundle, role: Role)
    ensures StructuralClassifier()(b, role) ==
      if b.signatures == [] then Invalid else if |b.signatures| == 1 then Single else Full
  {
  }
}
