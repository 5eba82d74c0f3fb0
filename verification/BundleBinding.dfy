/** resolveBundleBinding of src/lib/bundle-binding-v1.ts: which published copy stands for one side of a session. */
module BundleBinding {
  import opened ByteStrings
  import opened Primitives
  import opened Bundles
  import opened VerifyBundle
  import opened FaultRules
  import opened Selections
  import TwoSided
  import TextOrder

  // -------------------------------------------------------------------------- data

  const BINDING_DOMAIN := "dacs-bundle-binding:v1:"
  const DEFAULT_FETCH_BUDGET: nat := 8

  /** A binding without its signature: the tuple that is signed. */
  datatype Tuple = Tuple(
    bindingVersion: string,
    jobId: string,
    role: string,
    logicalAddress: string,
    nativeAddress: string,
    contentHash: string,
    anchorTx: Option<string>,
    signer: Claim)

  datatype TupleSignature = TupleSignature(algorithm: string, signer: Claim, value: string)

  datatype Binding = Binding(t: Tuple, signature: TupleSignature)

  /** `budget` is None when it is absent or no integer. */
  datatype Request = Request(jobId: string, role: string, partyMap: Option<map<string, string>>, budget: Option<int>)

  datatype Fetched = NotAnObject | Object(bundle: Bundle)

  datatype Resolution = Present(role: string, nativeAddress: string, bundle: Bundle) | Rejected | Undecided

  /** `tupleJson` is JCS over a tuple; `leq` is `localeCompare(..) <= 0`. */
  datatype World = World(
    k: Context,
    keys: KeyTable,
    tupleJson: Tuple -> Option<Bytes>,
    fetch: string -> Fetched,
    leq: (string, string) -> bool)

  /** What became of one candidate's fetched copy; outsiders' copies and absent ones are inert. */
  datatype Evaluation = Inert | Invalid | Valid(bundle: Bundle, scope: Bytes, fullySigned: bool)

  // ------------------------------------------------------------- the tests on one binding

  /** bindingSignatureValid: the authenticated signer's key. */
  function SignerOf(w: World, b: Binding): Option<string> {
    var key, signature, publicKey :=
      w.k.id.claimKey(b.t.signer), w.k.decodeSignature(b.signature.value), w.keys(b.t.signer);
    if key.None? || w.k.id.claimKey(b.signature.signer) != key || b.signature.algorithm != "ed25519" then None
    else if signature.None? || publicKey.None? then None
    else
      match w.tupleJson(b.t)
      case None => None
      case Some(json) =>
        var body := w.k.c.utf8(BytesToHex(w.k.c.hash(json)));
        if w.k.c.verify(BINDING_DOMAIN, signature.value, body, publicKey.value) then key else None
  }

  /** The tuple belongs at the requested side and is complete. */
  predicate TupleMatches(w: World, req: Request, b: Binding) {
    && b.t.bindingVersion == "1"
    && b.t.jobId == req.jobId
    && b.t.role == req.role
    && b.t.logicalAddress == TwoSided.AnchorName(w.k, b.t.jobId, b.t.role)
    && b.t.nativeAddress != ""
    && |b.t.contentHash| == 64 && IsHex(b.t.contentHash) && Lower(b.t.contentHash) == b.t.contentHash
  }

  /** The party map's role for a signer, looked up by the claim's text or else by its key. */
  function MappedRole(w: World, roles: map<string, string>, claim: Claim): Option<string> {
    var name := if claim.TextClaim? then Some(claim.text) else w.k.id.claimKey(claim);
    if name.Some? && name.value in roles then Some(roles[name.value]) else None
  }

  predicate MapAuthorises(w: World, req: Request, b: Binding) {
    req.partyMap.None? || MappedRole(w, req.partyMap.value, b.t.signer) == Some(req.role)
  }

  /** Without a party map the copy's own roster must give the signer the requested role. */
  predicate CopyAuthorises(w: World, req: Request, b: Binding, roles: Option<Roster>) {
    if req.partyMap.Some? then MapAuthorises(w, req, b)
    else
      var key := w.k.id.claimKey(b.t.signer);
      roles.Some? && key.Some? && key.value in roles.value && roles.value[key.value] == req.role
  }

  function CopyDomain(b: Bundle): string {
    if HasEvidenceBound(b) then EVIDENCE_BOUND_FAULT_BUNDLE_DOMAIN else FAULT_BUNDLE_DOMAIN
  }

  predicate CopyIsSound(w: World, b: Binding, bundle: Bundle, roles: Roster, hash: string) {
    && bundle.jobId == b.t.jobId
    && hash == b.t.contentHash
    && FaultedPartyPermitted(bundle, roles)
    && AllSignFor(w.k, w.keys, roles, CopyDomain(bundle), hash, bundle)
    && (IsAbort(bundle) || FullySigned(w.k, roles, bundle))
  }

  function Evaluate(w: World, req: Request, b: Binding): Evaluation {
    match w.fetch(b.t.nativeAddress)
    case NotAnObject => Inert
    case Object(bundle) =>
      match w.k.json.scope(ScopeOf(bundle))
      case None => Invalid
      case Some(scope) =>
        var roles := RoleClaims(w.k, bundle);
        if !CopyAuthorises(w, req, b, roles) then Inert
        else if roles.None? || !CopyIsSound(w, b, bundle, roles.value, BytesToHex(w.k.c.hash(scope))) then Invalid
        else Valid(bundle, scope, FullySigned(w.k, roles.value, bundle))
  }

  // ------------------------------------------------------------------- what is resolved

  /** The tests as the resolution sees them. */
  datatype Tests = Tests(
    published: Binding -> bool,
    signer: Binding -> Option<string>,
    matches: Binding -> bool,
    authorised: Binding -> bool,
    evaluate: Binding -> Evaluation,
    budget: nat,
    leq: (string, string) -> bool)

  function TestsOf(w: World, req: Request): Tests {
    Tests(
      (b: Binding) => b.t.logicalAddress == TwoSided.AnchorName(w.k, req.jobId, req.role),
      b => SignerOf(w, b),
      b => TupleMatches(w, req, b),
      b => MapAuthorises(w, req, b),
      b => Evaluate(w, req, b),
      if req.budget.Some? && req.budget.value > 0 then req.budget.value else DEFAULT_FETCH_BUDGET,
      w.leq)
  }

  predicate Authentic(c: Tests, b: Binding) { c.published(b) && c.signer(b).Some? }

  predicate Candidate(c: Tests, b: Binding) { Authentic(c, b) && c.authorised(b) }

  predicate Stands(c: Tests, b: Binding) { Candidate(c, b) && c.evaluate(b).Valid? }

  predicate Faulty(c: Tests, b: Binding) {
    (c.published(b) && c.signer(b).None?) || (Candidate(c, b) && c.evaluate(b).Invalid?)
  }

  function Form(c: Tests, b: Binding): Bytes {
    if c.evaluate(b).Valid? then c.evaluate(b).scope else []
  }

  predicate Full(c: Tests, b: Binding) { c.evaluate(b).Valid? && c.evaluate(b).fullySigned }

  /** By content hash, then by native address. */
  predicate AddressOrder(c: Tests, x: Binding, y: Binding) {
    c.leq(x.t.contentHash, y.t.contentHash)
    && (c.leq(y.t.contentHash, x.t.contentHash) ==> c.leq(x.t.nativeAddress, y.t.nativeAddress))
  }

  /** Fully signed first. */
  predicate Precedes(c: Tests, x: Binding, y: Binding) {
    if Full(c, x) != Full(c, y) then Full(c, x) else AddressOrder(c, x, y)
  }

  /** The one canonical form left: the only one, or the only one with a fully signed copy. */
  ghost predicate SoleForm(c: Tests, bs: set<Binding>, form: Bytes) {
    && (exists b :: b in bs && Stands(c, b) && Form(c, b) == form)
    && (|| (forall b :: b in bs && Stands(c, b) ==> Form(c, b) == form)
        || (&& (exists b :: b in bs && Stands(c, b) && Full(c, b) && Form(c, b) == form)
            && (forall b :: b in bs && Stands(c, b) && Full(c, b) ==> Form(c, b) == form)))
  }

  ghost predicate Wins(c: Tests, bs: set<Binding>, x: Binding) {
    && x in bs && Stands(c, x) && SoleForm(c, bs, Form(c, x))
    && forall b :: b in bs && Stands(c, b) && Form(c, b) == Form(c, x) ==> Precedes(c, x, b)
  }

  /** What becomes of bindings among which there are candidates. */
  ghost predicate Settles(c: Tests, role: string, bs: set<Binding>, overBudget: bool, r: Resolution) {
    if overBudget then r == Undecided
    else if !exists b :: b in bs && Stands(c, b) then
      r == (if exists b :: b in bs && Faulty(c, b) then Rejected else Undecided)
    else if exists form :: SoleForm(c, bs, form) then
      exists x :: Wins(c, bs, x) && r == Present(role, x.t.nativeAddress, c.evaluate(x).bundle)
    else r == Undecided
  }

  /** The resolution of a set of bindings, told without any order. */
  ghost predicate Meaning(c: Tests, role: string, bs: set<Binding>, overBudget: bool, r: Resolution) {
    if !exists b :: b in bs && c.published(b) then r == Undecided
    else if exists b :: b in bs && Authentic(c, b) && !c.matches(b) then r == Rejected
    else if !exists b :: b in bs && Authentic(c, b) then r == Rejected
    else if !exists b :: b in bs && Candidate(c, b) then r == Undecided
    else Settles(c, role, bs, overBudget, r)
  }

  function CandidateOf(c: Tests, key: string): Binding -> bool {
    b => Candidate(c, b) && c.signer(b) == Some(key)
  }

  /** Some signer has more candidates, repeats counted, than the fetch budget. */
  ghost predicate OverBudget(c: Tests, bindings: seq<Binding>) {
    exists key :: |Select(CandidateOf(c, key), bindings)| > c.budget
  }

  function Members(bindings: seq<Binding>): set<Binding> {
    set b | b in bindings
  }

  predicate Malformed(req: Request) {
    req.jobId == "" || req.role !in ROLES
  }

  function SignerKey(c: Tests): Binding -> string {
    b => if c.signer(b).Some? then c.signer(b).value else ""
  }

  ghost function WinnerIn(c: Tests, bs: set<Binding>): Binding -> bool { x => Wins(c, bs, x) }

  ghost predicate Leads(c: Tests, bs: set<Binding>, x: Binding) {
    Wins(c, bs, x) && forall y :: Wins(c, bs, y) ==> !TextOrder.Less(SignerKey(c)(y), SignerKey(c)(x))
  }

  /** The winners of the first signer; the source visits signers in code-unit order. */
  ghost function FrontRunnerIn(c: Tests, bs: set<Binding>): Binding -> bool { x => Leads(c, bs, x) }

  /** A present result names the first listed front-runner: the one thing the bindings' order decides. */
  ghost predicate NamesFirst(c: Tests, role: string, bindings: seq<Binding>, r: Resolution) {
    r.Present? ==>
      var front := Select(FrontRunnerIn(c, Members(bindings)), bindings);
      && |front| > 0 && c.evaluate(front[0]).Valid?
      && r == Present(role, front[0].t.nativeAddress, c.evaluate(front[0]).bundle)
  }

  ghost predicate Resolves(w: World, req: Request, bindings: seq<Binding>, r: Resolution) {
    if Malformed(req) then r == Rejected
    else
      && Meaning(TestsOf(w, req), req.role, Members(bindings), OverBudget(TestsOf(w, req), bindings), r)
      && NamesFirst(TestsOf(w, req), req.role, bindings, r)
  }

  // --------------------------------------------------------------- selecting and counting

  lemma {:induction false} SelectCounts(keep: Binding -> bool, items: seq<Binding>, x: Binding)
    ensures multiset(Select(keep, items))[x] == if keep(x) then multiset(items)[x] else 0
  {
    if |items| > 0 {
      SelectCounts(keep, items[..|items| - 1], x);
      assert items == items[..|items| - 1] + [items[|items| - 1]];
    }
  }

  lemma SameCountsSameLength(a: seq<Binding>, b: seq<Binding>)
    requires forall x :: multiset(a)[x] == multiset(b)[x]
    ensures |a| == |b|
  {
    assert multiset(a) == multiset(b);
    assert |multiset(a)| == |a| && |multiset(b)| == |b|;
  }

  lemma SelectionsOfPermutations(keep: Binding -> bool, a: seq<Binding>, b: seq<Binding>)
    requires multiset(a) == multiset(b)
    ensures |Select(keep, a)| == |Select(keep, b)|
  {
    forall x ensures multiset(Select(keep, a))[x] == multiset(Select(keep, b))[x] {
      SelectCounts(keep, a, x);
      SelectCounts(keep, b, x);
    }
    SameCountsSameLength(Select(keep, a), Select(keep, b));
  }

  // --------------------------------------------------------------- order independence

  lemma PermutationsMeanTheSame(c: Tests, role: string, a: seq<Binding>, b: seq<Binding>)
    requires multiset(a) == multiset(b)
    ensures Members(a) == Members(b) && (OverBudget(c, a) <==> OverBudget(c, b))
  {
    forall x ensures x in a <==> x in b {
      assert x in a <==> x in multiset(a);
      assert x in b <==> x in multiset(b);
    }
    forall key ensures |Select(CandidateOf(c, key), a)| == |Select(CandidateOf(c, key), b)| {
      SelectionsOfPermutations(CandidateOf(c, key), a, b);
    }
  }

  lemma SoleFormIsUnique(c: Tests, bs: set<Binding>, x: Bytes, y: Bytes)
    requires SoleForm(c, bs, x) && SoleForm(c, bs, y)
    ensures x == y
  {
  }

  /** Which disposition is reached is a matter of the set alone. */
  lemma DispositionIsUnique(c: Tests, role: string, bs: set<Binding>, overBudget: bool, r: Resolution, s: Resolution)
    requires Meaning(c, role, bs, overBudget, r) && Meaning(c, role, bs, overBudget, s)
    ensures (r.Present? <==> s.Present?) && (!r.Present? ==> r == s)
  {
  }

  /** The resolution is a function of the bindings as listed. */
  lemma ResolutionIsDetermined(w: World, req: Request, bindings: seq<Binding>, r: Resolution, s: Resolution)
    requires Resolves(w, req, bindings, r) && Resolves(w, req, bindings, s)
    ensures r == s
  {
    if !Malformed(req) {
      var c := TestsOf(w, req);
      DispositionIsUnique(c, req.role, Members(bindings), OverBudget(c, bindings), r, s);
    }
  }

  /** Winners tie in every order the source sorts by. */
  lemma WinnersTie(c: Tests, bs: set<Binding>, x: Binding, y: Binding)
    requires Wins(c, bs, x) && Wins(c, bs, y)
    ensures Form(c, x) == Form(c, y) && Precedes(c, x, y) && AddressOrder(c, x, y)
    ensures c.leq(x.t.nativeAddress, y.t.nativeAddress)
  {
    SoleFormIsUnique(c, bs, Form(c, x), Form(c, y));
    assert Precedes(c, x, y) && Precedes(c, y, x);
  }

  /** Front-runners are one signer's. */
  lemma FrontRunnersShareASigner(c: Tests, bs: set<Binding>, x: Binding, y: Binding)
    requires Leads(c, bs, x) && Leads(c, bs, y)
    ensures SignerKey(c)(x) == SignerKey(c)(y) && c.signer(x) == c.signer(y)
  {
    TextOrder.LessIsTotal(SignerKey(c)(x), SignerKey(c)(y));
  }

  lemma SameAddressSameCopy(w: World, req: Request, x: Binding, y: Binding)
    requires Evaluate(w, req, x).Valid? && Evaluate(w, req, y).Valid? && x.t.nativeAddress == y.t.nativeAddress
    ensures Evaluate(w, req, x).bundle == Evaluate(w, req, y).bundle
  {
    ValidCopyFacts(w, req, x);
    ValidCopyFacts(w, req, y);
  }

  lemma ValidCopyFacts(w: World, req: Request, b: Binding)
    requires Evaluate(w, req, b).Valid?
    ensures var v := Evaluate(w, req, b);
      && w.fetch(b.t.nativeAddress) == Object(v.bundle)
      && w.k.json.scope(ScopeOf(v.bundle)) == Some(v.scope)
      && b.t.contentHash == BytesToHex(w.k.c.hash(v.scope))
      && RoleClaims(w.k, v.bundle).Some?
      && CopyAuthorises(w, req, b, RoleClaims(w.k, v.bundle))
      && CopyIsSound(w, b, v.bundle, RoleClaims(w.k, v.bundle).value, b.t.contentHash)
      && v.fullySigned == FullySigned(w.k, RoleClaims(w.k, v.bundle).value, v.bundle)
  {
  }

  ghost predicate FrontRunnersAgree(c: Tests, bs: set<Binding>) {
    forall x, y :: Leads(c, bs, x) && Leads(c, bs, y) ==> x.t.nativeAddress == y.t.nativeAddress
  }

  lemma AgreeingFrontRunnersResolveAlike(w: World, req: Request, a: seq<Binding>, b: seq<Binding>, r: Resolution,
                                         s: Resolution)
    requires multiset(a) == multiset(b) && Resolves(w, req, a, r) && Resolves(w, req, b, s)
    requires r.Present? ==> FrontRunnersAgree(TestsOf(w, req), Members(a))
    ensures r == s
  {
    if !Malformed(req) {
      var c := TestsOf(w, req);
      PermutationsMeanTheSame(c, req.role, a, b);
      DispositionIsUnique(c, req.role, Members(a), OverBudget(c, a), r, s);
      if r.Present? {
        var x := Select(FrontRunnerIn(c, Members(a)), a)[0];
        var y := Select(FrontRunnerIn(c, Members(b)), b)[0];
        var i := SelectedAt(FrontRunnerIn(c, Members(a)), a, 0);
        var j := SelectedAt(FrontRunnerIn(c, Members(b)), b, 0);
        assert Leads(c, Members(a), x) && Leads(c, Members(a), y);
        SameAddressSameCopy(w, req, x, y);
      }
    }
  }

  /** A front-runner listed first is what a present result names. */
  lemma ListedFirstIsNamed(c: Tests, role: string, bindings: seq<Binding>, r: Resolution, x: Binding,
                           rest: seq<Binding>)
    requires r.Present? && Meaning(c, role, Members(bindings), OverBudget(c, bindings), r)
    requires Leads(c, Members(bindings), x) && multiset([x] + rest) == multiset(bindings)
    ensures c.evaluate(x).Valid?
    ensures var other, s := [x] + rest, Present(role, x.t.nativeAddress, c.evaluate(x).bundle);
      Meaning(c, role, Members(other), OverBudget(c, other), s) && NamesFirst(c, role, other, s)
  {
    var bs, other := Members(bindings), [x] + rest;
    PermutationsMeanTheSame(c, role, bindings, other);
    HeadStays(FrontRunnerIn(c, bs), other);
    var s := Present(role, x.t.nativeAddress, c.evaluate(x).bundle);
    PresentMeans(c, role, bs, OverBudget(c, bindings), r);
    assert Wins(c, bs, x);
    assert Names(c, role, bs, s);
    PresentMeans(c, role, bs, OverBudget(c, bindings), s);
  }

  lemma MovedToTheFront(w: World, req: Request, bindings: seq<Binding>, r: Resolution, x: Binding)
    returns (other: seq<Binding>)
    requires r.Present? && Resolves(w, req, bindings, r) && Leads(TestsOf(w, req), Members(bindings), x)
    ensures multiset(other) == multiset(bindings) && Evaluate(w, req, x).Valid?
    ensures Resolves(w, req, other, Present(req.role, x.t.nativeAddress, Evaluate(w, req, x).bundle))
  {
    assert x in bindings;
    var i :| 0 <= i < |bindings| && bindings[i] == x;
    var rest := Without(bindings, i);
    other := [x] + rest;
    ListedFirstIsNamed(TestsOf(w, req), req.role, bindings, r, x, rest);
  }

  lemma DisagreeingFrontRunnersMatter(w: World, req: Request, bindings: seq<Binding>, r: Resolution)
    returns (other: seq<Binding>, s: Resolution)
    requires Resolves(w, req, bindings, r) && r.Present? && !FrontRunnersAgree(TestsOf(w, req), Members(bindings))
    ensures multiset(other) == multiset(bindings) && Resolves(w, req, other, s) && s != r
  {
    var c, bs := TestsOf(w, req), Members(bindings);
    var x, y :| Leads(c, bs, x) && Leads(c, bs, y) && x.t.nativeAddress != y.t.nativeAddress;
    var z := if x.t.nativeAddress == r.nativeAddress then y else x;
    other := MovedToTheFront(w, req, bindings, r, z);
    s := Present(req.role, z.t.nativeAddress, Evaluate(w, req, z).bundle);
  }

  /**
   * Exactly when the order of the bindings does not matter: every permutation resolves alike if and only if the result
   * is not present or all front-runners, winners of the first signer, were published at one native address.
   */
  lemma OrderIsIgnoredExactlyWhen(w: World, req: Request, bindings: seq<Binding>, r: Resolution)
    requires Resolves(w, req, bindings, r)
    ensures
      (forall other, s :: multiset(other) == multiset(bindings) && Resolves(w, req, other, s) ==> s == r) <==>
      (r.Present? ==> FrontRunnersAgree(TestsOf(w, req), Members(bindings)))
  {
    var bs := Members(bindings);
    if r.Present? ==> FrontRunnersAgree(TestsOf(w, req), bs) {
      forall other, s | multiset(other) == multiset(bindings) && Resolves(w, req, other, s) ensures s == r {
        AgreeingFrontRunnersResolveAlike(w, req, bindings, other, r, s);
      }
    } else {
      var other, s := DisagreeingFrontRunnersMatter(w, req, bindings, r);
    }
  }

  /** No signer published two native addresses that compare equal. */
  predicate AddressesAreTold(w: World, bindings: seq<Binding>) {
    forall x, y ::
      x in bindings && y in bindings && SignerOf(w, x) == SignerOf(w, y)
      && w.leq(x.t.nativeAddress, y.t.nativeAddress) && w.leq(y.t.nativeAddress, x.t.nativeAddress)
      ==> x.t.nativeAddress == y.t.nativeAddress
  }

  /** So a caller whose signers use addresses that `localeCompare` tells apart gets one result for every order. */
  lemma ResolutionIgnoresOrder(w: World, req: Request, a: seq<Binding>, b: seq<Binding>, r: Resolution, s: Resolution)
    requires AddressesAreTold(w, a) && multiset(a) == multiset(b)
    requires Resolves(w, req, a, r) && Resolves(w, req, b, s)
    ensures r == s
  {
    var c := TestsOf(w, req);
    forall x, y | Leads(c, Members(a), x) && Leads(c, Members(a), y) ensures x.t.nativeAddress == y.t.nativeAddress {
      WinnersTie(c, Members(a), x, y);
      WinnersTie(c, Members(a), y, x);
      FrontRunnersShareASigner(c, Members(a), x, y);
      assert x in a && y in a;
    }
    AgreeingFrontRunnersResolveAlike(w, req, a, b, r, s);
  }

  /** Two valid copies of one form and standing, from one signer, at two addresses that compare equal. */
  predicate Twins(c: Tests, x: Binding, y: Binding) {
    && Stands(c, x) && Stands(c, y) && c.matches(x) && c.matches(y) && c.signer(x) == c.signer(y)
    && Form(c, x) == Form(c, y) && Full(c, x) == Full(c, y)
    && c.leq(x.t.nativeAddress, y.t.nativeAddress) && c.leq(y.t.nativeAddress, x.t.nativeAddress)
    && x.t.nativeAddress != y.t.nativeAddress
  }

  lemma TwinWins(c: Tests, x: Binding, y: Binding)
    requires TotalPreorder(c.leq) && Twins(c, x, y) && x.t.contentHash == y.t.contentHash
    ensures Wins(c, {x, y}, x)
  {
    assert c.leq(x.t.contentHash, x.t.contentHash) && c.leq(x.t.nativeAddress, x.t.nativeAddress);
    assert x in {x, y} && Form(c, x) == Form(c, x);
    assert SoleForm(c, {x, y}, Form(c, x));
  }

  lemma TwinsLead(c: Tests, x: Binding, y: Binding)
    requires TotalPreorder(c.leq) && Twins(c, x, y) && x.t.contentHash == y.t.contentHash
    ensures Leads(c, {x, y}, x) && Leads(c, {x, y}, y)
  {
    TwinWins(c, x, y);
    TwinWins(c, y, x);
    assert {y, x} == {x, y};
    forall z | Wins(c, {x, y}, z) ensures SignerKey(c)(z) == SignerKey(c)(x) {
      assert z in {x, y};
    }
    TextOrder.LessIsIrreflexive(SignerKey(c)(x));
  }

  lemma TwinsMeanPresent(c: Tests, role: string, x: Binding, y: Binding)
    requires TotalPreorder(c.leq) && Twins(c, x, y) && x.t.contentHash == y.t.contentHash && c.budget >= 2
    ensures Meaning(c, role, Members([x, y]), OverBudget(c, [x, y]),
                    Present(role, x.t.nativeAddress, c.evaluate(x).bundle))
  {
    var r := Present(role, x.t.nativeAddress, c.evaluate(x).bundle);
    TwinWins(c, x, y);
    assert Names(c, role, {x, y}, r);
    forall key ensures |Select(CandidateOf(c, key), [x, y])| <= 2 {
      SelectIsNoLonger(CandidateOf(c, key), [x, y]);
    }
    assert Members([x, y]) == {x, y};
    PresentMeans(c, role, {x, y}, OverBudget(c, [x, y]), r);
  }

  /** Then the input order decides: whichever of the two is listed first is named. */
  lemma TwinsGoByInputOrder(w: World, req: Request, x: Binding, y: Binding)
    requires !Malformed(req) && TotalPreorder(w.leq) && Twins(TestsOf(w, req), x, y) && TestsOf(w, req).budget >= 2
    ensures Evaluate(w, req, x).Valid? && Evaluate(w, req, y).Valid?
    ensures Resolves(w, req, [x, y], Present(req.role, x.t.nativeAddress, Evaluate(w, req, x).bundle))
    ensures Resolves(w, req, [y, x], Present(req.role, y.t.nativeAddress, Evaluate(w, req, y).bundle))
  {
    HashesFollowForms(w, req);
    TwinsAreNamed(TestsOf(w, req), req.role, x, y);
  }

  lemma TwinsAreNamed(c: Tests, role: string, x: Binding, y: Binding)
    requires TotalPreorder(c.leq) && Twins(c, x, y) && x.t.contentHash == y.t.contentHash && c.budget >= 2
    ensures
      var r := Present(role, x.t.nativeAddress, c.evaluate(x).bundle);
      var s := Present(role, y.t.nativeAddress, c.evaluate(y).bundle);
      && Meaning(c, role, Members([x, y]), OverBudget(c, [x, y]), r) && NamesFirst(c, role, [x, y], r)
      && Meaning(c, role, Members([y, x]), OverBudget(c, [y, x]), s) && NamesFirst(c, role, [y, x], s)
  {
    var r := Present(role, x.t.nativeAddress, c.evaluate(x).bundle);
    TwinsLead(c, x, y);
    TwinsMeanPresent(c, role, x, y);
    assert Members([x, y]) == {x, y};
    assert [x] + [y] == [x, y] && [y] + [x] == [y, x] && multiset([x, y]) == multiset([y, x]);
    ListedFirstIsNamed(c, role, [x, y], r, x, [y]);
    ListedFirstIsNamed(c, role, [x, y], r, y, [x]);
  }

  // ------------------------------------------------------------------ the winner's standing

  /** The highest standing in `bs`: see PresentNamesTheBest. */
  ghost predicate Best(c: Tests, bs: set<Binding>, x: Binding) {
    && x in bs && Stands(c, x)
    && (forall b :: b in bs && Stands(c, b) && Form(c, b) == Form(c, x) ==>
          && (Full(c, b) ==> Full(c, x))
          && (Full(c, b) == Full(c, x) ==> c.leq(x.t.nativeAddress, b.t.nativeAddress)))
    && (forall b :: b in bs && Stands(c, b) && Form(c, b) != Form(c, x) ==> !Full(c, b) && Full(c, x))
  }

  lemma WinnerIsBest(c: Tests, bs: set<Binding>, x: Binding)
    requires Wins(c, bs, x)
    requires forall y, z :: Stands(c, y) && Stands(c, z) && Form(c, y) == Form(c, z) ==>
      y.t.contentHash == z.t.contentHash
    ensures Best(c, bs, x)
  {
    forall b | b in bs && Stands(c, b) && Form(c, b) == Form(c, x)
      ensures Full(c, b) ==> Full(c, x)
      ensures Full(c, b) == Full(c, x) ==> c.leq(x.t.nativeAddress, b.t.nativeAddress)
    {
      WinnerAtItsStanding(c, bs, x, b);
    }
    WinnerOutranksOtherForms(c, bs, x);
  }

  /**
   * A present result names a candidate's copy which is fully signed if any valid copy of its form is, has the
   * least address at that standing, and whose form no other form equals in standing.
   */
  lemma PresentNamesTheBest(w: World, req: Request, bindings: seq<Binding>, r: Resolution) returns (x: Binding)
    requires r.Present? && Resolves(w, req, bindings, r)
    ensures Best(TestsOf(w, req), Members(bindings), x)
    ensures r == Present(req.role, x.t.nativeAddress, Evaluate(w, req, x).bundle)
  {
    var c := TestsOf(w, req);
    var bs := Members(bindings);
    PresentMeans(c, req.role, bs, OverBudget(c, bindings), r);
    x :| Wins(c, bs, x) && r == Present(req.role, x.t.nativeAddress, c.evaluate(x).bundle);
    HashesFollowForms(w, req);
    WinnerIsBest(c, bs, x);
  }

  lemma HashesFollowForms(w: World, req: Request)
    ensures var c := TestsOf(w, req);
      forall y, z :: Stands(c, y) && Stands(c, z) && Form(c, y) == Form(c, z) ==> y.t.contentHash == z.t.contentHash
  {
    var c := TestsOf(w, req);
    forall y, z | Stands(c, y) && Stands(c, z) && Form(c, y) == Form(c, z) ensures y.t.contentHash == z.t.contentHash {
      ValidCopyFacts(w, req, y);
      ValidCopyFacts(w, req, z);
    }
  }

  lemma WinnerAtItsStanding(c: Tests, bs: set<Binding>, x: Binding, b: Binding)
    requires Wins(c, bs, x) && b in bs && Stands(c, b) && Form(c, b) == Form(c, x) && x.t.contentHash == b.t.contentHash
    ensures Full(c, b) ==> Full(c, x)
    ensures Full(c, b) == Full(c, x) ==> c.leq(x.t.nativeAddress, b.t.nativeAddress)
  {
    assert Precedes(c, x, b);
  }

  lemma WinnerOutranksOtherForms(c: Tests, bs: set<Binding>, x: Binding)
    requires Wins(c, bs, x)
    ensures forall b :: b in bs && Stands(c, b) && Form(c, b) != Form(c, x) ==> !Full(c, b) && Full(c, x)
  {
    if b :| b in bs && Stands(c, b) && Form(c, b) != Form(c, x) {
      var f :| f in bs && Stands(c, f) && Full(c, f) && Form(c, f) == Form(c, x);
      assert Precedes(c, x, f);
    }
  }

  /**
   * A present copy is what a signed tuple for this side promised: same job, same scope hash, a permitted fault, all
   * of its signatures by roster members over that scope, all of the roster's unless the session was aborted; and
   * the tuple's signer holds the role, by the party map or else by the copy's own roster.
   */
  lemma PresentCopyIsVouchedFor(w: World, req: Request, bindings: seq<Binding>, r: Resolution)
    returns (x: Binding, roles: Roster)
    requires r.Present? && Resolves(w, req, bindings, r)
    ensures x in bindings && SignerOf(w, x).Some? && TupleMatches(w, req, x) && x.t.nativeAddress == r.nativeAddress
    ensures w.fetch(r.nativeAddress) == Object(r.bundle) && RoleClaims(w.k, r.bundle) == Some(roles)
    ensures ScopeHash(w.k.c.hash, w.k.json, r.bundle) == Some(x.t.contentHash)
    ensures r.bundle.jobId == req.jobId && FaultedPartyPermitted(r.bundle, roles)
    ensures AllSignFor(w.k, w.keys, roles, CopyDomain(r.bundle), x.t.contentHash, r.bundle)
    ensures IsAbort(r.bundle) || FullySigned(w.k, roles, r.bundle)
    ensures CopyAuthorises(w, req, x, Some(roles))
  {
    var c := TestsOf(w, req);
    x := PresentNamesTheBest(w, req, bindings, r);
    ValidCopyFacts(w, req, x);
    roles := RoleClaims(w.k, r.bundle).value;
    assert x in Members(bindings) && Authentic(c, x);
    assert c.matches(x);
  }

  // ----------------------------------------------------------------- outsiders and forgeries

  lemma NonCandidateKeepsForms(c: Tests, bs: set<Binding>, b: Binding)
    requires !Stands(c, b)
    ensures forall form :: SoleForm(c, bs + {b}, form) <==> SoleForm(c, bs, form)
    ensures forall x :: Wins(c, bs + {b}, x) <==> Wins(c, bs, x)
  {
    forall form ensures SoleForm(c, bs + {b}, form) <==> SoleForm(c, bs, form) {
      assert forall y :: y in bs + {b} && Stands(c, y) <==> y in bs && Stands(c, y);
    }
    forall x ensures Wins(c, bs + {b}, x) <==> Wins(c, bs, x) {
      assert forall y :: y in bs + {b} && Stands(c, y) <==> y in bs && Stands(c, y);
    }
  }

  ghost predicate Names(c: Tests, role: string, bs: set<Binding>, r: Resolution) {
    exists x :: Wins(c, bs, x) && r == Present(role, x.t.nativeAddress, c.evaluate(x).bundle)
  }

  lemma PresentMeans(c: Tests, role: string, bs: set<Binding>, overBudget: bool, r: Resolution)
    requires r.Present?
    ensures Meaning(c, role, bs, overBudget, r) <==>
      !overBudget && (forall b :: b in bs && Authentic(c, b) ==> c.matches(b)) && Names(c, role, bs, r)
  {
    if Names(c, role, bs, r) {
      var x :| Wins(c, bs, x) && r == Present(role, x.t.nativeAddress, c.evaluate(x).bundle);
      assert x in bs && c.published(x) && Authentic(c, x) && Candidate(c, x) && Stands(c, x);
      assert SoleForm(c, bs, Form(c, x));
    }
  }

  lemma OneMoreCandidate(c: Tests, earlier: seq<Binding>, b: Binding, later: seq<Binding>)
    ensures OverBudget(c, earlier + later) ==> OverBudget(c, earlier + [b] + later)
    ensures !Candidate(c, b) ==> (OverBudget(c, earlier + [b] + later) <==> OverBudget(c, earlier + later))
  {
    forall key
      ensures |Select(CandidateOf(c, key), earlier + [b] + later)| ==
        |Select(CandidateOf(c, key), earlier + later)| + if CandidateOf(c, key)(b) then 1 else 0
    {
      SelectInserted(CandidateOf(c, key), earlier, b, later);
    }
  }

  ghost predicate SameWinner(r: Resolution, s: Resolution) {
    (r.Present? <==> s.Present?) && (r.Present? ==> r == s)
  }

  lemma InsertedKeepsFrontRunners(c: Tests, earlier: seq<Binding>, b: Binding, later: seq<Binding>)
    requires !Stands(c, b)
    ensures var less, more := earlier + later, earlier + [b] + later;
      && Members(more) == Members(less) + {b}
      && Select(FrontRunnerIn(c, Members(more)), more) == Select(FrontRunnerIn(c, Members(less)), less)
  {
    var less, more := earlier + later, earlier + [b] + later;
    assert Members(more) == Members(less) + {b};
    NonCandidateKeepsForms(c, Members(less), b);
    forall x ensures FrontRunnerIn(c, Members(more))(x) <==> FrontRunnerIn(c, Members(less))(x) {
    }
    SelectSame(FrontRunnerIn(c, Members(more)), FrontRunnerIn(c, Members(less)), more);
    SelectInserted(FrontRunnerIn(c, Members(less)), earlier, b, later);
  }

  /** A present result survives exactly when the newcomer neither mismatches nor exhausts its signer's budget. */
  lemma InsertedKeepsPresence(c: Tests, role: string, earlier: seq<Binding>, b: Binding, later: seq<Binding>,
                              r: Resolution)
    requires r.Present? && !Stands(c, b)
    ensures var less, more := earlier + later, earlier + [b] + later;
      Meaning(c, role, Members(more), OverBudget(c, more), r) <==>
        (Meaning(c, role, Members(less), OverBudget(c, less), r)
        && (Authentic(c, b) ==> c.matches(b)) && !OverBudget(c, more))
  {
    var less, more := earlier + later, earlier + [b] + later;
    InsertedKeepsFrontRunners(c, earlier, b, later);
    NonCandidateKeepsForms(c, Members(less), b);
    PresentMeans(c, role, Members(less), OverBudget(c, less), r);
    PresentMeans(c, role, Members(more), OverBudget(c, more), r);
    OneMoreCandidate(c, earlier, b, later);
    assert forall y :: y in Members(more) <==> y in Members(less) || y == b;
  }

  /**
   * Inserting a binding that stands for nothing — unauthenticated, of a signer without the role, or with an absent,
   * unauthorised or invalid copy — changes neither whether the result is present nor which copy it names, exactly when
   * there was no present result to lose, or its tuple, if authentic, matches and its signer stays within the budget.
   * An outsider never touches a budget.
   */
  lemma OutsidersChangeNothingExactlyWhen(w: World, req: Request, earlier: seq<Binding>, b: Binding,
                                          later: seq<Binding>, r: Resolution, s: Resolution)
    requires !Stands(TestsOf(w, req), b)
    requires Resolves(w, req, earlier + later, r) && Resolves(w, req, earlier + [b] + later, s)
    ensures var c := TestsOf(w, req);
      && (SameWinner(r, s) <==>
            (!r.Present? || ((Authentic(c, b) ==> c.matches(b)) && !OverBudget(c, earlier + [b] + later))))
      && (!Candidate(c, b) ==> (OverBudget(c, earlier + [b] + later) <==> OverBudget(c, earlier + later)))
  {
    var c := TestsOf(w, req);
    var less, more := earlier + later, earlier + [b] + later;
    OneMoreCandidate(c, earlier, b, later);
    if !Malformed(req) {
      InsertedKeepsFrontRunners(c, earlier, b, later);
      if r.Present? {
        InsertedKeepsPresence(c, req.role, earlier, b, later, r);
        if Meaning(c, req.role, Members(more), OverBudget(c, more), r) {
          DispositionIsUnique(c, req.role, Members(more), OverBudget(c, more), r, s);
        }
      }
      if s.Present? {
        InsertedKeepsPresence(c, req.role, earlier, b, later, s);
        DispositionIsUnique(c, req.role, Members(less), OverBudget(c, less), r, s);
      }
    }
  }

  // ------------------------------------------------------- the tests on one binding, spelled out

  /** The signer's own ed25519 signature over the hex hash of the canonical tuple, in the binding domain. */
  predicate TupleIsSigned(w: World, b: Binding) {
    var sig, publicKey, json := w.k.decodeSignature(b.signature.value), w.keys(b.t.signer), w.tupleJson(b.t);
    && w.k.id.claimKey(b.t.signer).Some? && w.k.id.claimKey(b.signature.signer) == w.k.id.claimKey(b.t.signer)
    && b.signature.algorithm == "ed25519" && sig.Some? && publicKey.Some? && json.Some?
    && w.k.c.verify("dacs-bundle-binding:v1:", sig.value, w.k.c.utf8(BytesToHex(w.k.c.hash(json.value))),
         publicKey.value)
  }

  /** A complete first-version tuple for the requested job and role, at the address of these. */
  predicate TupleFits(w: World, req: Request, b: Binding) {
    && b.t.bindingVersion == "1" && b.t.jobId == req.jobId && b.t.role == req.role
    && b.t.logicalAddress == TwoSided.SideAddress(w.k, req.jobId, req.role)
    && b.t.nativeAddress != "" && |b.t.contentHash| == 64
    && forall i :: 0 <= i < 64 ==> '0' <= b.t.contentHash[i] <= '9' || 'a' <= b.t.contentHash[i] <= 'f'
  }

  /** A given party map gives the signer, under its claim text or else its key, the requested role. */
  predicate SignerIsMapped(w: World, req: Request, b: Binding) {
    req.partyMap.Some? ==>
      var name := if b.t.signer.TextClaim? then Some(b.t.signer.text) else w.k.id.claimKey(b.t.signer);
      name.Some? && name.value in req.partyMap.value && req.partyMap.value[name.value] == req.role
  }

  /** Without a party map the copy's own roster must give the signer the role. */
  predicate RosterGivesRole(w: World, req: Request, b: Binding, bundle: Bundle) {
    if req.partyMap.Some? then SignerIsMapped(w, req, b)
    else
      var roster, key := RoleClaims(w.k, bundle), w.k.id.claimKey(b.t.signer);
      roster.Some? && key.Some? && key.value in roster.value && roster.value[key.value] == req.role
  }

  /** A copy of this job with the promised hash, a permitted fault, and rostered signatures: all unless aborted. */
  predicate CopyIsGood(w: World, b: Binding, bundle: Bundle) {
    var json, roster := w.k.json.scope(ScopeOf(bundle)), RoleClaims(w.k, bundle);
    && json.Some? && roster.Some? && bundle.jobId == b.t.jobId
    && BytesToHex(w.k.c.hash(json.value)) == b.t.contentHash
    && IsARole(bundle.anchoredByRole) && bundle.anchoredByRole in roster.value.Values
    && bundle.faultedParty.Some? && MayBlame(bundle, roster.value, bundle.faultedParty.value)
    && bundle.signatures != []
    && (forall i :: 0 <= i < |bundle.signatures| ==>
          VerifiesFor(w.k, w.keys, roster.value,
            if bundle.version.evidenceBound.Some? then "dacs-evidence-bound-fault-bundle:v1:"
            else "dacs-fault-bundle:v1:",
            b.t.contentHash, bundle.signatures[i]))
    && (bundle.outcome != "aborted-by-self" && bundle.outcome != "aborted-by-other" ==>
          forall key :: key in roster.value ==> IsASignersKey(w.k, bundle, Some(key)))
  }

  lemma SignerSpelled(w: World, b: Binding)
    ensures SignerOf(w, b) == if TupleIsSigned(w, b) then w.k.id.claimKey(b.t.signer) else None
  {
  }

  lemma TupleSpelled(w: World, req: Request, b: Binding)
    ensures TupleMatches(w, req, b) <==> TupleFits(w, req, b)
    ensures MapAuthorises(w, req, b) <==> SignerIsMapped(w, req, b)
  {
    var h := b.t.contentHash;
    if |h| == 64 {
      if IsHex(h) && Lower(h) == h {
        forall i | 0 <= i < 64 ensures '0' <= h[i] <= '9' || 'a' <= h[i] <= 'f' { assert Lower(h)[i] == h[i]; }
      }
      if forall i :: 0 <= i < 64 ==> '0' <= h[i] <= '9' || 'a' <= h[i] <= 'f' {
        assert Lower(h) == h;
      }
    }
  }

  lemma SoundnessSpelled(w: World, b: Binding, bundle: Bundle)
    requires w.k.json.scope(ScopeOf(bundle)).Some? && RoleClaims(w.k, bundle).Some?
    ensures
      var roster, hash := RoleClaims(w.k, bundle).value, BytesToHex(w.k.c.hash(w.k.json.scope(ScopeOf(bundle)).value));
      CopyIsSound(w, b, bundle, roster, hash) <==> CopyIsGood(w, b, bundle)
  {
    var roster, hash := RoleClaims(w.k, bundle).value, BytesToHex(w.k.c.hash(w.k.json.scope(ScopeOf(bundle)).value));
    PermissionSpelled(bundle, roster);
    SignaturesSpelled(w.k, w.keys, roster, CopyDomain(bundle), hash, bundle);
  }

  /** A fetched copy is passed over, faulty, or valid with the scope it was signed over. */
  lemma EvaluationSpelled(w: World, req: Request, b: Binding)
    ensures
      var fetched, v := w.fetch(b.t.nativeAddress), Evaluate(w, req, b);
      && (fetched.NotAnObject? ==> v.Inert?)
      && (fetched.Object? ==>
            var json := w.k.json.scope(ScopeOf(fetched.bundle));
            && (v.Invalid? <==>
                  json.None? || (RosterGivesRole(w, req, b, fetched.bundle) && !CopyIsGood(w, b, fetched.bundle)))
            && (v.Valid? <==> RosterGivesRole(w, req, b, fetched.bundle) && CopyIsGood(w, b, fetched.bundle))
            && (v.Valid? ==>
                  && v.bundle == fetched.bundle && json == Some(v.scope)
                  && (v.fullySigned <==> forall key :: key in RoleClaims(w.k, v.bundle).value ==>
                        IsASignersKey(w.k, v.bundle, Some(key)))))
  {
    TupleSpelled(w, req, b);
    var fetched := w.fetch(b.t.nativeAddress);
    if fetched.Object? && w.k.json.scope(ScopeOf(fetched.bundle)).Some? && RoleClaims(w.k, fetched.bundle).Some? {
      SoundnessSpelled(w, b, fetched.bundle);
      SignaturesSpelled(w.k, w.keys, RoleClaims(w.k, fetched.bundle).value, "", "", fetched.bundle);
    }
  }

  /** All tests at once, as the resolution applies them. */
  lemma TestsSpelled(w: World, req: Request, b: Binding)
    ensures
      var c := TestsOf(w, req);
      && (c.published(b) <==> b.t.logicalAddress == TwoSided.SideAddress(w.k, req.jobId, req.role))
      && c.signer(b) == (if TupleIsSigned(w, b) then w.k.id.claimKey(b.t.signer) else None)
      && (c.matches(b) <==> TupleFits(w, req, b)) && (c.authorised(b) <==> SignerIsMapped(w, req, b))
      && c.evaluate(b) == Evaluate(w, req, b)
      && c.budget == (if req.budget.Some? && req.budget.value > 0 then req.budget.value else 8)
  {
    SignerSpelled(w, b);
    TupleSpelled(w, req, b);
  }

  /** The request is refused without a job, or with a role that is none. */
  lemma RequestSpelled(req: Request)
    ensures Malformed(req) <==> req.jobId == "" || !IsARole(req.role)
  {
  }

  predicate IsPublished(w: World, req: Request, b: Binding) {
    b.t.logicalAddress == TwoSided.SideAddress(w.k, req.jobId, req.role)
  }

  /** A published, signed tuple of a signer that a party map, if there is one, gives the role. */
  predicate IsContender(w: World, req: Request, b: Binding) {
    IsPublished(w, req, b) && TupleIsSigned(w, b) && SignerIsMapped(w, req, b)
  }

  predicate HasGoodCopy(w: World, req: Request, b: Binding) {
    var fetched := w.fetch(b.t.nativeAddress);
    fetched.Object? && RosterGivesRole(w, req, b, fetched.bundle) && CopyIsGood(w, b, fetched.bundle)
  }

  /** A fetched object that cannot be canonicalised, or belongs to the role and yet is not good. */
  predicate HasBadCopy(w: World, req: Request, b: Binding) {
    var fetched := w.fetch(b.t.nativeAddress);
    && fetched.Object?
    && (w.k.json.scope(ScopeOf(fetched.bundle)).None?
        || (RosterGivesRole(w, req, b, fetched.bundle) && !CopyIsGood(w, b, fetched.bundle)))
  }

  ghost predicate Any(bindings: seq<Binding>, p: Binding -> bool) {
    exists b :: b in bindings && p(b)
  }

  /** The tests as callers can make them, in the order in which the resolution asks. */
  datatype Spelling = Spelling(
    here: Binding -> bool,       // published at the requested side
    signed: Binding -> bool,     // there, and signed
    unsigned: Binding -> bool,   // there, and not signed
    misfit: Binding -> bool,     // signed there, for something else
    contender: Binding -> bool,  // signed there, by a signer with the role
    good: Binding -> bool,       // a contender with a good copy
    faulty: Binding -> bool)     // unsigned there, or a contender with a bad copy

  function SpellingOf(w: World, req: Request): Spelling {
    Spelling(
      b => IsPublished(w, req, b),
      b => IsPublished(w, req, b) && TupleIsSigned(w, b),
      b => IsPublished(w, req, b) && !TupleIsSigned(w, b),
      b => IsPublished(w, req, b) && TupleIsSigned(w, b) && !TupleFits(w, req, b),
      b => IsContender(w, req, b),
      b => IsContender(w, req, b) && HasGoodCopy(w, req, b),
      b => (IsPublished(w, req, b) && !TupleIsSigned(w, b)) || (IsContender(w, req, b) && HasBadCopy(w, req, b)))
  }

  ghost predicate Spells(t: Spelling, c: Tests) {
    && (forall b :: t.here(b) <==> c.published(b))
    && (forall b :: t.signed(b) <==> Authentic(c, b))
    && (forall b :: t.unsigned(b) <==> c.published(b) && c.signer(b).None?)
    && (forall b :: t.misfit(b) <==> Authentic(c, b) && !c.matches(b))
    && (forall b :: t.contender(b) <==> Candidate(c, b))
    && (forall b :: t.good(b) <==> Stands(c, b))
    && (forall b :: t.faulty(b) <==> Faulty(c, b))
  }

  lemma SpellingFits(w: World, req: Request)
    ensures Spells(SpellingOf(w, req), TestsOf(w, req))
  {
    var t, c := SpellingOf(w, req), TestsOf(w, req);
    forall b
      ensures t.here(b) <==> c.published(b)
      ensures t.signed(b) <==> Authentic(c, b)
      ensures t.unsigned(b) <==> c.published(b) && c.signer(b).None?
      ensures t.misfit(b) <==> Authentic(c, b) && !c.matches(b)
      ensures t.contender(b) <==> Candidate(c, b)
      ensures t.good(b) <==> Stands(c, b)
      ensures t.faulty(b) <==> Faulty(c, b)
    {
      TestsSpelled(w, req, b);
      EvaluationSpelled(w, req, b);
    }
  }

  lemma AnyMember(bindings: seq<Binding>, p: Binding -> bool, q: Binding -> bool)
    requires forall b :: p(b) <==> q(b)
    ensures Any(bindings, p) <==> exists b :: b in Members(bindings) && q(b)
  {
  }

  lemma EarlyMeaningSpelled(c: Tests, t: Spelling, role: string, bindings: seq<Binding>, overBudget: bool,
                            r: Resolution)
    requires Spells(t, c) && Meaning(c, role, Members(bindings), overBudget, r)
    ensures !Any(bindings, t.here) ==> r == Undecided
    ensures Any(bindings, t.misfit) ==> r == Rejected
    ensures Any(bindings, t.here) && !Any(bindings, t.signed) ==> r == Rejected
    ensures Any(bindings, t.signed) && !Any(bindings, t.misfit) && !Any(bindings, t.contender) ==> r == Undecided
    ensures Any(bindings, t.contender) && !Any(bindings, t.misfit) ==>
      Settles(c, role, Members(bindings), overBudget, r)
  {
    AnyMember(bindings, t.here, c.published);
    AnyMember(bindings, t.signed, b => Authentic(c, b));
    AnyMember(bindings, t.misfit, b => Authentic(c, b) && !c.matches(b));
    AnyMember(bindings, t.contender, b => Candidate(c, b));
  }

  lemma SettlementSpelled(c: Tests, t: Spelling, role: string, bindings: seq<Binding>, overBudget: bool, r: Resolution)
    requires Spells(t, c) && Settles(c, role, Members(bindings), overBudget, r)
    ensures overBudget ==> r == Undecided
    ensures !overBudget && !Any(bindings, t.good) ==> r == if Any(bindings, t.faulty) then Rejected else Undecided
  {
    AnyMember(bindings, t.good, b => Stands(c, b));
    AnyMember(bindings, t.faulty, b => Faulty(c, b));
  }

  /**
   * What a result that is not present says. Rejected: a signed tuple here does not fit, or all here are unsigned, or
   * no copy is good and some tuple is unsigned or some contender's copy bad. Undecided: nothing here, no contender,
   * too many of one signer, or no good copy and nothing bad.
   */
  lemma DispositionSpelled(w: World, req: Request, bindings: seq<Binding>, r: Resolution)
    requires Resolves(w, req, bindings, r)
    ensures req.jobId == "" || !IsARole(req.role) ==> r == Rejected
    ensures req.jobId != "" && IsARole(req.role) ==>
      var t, exhausted := SpellingOf(w, req), OverBudget(TestsOf(w, req), bindings);
      && (!Any(bindings, t.here) ==> r == Undecided)
      && (Any(bindings, t.misfit) ==> r == Rejected)
      && (Any(bindings, t.here) && !Any(bindings, t.signed) ==> r == Rejected)
      && (Any(bindings, t.signed) && !Any(bindings, t.misfit) && !Any(bindings, t.contender) ==> r == Undecided)
      && (Any(bindings, t.contender) && !Any(bindings, t.misfit) && exhausted ==> r == Undecided)
      && (Any(bindings, t.contender) && !Any(bindings, t.misfit) && !exhausted && !Any(bindings, t.good) ==>
            r == if Any(bindings, t.faulty) then Rejected else Undecided)
  {
    RequestSpelled(req);
    SpellingFits(w, req);
    if !Malformed(req) {
      var c, t := TestsOf(w, req), SpellingOf(w, req);
      EarlyMeaningSpelled(c, t, req.role, bindings, OverBudget(c, bindings), r);
      if Settles(c, req.role, Members(bindings), OverBudget(c, bindings), r) {
        SettlementSpelled(c, t, req.role, bindings, OverBudget(c, bindings), r);
      }
    }
  }

  /** A present result names a listed binding whose tuple is signed and fits, and that binding's good copy. */
  lemma PresentCopyIsSigned(w: World, req: Request, bindings: seq<Binding>, r: Resolution) returns (x: Binding)
    requires r.Present? && Resolves(w, req, bindings, r)
    ensures x in bindings && TupleIsSigned(w, x) && TupleFits(w, req, x) && SignerIsMapped(w, req, x)
    ensures r.role == req.role && r.nativeAddress == x.t.nativeAddress && w.fetch(r.nativeAddress) == Object(r.bundle)
    ensures RosterGivesRole(w, req, x, r.bundle) && CopyIsGood(w, x, r.bundle)
  {
    x := PresentNamesTheBest(w, req, bindings, r);
    TestsSpelled(w, req, x);
    EvaluationSpelled(w, req, x);
    PresentMatches(TestsOf(w, req), req.role, Members(bindings), OverBudget(TestsOf(w, req), bindings), r, x);
    ValidCopyFacts(w, req, x);
  }

  lemma PresentMatches(c: Tests, role: string, bs: set<Binding>, overBudget: bool, r: Resolution, x: Binding)
    requires r.Present? && Meaning(c, role, bs, overBudget, r) && x in bs && Stands(c, x)
    ensures c.matches(x) && c.signer(x).Some? && c.authorised(x)
  {
    PresentMeans(c, role, bs, overBudget, r);
  }

  /** A tuple whose signature does not verify rejects nothing by what it says, and is never what is named. */
  lemma ForgedTupleDecidesNothing(w: World, req: Request, earlier: seq<Binding>, b: Binding, later: seq<Binding>,
                                  r: Resolution, s: Resolution)
    requires !TupleIsSigned(w, b)
    requires Resolves(w, req, earlier + later, r) && Resolves(w, req, earlier + [b] + later, s)
    ensures r.Present? <==> s.Present?
    ensures r.Present? ==> r == s
  {
    TestsSpelled(w, req, b);
    OutsidersChangeNothingExactlyWhen(w, req, earlier, b, later, r, s);
    if r.Present? {
      var c, bindings := TestsOf(w, req), earlier + later;
      PresentMeans(c, req.role, Members(bindings), OverBudget(c, bindings), r);
    }
  }

  // ------------------------------------------------------------------------ the stages

  method Filter(keep: Binding -> bool, items: seq<Binding>) returns (kept: seq<Binding>)
    ensures kept == Select(keep, items)
  {
    kept := [];
    for i := 0 to |items|
      invariant kept == Select(keep, items[..i])
    {
      assert items[..i + 1][..i] == items[..i];
      if keep(items[i]) { kept := kept + [items[i]]; }
    }
    assert items[..|items|] == items;
  }

  function IsSigned(c: Tests): Binding -> bool { b => c.signer(b).Some? }

  /** None when some authenticated tuple does not match. */
  method Authenticate(c: Tests, here: seq<Binding>) returns (authenticated: Option<seq<Binding>>, observedInvalid: bool)
    ensures authenticated.None? <==> exists b :: b in here && c.signer(b).Some? && !c.matches(b)
    ensures authenticated.Some? ==> authenticated.value == Select(IsSigned(c), here)
    ensures authenticated.Some? ==> (observedInvalid <==> exists b :: b in here && c.signer(b).None?)
  {
    var result: seq<Binding> := [];
    observedInvalid := false;
    for i := 0 to |here|
      invariant result == Select(IsSigned(c), here[..i])
      invariant observedInvalid <==> exists j :: 0 <= j < i && c.signer(here[j]).None?
      invariant forall j :: 0 <= j < i && c.signer(here[j]).Some? ==> c.matches(here[j])
    {
      assert here[..i + 1][..i] == here[..i];
      if c.signer(here[i]).None? {
        observedInvalid := true;
        continue;
      }
      if !c.matches(here[i]) {
        assert here[i] in here;
        return None, observedInvalid;
      }
      result := result + [here[i]];
    }
    assert here[..|here|] == here;
    if observedInvalid {
      var j :| 0 <= j < |here| && c.signer(here[j]).None?;
      assert here[j] in here;
    }
    authenticated := Some(result);
  }

  function Keyed<K(==)>(keyOf: Binding -> K, key: K): Binding -> bool { b => keyOf(b) == key }

  /** A Map from key to the items with that key, and its keys in insertion order. */
  datatype Groups<K> = Groups(byKey: map<K, seq<Binding>>, order: seq<K>)

  ghost predicate OrderListsKeys<K(!new)>(g: Groups<K>) {
    && (forall i, j :: 0 <= i < j < |g.order| ==> g.order[i] != g.order[j])
    && (forall key :: key in g.order <==> key in g.byKey)
  }

  ghost predicate KeysAreTheItems<K(!new)>(keyOf: Binding -> K, items: seq<Binding>, g: Groups<K>) {
    && (forall key :: key in g.byKey ==> exists i :: 0 <= i < |items| && keyOf(items[i]) == key)
    && (forall i :: 0 <= i < |items| ==> keyOf(items[i]) in g.byKey)
  }

  ghost predicate BucketsAreSelections<K(!new)>(keyOf: Binding -> K, items: seq<Binding>, g: Groups<K>) {
    forall key :: key in g.byKey ==> g.byKey[key] == Select(Keyed(keyOf, key), items)
  }

  function Add<K(==)>(g: Groups<K>, key: K, x: Binding): Groups<K> {
    Groups(
      g.byKey[key := (if key in g.byKey then g.byKey[key] else []) + [x]],
      if key in g.byKey then g.order else g.order + [key])
  }

  function GroupsOf<K(==)>(keyOf: Binding -> K, items: seq<Binding>): Groups<K> {
    if |items| == 0 then Groups(map[], [])
    else Add(GroupsOf(keyOf, items[..|items| - 1]), keyOf(items[|items| - 1]), items[|items| - 1])
  }

  lemma OrderGrows<K(!new)>(g: Groups<K>, key: K, x: Binding)
    requires OrderListsKeys(g)
    ensures OrderListsKeys(Add(g, key, x))
  {
  }

  lemma KeysGrow<K(!new)>(keyOf: Binding -> K, items: seq<Binding>, g: Groups<K>, x: Binding)
    requires KeysAreTheItems(keyOf, items, g)
    ensures KeysAreTheItems(keyOf, items + [x], Add(g, keyOf(x), x))
  {
    var grown := Add(g, keyOf(x), x);
    forall key | key in grown.byKey ensures exists i :: 0 <= i < |items + [x]| && keyOf((items + [x])[i]) == key {
      if key == keyOf(x) {
        assert (items + [x])[|items|] == x;
      } else {
        var i :| 0 <= i < |items| && keyOf(items[i]) == key;
        assert (items + [x])[i] == items[i];
      }
    }
  }

  lemma BucketsGrow<K(!new)>(keyOf: Binding -> K, items: seq<Binding>, g: Groups<K>, x: Binding)
    requires KeysAreTheItems(keyOf, items, g) && BucketsAreSelections(keyOf, items, g)
    ensures BucketsAreSelections(keyOf, items + [x], Add(g, keyOf(x), x))
  {
    var grown := Add(g, keyOf(x), x);
    forall key | key in grown.byKey ensures grown.byKey[key] == Select(Keyed(keyOf, key), items + [x]) {
      SelectSnoc(Keyed(keyOf, key), items, x);
      if key !in g.byKey {
        NoneSelected(Keyed(keyOf, key), items);
      }
    }
  }

  lemma GroupsSnoc<K>(keyOf: Binding -> K, items: seq<Binding>, x: Binding)
    ensures GroupsOf(keyOf, items + [x]) == Add(GroupsOf(keyOf, items), keyOf(x), x)
  {
    assert (items + [x])[..|items|] == items;
  }

  lemma {:induction false} GroupsListTheirKeys<K(!new)>(keyOf: Binding -> K, items: seq<Binding>)
    ensures OrderListsKeys(GroupsOf(keyOf, items))
  {
    if |items| > 0 {
      var init, x := items[..|items| - 1], items[|items| - 1];
      GroupsListTheirKeys(keyOf, init);
      OrderGrows(GroupsOf(keyOf, init), keyOf(x), x);
    }
  }

  lemma {:induction false} GroupsHoldTheItems<K(!new)>(keyOf: Binding -> K, items: seq<Binding>)
    ensures KeysAreTheItems(keyOf, items, GroupsOf(keyOf, items))
  {
    if |items| > 0 {
      var init, x := items[..|items| - 1], items[|items| - 1];
      GroupsHoldTheItems(keyOf, init);
      KeysGrow(keyOf, init, GroupsOf(keyOf, init), x);
      GroupsSnoc(keyOf, init, x);
      assert init + [x] == items;
    }
  }

  lemma {:induction false} GroupsSelect<K(!new)>(keyOf: Binding -> K, items: seq<Binding>)
    ensures BucketsAreSelections(keyOf, items, GroupsOf(keyOf, items))
  {
    if |items| > 0 {
      var init, x := items[..|items| - 1], items[|items| - 1];
      GroupsSelect(keyOf, init);
      GroupsHoldTheItems(keyOf, init);
      BucketsGrow(keyOf, init, GroupsOf(keyOf, init), x);
      GroupsSnoc(keyOf, init, x);
      assert init + [x] == items;
    }
  }

  lemma GroupsAreGroups<K(!new)>(keyOf: Binding -> K, items: seq<Binding>)
    ensures OrderListsKeys(GroupsOf(keyOf, items))
    ensures KeysAreTheItems(keyOf, items, GroupsOf(keyOf, items))
    ensures BucketsAreSelections(keyOf, items, GroupsOf(keyOf, items))
  {
    GroupsListTheirKeys(keyOf, items);
    GroupsHoldTheItems(keyOf, items);
    GroupsSelect(keyOf, items);
  }

  method GroupBy<K(==)>(keyOf: Binding -> K, items: seq<Binding>) returns (g: Groups<K>)
    ensures g == GroupsOf(keyOf, items)
  {
    var byKey: map<K, seq<Binding>>, order: seq<K> := map[], [];
    for i := 0 to |items|
      invariant Groups(byKey, order) == GroupsOf(keyOf, items[..i])
    {
      var key := keyOf(items[i]);
      var bucket := if key in byKey then byKey[key] else [];
      assert items[..i + 1][..i] == items[..i];
      if key !in byKey { order := order + [key]; }
      byKey := byKey[key := bucket + [items[i]]];
    }
    assert items[..|items|] == items;
    g := Groups(byKey, order);
  }

  // -------------------------------------------------------------- buckets and the budget

  function AddressOrderOf(c: Tests): (Binding, Binding) -> bool { (x, y) => AddressOrder(c, x, y) }

  function PrecedenceOf(c: Tests): (Binding, Binding) -> bool { (x, y) => Precedes(c, x, y) }

  lemma OrdersArePreorders(c: Tests)
    requires TotalPreorder(c.leq)
    ensures TotalPreorder(AddressOrderOf(c)) && TotalPreorder(PrecedenceOf(c))
  {
    var before := AddressOrderOf(c);
    forall x, y, z | before(x, y) && before(y, z) ensures before(x, z) {
      assert AddressOrder(c, x, y) && AddressOrder(c, y, z);
      assert c.leq(x.t.contentHash, z.t.contentHash);
      if c.leq(z.t.contentHash, x.t.contentHash) {
        assert c.leq(y.t.contentHash, x.t.contentHash) && c.leq(z.t.contentHash, y.t.contentHash);
      }
      assert AddressOrder(c, x, z);
    }
    forall x, y ensures before(x, y) || before(y, x) {
      assert AddressOrder(c, x, y) || AddressOrder(c, y, x);
    }
    PrecedenceIsPreorder(c);
  }

  lemma PrecedenceIsPreorder(c: Tests)
    requires TotalPreorder(AddressOrderOf(c))
    ensures TotalPreorder(PrecedenceOf(c))
  {
    var before, precedes := AddressOrderOf(c), PrecedenceOf(c);
    forall x, y, z | precedes(x, y) && precedes(y, z) ensures precedes(x, z) {
      if Full(c, x) == Full(c, z) {
        assert before(x, y) && before(y, z);
        assert before(x, z);
      }
    }
    forall x, y ensures precedes(x, y) || precedes(y, x) {
      assert before(x, y) || before(y, x);
    }
  }

  /** The same members in order, those that tie as they were. */
  ghost predicate IsSortOf(c: Tests, listed: seq<Binding>, sorted: seq<Binding>) {
    && Sorted(AddressOrderOf(c), sorted)
    && multiset(sorted) == multiset(listed)
    && Stable(AddressOrderOf(c), listed, sorted)
  }

  lemma SortKeepsLength(c: Tests, listed: seq<Binding>, sorted: seq<Binding>)
    requires IsSortOf(c, listed, sorted)
    ensures |sorted| == |listed|
  {
    assert |multiset(sorted)| == |sorted| && |multiset(listed)| == |listed|;
  }

  /** Each bucket sorted by content hash and address; None once one exceeds the budget. */
  method SortBuckets(c: Tests, g: Groups<string>) returns (buckets: Option<map<string, seq<Binding>>>)
    requires TotalPreorder(c.leq) && OrderListsKeys(g)
    ensures buckets.None? <==> exists key :: key in g.byKey && |g.byKey[key]| > c.budget
    ensures buckets.Some? ==> buckets.value.Keys == g.byKey.Keys
    ensures buckets.Some? ==> forall key :: key in g.byKey ==> IsSortOf(c, g.byKey[key], buckets.value[key])
  {
    OrdersArePreorders(c);
    var result: map<string, seq<Binding>> := map[];
    for i := 0 to |g.order|
      invariant forall key :: key in result <==> exists j :: 0 <= j < i && g.order[j] == key
      invariant forall key :: key in result ==> key in g.byKey && |g.byKey[key]| <= c.budget
      invariant forall key :: key in result ==> IsSortOf(c, g.byKey[key], result[key])
    {
      var key := g.order[i];
      assert key in g.byKey;
      var sorted := SortBy(AddressOrderOf(c), g.byKey[key]);
      SortKeepsLength(c, g.byKey[key], sorted);
      if |sorted| > c.budget {
        return None;
      }
      result := result[key := sorted];
    }
    forall key | key in g.byKey ensures key in result {
      assert key in g.order;
    }
    buckets := Some(result);
  }

  lemma CandidateMembers(c: Tests, bindings: seq<Binding>, candidates: seq<Binding>)
    requires candidates == Select(c.authorised, Select(IsSigned(c), Select(c.published, bindings)))
    ensures forall b :: b in candidates <==> b in bindings && Candidate(c, b)
  {
    SelectMembers(c.published, bindings);
    SelectMembers(IsSigned(c), Select(c.published, bindings));
    SelectMembers(c.authorised, Select(IsSigned(c), Select(c.published, bindings)));
  }

  /** A signer's bucket holds its candidates, repeats counted. */
  lemma BucketSize(c: Tests, bindings: seq<Binding>, candidates: seq<Binding>, key: string)
    requires candidates == Select(c.authorised, Select(IsSigned(c), Select(c.published, bindings)))
    ensures |Select(Keyed(SignerKey(c), key), candidates)| == |Select(CandidateOf(c, key), bindings)|
  {
    forall b
      ensures multiset(Select(Keyed(SignerKey(c), key), candidates))[b] ==
        multiset(Select(CandidateOf(c, key), bindings))[b]
    {
      SelectCounts(c.published, bindings, b);
      SelectCounts(IsSigned(c), Select(c.published, bindings), b);
      SelectCounts(c.authorised, Select(IsSigned(c), Select(c.published, bindings)), b);
      SelectCounts(Keyed(SignerKey(c), key), candidates, b);
      SelectCounts(CandidateOf(c, key), bindings, b);
    }
    SameCountsSameLength(Select(Keyed(SignerKey(c), key), candidates), Select(CandidateOf(c, key), bindings));
  }

  lemma BudgetOfBuckets(c: Tests, bindings: seq<Binding>, candidates: seq<Binding>, g: Groups<string>)
    requires candidates == Select(c.authorised, Select(IsSigned(c), Select(c.published, bindings)))
    requires g == GroupsOf(SignerKey(c), candidates)
    ensures (exists key :: key in g.byKey && |g.byKey[key]| > c.budget) <==> OverBudget(c, bindings)
  {
    GroupsAreGroups(SignerKey(c), candidates);
    forall key
      ensures (key in g.byKey && |g.byKey[key]| > c.budget) <==> |Select(CandidateOf(c, key), bindings)| > c.budget {
      BucketSize(c, bindings, candidates, key);
      if key !in g.byKey {
        NoneSelected(Keyed(SignerKey(c), key), candidates);
      }
    }
  }

  // --------------------------------------------------------------------- fetched copies

  function IsValidCopy(c: Tests): Binding -> bool { b => c.evaluate(b).Valid? }

  method EvaluateBucket(c: Tests, bucket: seq<Binding>) returns (copies: seq<Binding>, anyInvalid: bool)
    ensures copies == Select(IsValidCopy(c), bucket)
    ensures anyInvalid <==> exists b :: b in bucket && c.evaluate(b).Invalid?
  {
    copies, anyInvalid := [], false;
    for i := 0 to |bucket|
      invariant copies == Select(IsValidCopy(c), bucket[..i])
      invariant anyInvalid <==> exists j :: 0 <= j < i && c.evaluate(bucket[j]).Invalid?
    {
      assert bucket[..i + 1][..i] == bucket[..i];
      match c.evaluate(bucket[i]) {
        case Inert =>
        case Invalid => anyInvalid := true;
        case Valid(_, _, _) => copies := copies + [bucket[i]];
      }
    }
    assert bucket[..|bucket|] == bucket;
    if anyInvalid {
      var j :| 0 <= j < |bucket| && c.evaluate(bucket[j]).Invalid?;
      assert bucket[j] in bucket;
    }
  }

  predicate InBuckets(buckets: map<string, seq<Binding>>, signers: seq<string>, b: Binding) {
    exists i :: 0 <= i < |signers| && signers[i] in buckets && b in buckets[signers[i]]
  }

  /** The bindings in the order in which they are fetched. */
  function Visited(buckets: map<string, seq<Binding>>, signers: seq<string>): seq<Binding> {
    if |signers| == 0 then []
    else
      var last := signers[|signers| - 1];
      Visited(buckets, signers[..|signers| - 1]) + (if last in buckets then buckets[last] else [])
  }

  lemma VisitedSnoc(buckets: map<string, seq<Binding>>, signers: seq<string>, s: string)
    requires s in buckets
    ensures Visited(buckets, signers + [s]) == Visited(buckets, signers) + buckets[s]
  {
    assert (signers + [s])[..|signers|] == signers;
  }

  method EvaluateAll(c: Tests, buckets: map<string, seq<Binding>>, signers: seq<string>, observedInvalid: bool)
    returns (copies: seq<Binding>, presentInvalid: bool)
    requires forall s :: s in signers ==> s in buckets
    ensures copies == Select(IsValidCopy(c), Visited(buckets, signers))
    ensures forall b :: b in copies <==> c.evaluate(b).Valid? && InBuckets(buckets, signers, b)
    ensures presentInvalid <==> observedInvalid || exists b :: InBuckets(buckets, signers, b) && c.evaluate(b).Invalid?
  {
    copies, presentInvalid := [], observedInvalid;
    for i := 0 to |signers|
      invariant copies == Select(IsValidCopy(c), Visited(buckets, signers[..i]))
      invariant presentInvalid <==>
        observedInvalid || exists b :: b in Visited(buckets, signers[..i]) && c.evaluate(b).Invalid?
    {
      var more, anyInvalid := EvaluateBucket(c, buckets[signers[i]]);
      assert signers[..i + 1] == signers[..i] + [signers[i]];
      VisitedSnoc(buckets, signers[..i], signers[i]);
      SelectConcat(IsValidCopy(c), Visited(buckets, signers[..i]), buckets[signers[i]]);
      copies := copies + more;
      presentInvalid := presentInvalid || anyInvalid;
    }
    assert signers[..|signers|] == signers;
    SelectMembers(IsValidCopy(c), Visited(buckets, signers));
    VisitedMembers(buckets, signers);
  }

  lemma {:induction false} VisitedMembers(buckets: map<string, seq<Binding>>, signers: seq<string>)
    ensures forall b :: b in Visited(buckets, signers) <==> InBuckets(buckets, signers, b)
  {
    if |signers| > 0 {
      var init, last := signers[..|signers| - 1], signers[|signers| - 1];
      VisitedMembers(buckets, init);
      forall b ensures b in Visited(buckets, signers) <==> InBuckets(buckets, signers, b) {
        if last in buckets && b in buckets[last] {
          assert signers[|signers| - 1] == last;
        }
        if i :| 0 <= i < |init| && init[i] in buckets && b in buckets[init[i]] {
          assert signers[i] == init[i];
        }
        if i :| 0 <= i < |init| && signers[i] in buckets && b in buckets[signers[i]] {
          assert init[i] == signers[i];
        }
      }
    }
  }

  // ------------------------------------------------------------------------ the winner

  function FormOf(c: Tests): Binding -> Bytes { b => Form(c, b) }

  predicate HasFull(c: Tests, group: seq<Binding>) {
    exists i :: 0 <= i < |group| && Full(c, group[i])
  }

  method FullForms(c: Tests, g: Groups<Bytes>) returns (full: seq<Bytes>)
    requires OrderListsKeys(g)
    ensures forall i, j :: 0 <= i < j < |full| ==> full[i] != full[j]
    ensures forall form :: form in full <==> form in g.byKey && HasFull(c, g.byKey[form])
  {
    full := [];
    for i := 0 to |g.order|
      invariant forall m, n :: 0 <= m < n < |full| ==> full[m] != full[n]
      invariant forall form :: form in full <==> form in g.order[..i] && form in g.byKey && HasFull(c, g.byKey[form])
    {
      assert g.order[..i + 1] == g.order[..i] + [g.order[i]];
      assert g.order[i] in g.byKey;
      if HasFull(c, g.byKey[g.order[i]]) { full := full + [g.order[i]]; }
    }
    assert g.order[..|g.order|] == g.order;
  }

  lemma FormsOfCopies(c: Tests, copies: seq<Binding>, g: Groups<Bytes>)
    requires g == GroupsOf(FormOf(c), copies)
    ensures OrderListsKeys(g) && BucketsAreSelections(FormOf(c), copies, g)
    ensures forall form :: form in g.byKey <==> exists b :: b in copies && Form(c, b) == form
  {
    GroupsAreGroups(FormOf(c), copies);
    forall form ensures form in g.byKey <==> exists b :: b in copies && Form(c, b) == form {
      if form in g.byKey {
        var i :| 0 <= i < |copies| && FormOf(c)(copies[i]) == form;
        assert copies[i] in copies && Form(c, copies[i]) == form;
      }
      if b :| b in copies && Form(c, b) == form {
        var i :| 0 <= i < |copies| && copies[i] == b;
        assert FormOf(c)(copies[i]) == form;
      }
    }
  }

  lemma GroupOfForm(c: Tests, copies: seq<Binding>, group: seq<Binding>, form: Bytes)
    requires group == Select(Keyed(FormOf(c), form), copies)
    ensures forall b :: b in group <==> b in copies && Form(c, b) == form
    ensures HasFull(c, group) <==> exists b :: b in copies && Form(c, b) == form && Full(c, b)
  {
    SelectMembers(Keyed(FormOf(c), form), copies);
    assert forall b :: b in group <==> b in copies && Form(c, b) == form;
    if HasFull(c, group) {
      var i :| 0 <= i < |group| && Full(c, group[i]);
      assert group[i] in group;
    }
    if b :| b in copies && Form(c, b) == form && Full(c, b) {
      assert b in group;
      var i :| 0 <= i < |group| && group[i] == b;
    }
  }

  /** What the grouping says of the copies' forms. */
  lemma FormsOfGroups(c: Tests, copies: seq<Binding>, g: Groups<Bytes>)
    requires g == GroupsOf(FormOf(c), copies)
    ensures OrderListsKeys(g) && BucketsAreSelections(FormOf(c), copies, g)
    ensures forall form :: form in g.byKey <==> exists b :: b in copies && Form(c, b) == form
    ensures forall form :: form in g.byKey ==> forall b :: b in g.byKey[form] <==> b in copies && Form(c, b) == form
    ensures forall form :: form in g.byKey ==>
      (HasFull(c, g.byKey[form]) <==> exists b :: b in copies && Form(c, b) == form && Full(c, b))
  {
    FormsOfCopies(c, copies, g);
    forall form | form in g.byKey
      ensures forall b :: b in g.byKey[form] <==> b in copies && Form(c, b) == form
      ensures HasFull(c, g.byKey[form]) <==> exists b :: b in copies && Form(c, b) == form && Full(c, b)
    {
      GroupOfForm(c, copies, g.byKey[form], form);
    }
  }

  /** The forms left standing, as the source narrows them down. */
  function StandingForms(order: seq<Bytes>, full: seq<Bytes>): seq<Bytes> {
    if |order| > 1 && |full| > 0 then full else order
  }

  /** One form is left exactly when the copies have a sole form, and then it is that one. */
  lemma OneFormLeft(c: Tests, copies: seq<Binding>, order: seq<Bytes>, full: seq<Bytes>)
    requires |copies| > 0 && forall b :: b in copies ==> Stands(c, b)
    requires forall i, j :: 0 <= i < j < |order| ==> order[i] != order[j]
    requires forall i, j :: 0 <= i < j < |full| ==> full[i] != full[j]
    requires forall form :: form in order <==> exists b :: b in copies && Form(c, b) == form
    requires forall form :: form in full <==> exists b :: b in copies && Form(c, b) == form && Full(c, b)
    ensures var left := StandingForms(order, full);
      && (|left| == 1 ==> SoleForm(c, Members(copies), left[0]))
      && (|left| != 1 ==> forall form :: !SoleForm(c, Members(copies), form))
  {
    var bs, left := Members(copies), StandingForms(order, full);
    assert Form(c, copies[0]) in order;
    assert forall b :: b in bs <==> b in copies;
    assert forall b :: b in copies && Full(c, b) ==> Form(c, b) in full;
    if |left| == 1 {
      assert left[0] in left;
      assert forall form :: form in left ==> form == left[0];
      if |order| > 1 && |full| > 0 {
        var f :| f in copies && Form(c, f) == left[0] && Full(c, f);
        assert f in bs && Stands(c, f);
        assert forall b :: b in bs && Stands(c, b) && Full(c, b) ==> Form(c, b) in full;
      } else {
        assert copies[0] in copies && copies[0] in bs && Form(c, copies[0]) == left[0];
        assert forall b :: b in bs && Stands(c, b) ==> Form(c, b) in order;
      }
    } else {
      assert left[0] in left && left[1] in left && left[0] != left[1];
      assert order[0] in order && order[1] in order && order[0] != order[1];
      forall form ensures !SoleForm(c, bs, form) {
        var x :| x in copies && Form(c, x) == order[0];
        var y :| y in copies && Form(c, y) == order[1];
        assert x in bs && Stands(c, x) && y in bs && Stands(c, y);
        if |full| > 0 {
          var fx :| fx in copies && Form(c, fx) == full[0] && Full(c, fx);
          var fy :| fy in copies && Form(c, fy) == full[1] && Full(c, fy);
          assert fx in bs && Stands(c, fx) && fy in bs && Stands(c, fy);
        }
      }
    }
  }

  method NameWinner(c: Tests, copies: seq<Binding>) returns (winner: Option<Binding>)
    requires TotalPreorder(c.leq) && |copies| > 0 && forall b :: b in copies ==> Stands(c, b)
    ensures winner.Some? ==> Wins(c, Members(copies), winner.value)
    ensures winner.Some? ==>
      var winners := Select(WinnerIn(c, Members(copies)), copies); |winners| > 0 && winners[0] == winner.value
    ensures winner.None? ==> forall form :: !SoleForm(c, Members(copies), form)
  {
    var g := GroupBy(FormOf(c), copies);
    FormsOfGroups(c, copies, g);
    var standing := g.order;
    var full := FullForms(c, g);
    OneFormLeft(c, copies, g.order, full);
    if |standing| > 1 && |full| > 0 {
      standing := full;
    }
    if |standing| != 1 {
      return None;
    }
    assert standing[0] in standing;
    var group := g.byKey[standing[0]];
    OrdersArePreorders(c);
    var sorted := SortBy(PrecedenceOf(c), group);
    FirstOfSortedWins(c, copies, group, sorted, standing[0]);
    FirstOfSortedIsFirstWinner(c, copies, group, sorted, standing[0]);
    winner := Some(sorted[0]);
  }

  lemma FirstOfSortedIsFirstWinner(c: Tests, copies: seq<Binding>, group: seq<Binding>, sorted: seq<Binding>,
                                   form: Bytes)
    requires group == Select(Keyed(FormOf(c), form), copies) && Stable(PrecedenceOf(c), group, sorted)
    requires |sorted| > 0 && Wins(c, Members(copies), sorted[0]) && Form(c, sorted[0]) == form
    ensures var winners := Select(WinnerIn(c, Members(copies)), copies); |winners| > 0 && winners[0] == sorted[0]
  {
    var wins := WinnerIn(c, Members(copies));
    forall x, y | wins(x) && wins(y) ensures PrecedenceOf(c)(x, y) {
      WinnersTie(c, Members(copies), x, y);
    }
    assert Tied(PrecedenceOf(c), wins);
    forall i | 0 <= i < |copies| && wins(copies[i]) ensures Keyed(FormOf(c), form)(copies[i]) {
      WinnersTie(c, Members(copies), copies[i], sorted[0]);
    }
    SelectWithin(wins, Keyed(FormOf(c), form), copies);
    HeadStays(wins, sorted);
  }

  lemma FirstOfSortedWins(c: Tests, copies: seq<Binding>, group: seq<Binding>, sorted: seq<Binding>, form: Bytes)
    requires forall b :: b in copies ==> Stands(c, b)
    requires forall b :: b in group <==> b in copies && Form(c, b) == form
    requires SoleForm(c, Members(copies), form)
    requires TotalPreorder(PrecedenceOf(c)) && Sorted(PrecedenceOf(c), sorted) && multiset(sorted) == multiset(group)
    ensures |sorted| > 0 && Wins(c, Members(copies), sorted[0]) && Form(c, sorted[0]) == form
  {
    var precedes := PrecedenceOf(c);
    assert forall b :: b in sorted <==> b in multiset(sorted);
    assert forall b :: b in group <==> b in multiset(group);
    var some :| some in Members(copies) && Stands(c, some) && Form(c, some) == form;
    assert some in group && some in sorted;
    assert sorted[0] in sorted && sorted[0] in group;
    forall b | b in Members(copies) && Stands(c, b) && Form(c, b) == Form(c, sorted[0])
      ensures Precedes(c, sorted[0], b) {
      assert b in group && b in sorted;
      var i :| 0 <= i < |sorted| && sorted[i] == b;
      assert precedes(sorted[0], sorted[i]);
    }
  }

  // ------------------------------------------------------------------------ the resolver

  /** Forms and winners are a matter of the standing copies alone. */
  lemma StandingCopiesDecide(c: Tests, bs: set<Binding>, copies: seq<Binding>)
    requires forall b :: b in copies <==> b in bs && Stands(c, b)
    ensures forall form :: SoleForm(c, bs, form) <==> SoleForm(c, Members(copies), form)
    ensures forall x :: Wins(c, bs, x) <==> Wins(c, Members(copies), x)
  {
    var standing := Members(copies);
    forall form ensures SoleForm(c, bs, form) <==> SoleForm(c, standing, form) {
      assert forall y :: y in standing && Stands(c, y) <==> y in bs && Stands(c, y);
    }
    forall x ensures Wins(c, bs, x) <==> Wins(c, standing, x) {
      assert forall y :: y in standing && Stands(c, y) <==> y in bs && Stands(c, y);
    }
  }

  /** From the evaluated copies on. */
  method SettleCopies(c: Tests, role: string, ghost bs: set<Binding>, copies: seq<Binding>, presentInvalid: bool)
    returns (r: Resolution)
    requires TotalPreorder(c.leq)
    requires forall b :: b in copies <==> b in bs && Stands(c, b)
    requires presentInvalid <==> exists b :: b in bs && Faulty(c, b)
    ensures Settles(c, role, bs, false, r)
    ensures r.Present? ==>
      var winners := Select(WinnerIn(c, bs), copies);
      && |winners| > 0 && c.evaluate(winners[0]).Valid?
      && r == Present(role, winners[0].t.nativeAddress, c.evaluate(winners[0]).bundle)
  {
    if |copies| == 0 {
      assert forall b :: b !in copies;
      return if presentInvalid then Rejected else Undecided;
    }
    assert copies[0] in copies;
    StandingCopiesDecide(c, bs, copies);
    var winner := NameWinner(c, copies);
    if winner.None? {
      return Undecided;
    }
    var x := winner.value;
    assert Wins(c, bs, x) && SoleForm(c, bs, Form(c, x));
    SelectSame(WinnerIn(c, bs), WinnerIn(c, Members(copies)), copies);
    r := Present(role, x.t.nativeAddress, c.evaluate(x).bundle);
  }

  /** From the candidates on; everything before has let the bindings through. */
  method ResolveCandidates(c: Tests, role: string, ghost bindings: seq<Binding>, candidates: seq<Binding>,
                           observedInvalid: bool)
    returns (r: Resolution)
    requires TotalPreorder(c.leq)
    requires candidates == Select(c.authorised, Select(IsSigned(c), Select(c.published, bindings)))
    requires observedInvalid <==> exists b :: b in Members(bindings) && c.published(b) && c.signer(b).None?
    ensures Settles(c, role, Members(bindings), OverBudget(c, bindings), r) && NamesFirst(c, role, bindings, r)
  {
    var g := GroupBy(SignerKey(c), candidates);
    BudgetOfBuckets(c, bindings, candidates, g);
    GroupsAreGroups(SignerKey(c), candidates);
    var buckets := SortBuckets(c, g);
    if buckets.None? {
      return Undecided;
    }
    var signers := TextOrder.SortDistinct(g.order);
    BucketsHoldCandidates(c, candidates, g, buckets.value, signers);
    var copies, presentInvalid := EvaluateAll(c, buckets.value, signers, observedInvalid);
    CopiesAreStanding(c, bindings, candidates, buckets.value, signers, observedInvalid);
    r := SettleCopies(c, role, Members(bindings), copies, presentInvalid);
    if r.Present? {
      FirstWinnerIsFirstListed(c, bindings, candidates, g, buckets.value, signers);
    }
  }

  // --------------------------------------------------- the first winner visited is the first listed

  function SignerOrder(c: Tests): (Binding, Binding) -> bool {
    (x, y) => !TextOrder.Less(SignerKey(c)(y), SignerKey(c)(x))
  }

  ghost predicate BucketsAreBySigner(c: Tests, buckets: map<string, seq<Binding>>) {
    forall key :: key in buckets ==> forall i :: 0 <= i < |buckets[key]| ==> SignerKey(c)(buckets[key][i]) == key
  }

  lemma LessIsAsymmetric(a: string, b: string)
    ensures !(TextOrder.Less(a, b) && TextOrder.Less(b, a))
  {
    if TextOrder.Less(a, b) && TextOrder.Less(b, a) {
      TextOrder.LessIsTransitive(a, b, a);
      TextOrder.LessIsIrreflexive(a);
    }
  }

  /** Which signer a visited binding belongs to. */
  lemma {:induction false} VisitedAt(c: Tests, buckets: map<string, seq<Binding>>, signers: seq<string>, i: nat)
    returns (n: nat)
    requires BucketsAreBySigner(c, buckets) && i < |Visited(buckets, signers)|
    ensures n < |signers| && SignerKey(c)(Visited(buckets, signers)[i]) == signers[n]
  {
    var init := signers[..|signers| - 1];
    if i < |Visited(buckets, init)| {
      n := VisitedAt(c, buckets, init, i);
    } else {
      n := |signers| - 1;
    }
  }

  lemma {:induction false} VisitsFollowSigners(c: Tests, buckets: map<string, seq<Binding>>, signers: seq<string>)
    requires BucketsAreBySigner(c, buckets) && TextOrder.StrictlySorted(signers)
    ensures Sorted(SignerOrder(c), Visited(buckets, signers))
  {
    if |signers| > 0 {
      var init, last := signers[..|signers| - 1], signers[|signers| - 1];
      VisitsFollowSigners(c, buckets, init);
      var before, visited := Visited(buckets, init), Visited(buckets, signers);
      forall i, j | 0 <= i < j < |visited| ensures SignerOrder(c)(visited[i], visited[j]) {
        if j >= |before| {
          assert SignerKey(c)(visited[j]) == last;
          if i < |before| {
            var n := VisitedAt(c, buckets, init, i);
            assert signers[n] == init[n];
            LessIsAsymmetric(signers[n], last);
          } else {
            assert SignerKey(c)(visited[i]) == last;
            TextOrder.LessIsIrreflexive(last);
          }
        }
      }
    }
  }

  lemma {:induction false} StableBucketsVisitAlike(
      leq: (Binding, Binding) -> bool, keep: Binding -> bool, listed: map<string, seq<Binding>>,
      sorted: map<string, seq<Binding>>, signers: seq<string>)
    requires Tied(leq, keep) && listed.Keys == sorted.Keys
    requires forall key :: key in listed ==> Stable(leq, listed[key], sorted[key])
    ensures Select(keep, Visited(sorted, signers)) == Select(keep, Visited(listed, signers))
  {
    if |signers| > 0 {
      var init, last := signers[..|signers| - 1], signers[|signers| - 1];
      StableBucketsVisitAlike(leq, keep, listed, sorted, init);
      if last in listed {
        SelectConcat(keep, Visited(sorted, init), sorted[last]);
        SelectConcat(keep, Visited(listed, init), listed[last]);
      } else {
        assert Visited(sorted, init) + [] == Visited(sorted, init);
        assert Visited(listed, init) + [] == Visited(listed, init);
      }
    }
  }

  /** The front-runners of one key among the items, once its signer has been visited. */
  function Expected(keep: Binding -> bool, items: seq<Binding>, visited: bool): seq<Binding> {
    if visited then Select(keep, items) else []
  }

  lemma OneMoreSigner(
      keyOf: Binding -> string, keep: Binding -> bool, items: seq<Binding>, buckets: map<string, seq<Binding>>,
      init: seq<string>, last: string, key: string)
    requires forall i :: 0 <= i < |items| && keep(items[i]) ==> keyOf(items[i]) == key
    requires last in buckets && buckets[last] == Select(Keyed(keyOf, last), items) && last !in init
    requires Select(keep, Visited(buckets, init)) == Expected(keep, items, key in init)
    ensures Select(keep, Visited(buckets, init + [last])) == Expected(keep, items, key in init + [last])
  {
    VisitedSnoc(buckets, init, last);
    SelectConcat(keep, Visited(buckets, init), buckets[last]);
    if last == key {
      SelectWithin(keep, Keyed(keyOf, key), items);
    } else {
      OthersHoldNone(keyOf, keep, items, last, key);
    }
  }

  /** What only one signer's bucket holds is visited in the order of the items. */
  lemma {:induction false} OneSignersVisits(
      keyOf: Binding -> string, keep: Binding -> bool, items: seq<Binding>, buckets: map<string, seq<Binding>>,
      signers: seq<string>, key: string)
    requires forall i :: 0 <= i < |items| && keep(items[i]) ==> keyOf(items[i]) == key
    requires forall i :: 0 <= i < |signers| ==>
      signers[i] in buckets && buckets[signers[i]] == Select(Keyed(keyOf, signers[i]), items)
    requires forall i, j :: 0 <= i < j < |signers| ==> signers[i] != signers[j]
    ensures Select(keep, Visited(buckets, signers)) == Expected(keep, items, key in signers)
  {
    if |signers| > 0 {
      var init, last := signers[..|signers| - 1], signers[|signers| - 1];
      OneSignersVisits(keyOf, keep, items, buckets, init, key);
      assert signers == init + [last];
      OneMoreSigner(keyOf, keep, items, buckets, init, last, key);
    }
  }

  lemma OthersHoldNone(keyOf: Binding -> string, keep: Binding -> bool, items: seq<Binding>, other: string, key: string)
    requires forall i :: 0 <= i < |items| && keep(items[i]) ==> keyOf(items[i]) == key
    requires other != key
    ensures Select(keep, Select(Keyed(keyOf, other), items)) == []
  {
    var bucket := Select(Keyed(keyOf, other), items);
    forall i | 0 <= i < |bucket| ensures !keep(bucket[i]) {
      var j := SelectedAt(Keyed(keyOf, other), items, i);
    }
    NoneSelected(keep, bucket);
  }

  /** The first winner visited leads: no winner's signer comes before its. */
  lemma FirstVisitedLeads(c: Tests, bs: set<Binding>, visited: seq<Binding>)
    requires Sorted(SignerOrder(c), visited) && |Select(WinnerIn(c, bs), visited)| > 0
    requires forall x :: Wins(c, bs, x) ==> x in visited
    ensures Leads(c, bs, Select(WinnerIn(c, bs), visited)[0])
  {
    var winners := Select(WinnerIn(c, bs), visited);
    var at := SelectedAt(WinnerIn(c, bs), visited, 0);
    SelectKeepsSorted(SignerOrder(c), WinnerIn(c, bs), visited);
    forall y | Wins(c, bs, y) ensures !TextOrder.Less(SignerKey(c)(y), SignerKey(c)(winners[0])) {
      SelectMembers(WinnerIn(c, bs), visited);
      assert y in visited && WinnerIn(c, bs)(y);
      var i :| 0 <= i < |winners| && winners[i] == y;
      if i == 0 {
        TextOrder.LessIsIrreflexive(SignerKey(c)(y));
      } else {
        assert SignerOrder(c)(winners[0], winners[i]);
      }
    }
  }

  lemma FrontRunnersAreCandidates(c: Tests, bindings: seq<Binding>, candidates: seq<Binding>)
    requires candidates == Select(c.authorised, Select(IsSigned(c), Select(c.published, bindings)))
    ensures Select(FrontRunnerIn(c, Members(bindings)), candidates) ==
      Select(FrontRunnerIn(c, Members(bindings)), bindings)
  {
    var leads, published := FrontRunnerIn(c, Members(bindings)), Select(c.published, bindings);
    assert forall x :: leads(x) ==> Candidate(c, x);
    SelectWithin(leads, c.published, bindings);
    SelectWithin(leads, IsSigned(c), published);
    SelectWithin(leads, c.authorised, Select(IsSigned(c), published));
  }

  lemma FrontRunnersTie(c: Tests, bs: set<Binding>)
    ensures Tied(AddressOrderOf(c), FrontRunnerIn(c, bs))
  {
    forall x, y | Leads(c, bs, x) && Leads(c, bs, y) ensures AddressOrder(c, x, y) {
      WinnersTie(c, bs, x, y);
    }
  }

  lemma FrontRunnersShareTheKey(c: Tests, bs: set<Binding>, front: Binding)
    requires Leads(c, bs, front)
    ensures forall x :: FrontRunnerIn(c, bs)(x) ==> SignerKey(c)(x) == SignerKey(c)(front)
  {
    forall x | Leads(c, bs, x) ensures SignerKey(c)(x) == SignerKey(c)(front) {
      FrontRunnersShareASigner(c, bs, x, front);
    }
  }

  /** Unsorted, front-runners would be visited as they are listed. */
  lemma FrontRunnersVisitedAsListed(
      c: Tests, bs: set<Binding>, candidates: seq<Binding>, g: Groups<string>, signers: seq<string>, front: Binding)
    requires g == GroupsOf(SignerKey(c), candidates) && TextOrder.StrictlySorted(signers)
    requires forall key :: key in signers <==> key in g.byKey
    requires Leads(c, bs, front) && front in candidates
    ensures Select(FrontRunnerIn(c, bs), Visited(g.byKey, signers)) == Select(FrontRunnerIn(c, bs), candidates)
  {
    var key := SignerKey(c)(front);
    GroupsAreGroups(SignerKey(c), candidates);
    FrontRunnersShareTheKey(c, bs, front);
    SortedAreDistinct(signers);
    var i :| 0 <= i < |candidates| && candidates[i] == front;
    forall n | 0 <= n < |signers|
      ensures signers[n] in g.byKey && g.byKey[signers[n]] == Select(Keyed(SignerKey(c), signers[n]), candidates)
    {
      assert signers[n] in signers;
    }
    OneSignersVisits(SignerKey(c), FrontRunnerIn(c, bs), candidates, g.byKey, signers, key);
  }

  /** And sorting does not change that: front-runners tie. */
  lemma FrontRunnersKeepTheirOrder(
      c: Tests, bs: set<Binding>, g: Groups<string>, buckets: map<string, seq<Binding>>, signers: seq<string>)
    requires buckets.Keys == g.byKey.Keys
    requires forall key :: key in g.byKey ==> Stable(AddressOrderOf(c), g.byKey[key], buckets[key])
    ensures Select(FrontRunnerIn(c, bs), Visited(buckets, signers)) ==
            Select(FrontRunnerIn(c, bs), Visited(g.byKey, signers))
  {
    FrontRunnersTie(c, bs);
    StableBucketsVisitAlike(AddressOrderOf(c), FrontRunnerIn(c, bs), g.byKey, buckets, signers);
  }

  lemma SortedAreDistinct(signers: seq<string>)
    requires TextOrder.StrictlySorted(signers)
    ensures forall i, j :: 0 <= i < j < |signers| ==> signers[i] != signers[j]
  {
    forall i, j | 0 <= i < j < |signers| ensures signers[i] != signers[j] {
      TextOrder.LessIsIrreflexive(signers[i]);
    }
  }

  lemma SortedBucketsAreBySigner(
      c: Tests, candidates: seq<Binding>, g: Groups<string>, buckets: map<string, seq<Binding>>)
    requires g == GroupsOf(SignerKey(c), candidates)
    requires buckets.Keys == g.byKey.Keys
    requires forall key :: key in g.byKey ==> multiset(buckets[key]) == multiset(g.byKey[key])
    ensures BucketsAreBySigner(c, buckets)
  {
    GroupsAreGroups(SignerKey(c), candidates);
    forall key, i | key in buckets && 0 <= i < |buckets[key]| ensures SignerKey(c)(buckets[key][i]) == key {
      SameMembers(buckets[key], g.byKey[key]);
      assert buckets[key][i] in g.byKey[key];
      SelectMembers(Keyed(SignerKey(c), key), candidates);
      assert Keyed(SignerKey(c), key)(buckets[key][i]);
    }
  }

  /** All winners are visited, and the first visited is the first listed front-runner. */
  lemma FirstVisitedIsFirstListed(
      c: Tests, bindings: seq<Binding>, candidates: seq<Binding>, visited: seq<Binding>)
    requires candidates == Select(c.authorised, Select(IsSigned(c), Select(c.published, bindings)))
    requires Sorted(SignerOrder(c), visited) && forall b :: b in candidates ==> b in visited
    requires |Select(WinnerIn(c, Members(bindings)), visited)| > 0
    requires forall x :: Leads(c, Members(bindings), x) && x in candidates ==>
      Select(FrontRunnerIn(c, Members(bindings)), visited) == Select(FrontRunnerIn(c, Members(bindings)), candidates)
    ensures var front := Select(FrontRunnerIn(c, Members(bindings)), bindings);
      |front| > 0 && front[0] == Select(WinnerIn(c, Members(bindings)), visited)[0]
  {
    var bs := Members(bindings);
    CandidateMembers(c, bindings, candidates);
    FirstVisitedLeads(c, bs, visited);
    var first := Select(WinnerIn(c, bs), visited)[0];
    assert Candidate(c, first) && first in bindings;
    FirstSelected(FrontRunnerIn(c, bs), WinnerIn(c, bs), visited);
    FrontRunnersAreCandidates(c, bindings, candidates);
  }

  lemma FirstWinnerIsFirstListed(
      c: Tests, bindings: seq<Binding>, candidates: seq<Binding>, g: Groups<string>, buckets: map<string, seq<Binding>>,
      signers: seq<string>)
    requires candidates == Select(c.authorised, Select(IsSigned(c), Select(c.published, bindings)))
    requires g == GroupsOf(SignerKey(c), candidates) && TextOrder.StrictlySorted(signers)
    requires buckets.Keys == g.byKey.Keys && forall key :: key in signers <==> key in g.byKey
    requires forall key :: key in g.byKey ==>
      multiset(buckets[key]) == multiset(g.byKey[key]) && Stable(AddressOrderOf(c), g.byKey[key], buckets[key])
    requires forall b :: b in candidates ==> InBuckets(buckets, signers, b)
    requires |Select(WinnerIn(c, Members(bindings)), Select(IsValidCopy(c), Visited(buckets, signers)))| > 0
    ensures var front := Select(FrontRunnerIn(c, Members(bindings)), bindings);
      && |front| > 0
      && front[0] == Select(WinnerIn(c, Members(bindings)), Select(IsValidCopy(c), Visited(buckets, signers)))[0]
  {
    var bs, visited := Members(bindings), Visited(buckets, signers);
    SelectWithin(WinnerIn(c, bs), IsValidCopy(c), visited);
    SortedBucketsAreBySigner(c, candidates, g, buckets);
    VisitsFollowSigners(c, buckets, signers);
    VisitedMembers(buckets, signers);
    FrontRunnersKeepTheirOrder(c, bs, g, buckets, signers);
    forall x | Leads(c, bs, x) && x in candidates
      ensures Select(FrontRunnerIn(c, bs), visited) == Select(FrontRunnerIn(c, bs), candidates)
    {
      FrontRunnersVisitedAsListed(c, bs, candidates, g, signers, x);
    }
    FirstVisitedIsFirstListed(c, bindings, candidates, visited);
  }

  lemma CopiesAreStanding(
      c: Tests, bindings: seq<Binding>, candidates: seq<Binding>, buckets: map<string, seq<Binding>>,
      signers: seq<string>, observedInvalid: bool)
    requires candidates == Select(c.authorised, Select(IsSigned(c), Select(c.published, bindings)))
    requires observedInvalid <==> exists b :: b in Members(bindings) && c.published(b) && c.signer(b).None?
    requires forall b :: b in candidates <==> InBuckets(buckets, signers, b)
    ensures forall b :: c.evaluate(b).Valid? && InBuckets(buckets, signers, b) <==>
      b in Members(bindings) && Stands(c, b)
    ensures (observedInvalid || exists b :: InBuckets(buckets, signers, b) && c.evaluate(b).Invalid?) <==>
      exists b :: b in Members(bindings) && Faulty(c, b)
  {
    CandidateMembers(c, bindings, candidates);
    forall b ensures InBuckets(buckets, signers, b) <==> b in Members(bindings) && Candidate(c, b) {
      assert b in candidates <==> b in bindings && Candidate(c, b);
    }
  }

  lemma SameMembers(x: seq<Binding>, y: seq<Binding>)
    requires multiset(x) == multiset(y)
    ensures forall b :: b in x <==> b in y
  {
    forall b ensures b in x <==> b in y {
      assert b in x <==> b in multiset(x);
      assert b in y <==> b in multiset(y);
    }
  }

  lemma BucketsHoldCandidates(
      c: Tests, candidates: seq<Binding>, g: Groups<string>, buckets: map<string, seq<Binding>>, signers: seq<string>)
    requires g == GroupsOf(SignerKey(c), candidates)
    requires buckets.Keys == g.byKey.Keys
    requires forall key :: key in g.byKey ==> multiset(buckets[key]) == multiset(g.byKey[key])
    requires forall key :: key in signers <==> key in g.order
    ensures forall key :: key in signers ==> key in buckets
    ensures forall b :: b in candidates <==> InBuckets(buckets, signers, b)
  {
    GroupsAreGroups(SignerKey(c), candidates);
    forall key | key in g.byKey ensures forall b :: b in buckets[key] <==> b in candidates && SignerKey(c)(b) == key {
      SameMembers(buckets[key], g.byKey[key]);
      SelectMembers(Keyed(SignerKey(c), key), candidates);
    }
    forall b ensures b in candidates <==> InBuckets(buckets, signers, b) {
      if b in candidates {
        var i :| 0 <= i < |candidates| && candidates[i] == b;
        var key := SignerKey(c)(candidates[i]);
        assert key in g.byKey && key in signers && b in buckets[key];
        var j :| 0 <= j < |signers| && signers[j] == key;
      }
      if i :| 0 <= i < |signers| && signers[i] in buckets && b in buckets[signers[i]] {
        assert signers[i] in g.byKey;
      }
    }
  }

  /** Past the first tests: some binding authenticates and all that do match. */
  method ResolveAuthenticated(
      c: Tests, role: string, ghost bindings: seq<Binding>, authenticated: seq<Binding>, observedInvalid: bool)
    returns (r: Resolution)
    requires TotalPreorder(c.leq) && |authenticated| > 0
    requires authenticated == Select(IsSigned(c), Select(c.published, bindings))
    requires forall b :: b in authenticated <==> b in Members(bindings) && Authentic(c, b)
    requires forall b :: b in authenticated ==> c.matches(b)
    requires observedInvalid <==> exists b :: b in Members(bindings) && c.published(b) && c.signer(b).None?
    ensures Meaning(c, role, Members(bindings), OverBudget(c, bindings), r) && NamesFirst(c, role, bindings, r)
  {
    ghost var bs := Members(bindings);
    var first := authenticated[0];
    assert first in authenticated && first in bs && Authentic(c, first) && c.published(first);
    var candidates := Filter(c.authorised, authenticated);
    SelectMembers(c.authorised, authenticated);
    assert forall b :: b in candidates <==> b in bs && Candidate(c, b);
    if |candidates| == 0 {
      assert forall b :: b !in candidates;
      return Undecided;
    }
    assert candidates[0] in candidates;
    r := ResolveCandidates(c, role, bindings, candidates, observedInvalid);
  }

  method ResolveTests(c: Tests, role: string, bindings: seq<Binding>) returns (r: Resolution)
    requires TotalPreorder(c.leq)
    ensures Meaning(c, role, Members(bindings), OverBudget(c, bindings), r) && NamesFirst(c, role, bindings, r)
  {
    ghost var bs := Members(bindings);
    var publishedHere := Filter(c.published, bindings);
    SelectMembers(c.published, bindings);
    assert forall b :: b in publishedHere <==> b in bs && c.published(b);
    if |publishedHere| == 0 {
      assert forall b :: b !in publishedHere;
      return Undecided;
    }
    assert publishedHere[0] in publishedHere;
    var authenticated, observedInvalid := Authenticate(c, publishedHere);
    if authenticated.None? {
      var b :| b in publishedHere && c.signer(b).Some? && !c.matches(b);
      assert b in bs && Authentic(c, b);
      return Rejected;
    }
    SelectMembers(IsSigned(c), publishedHere);
    assert forall b :: b in authenticated.value <==> b in bs && Authentic(c, b);
    if |authenticated.value| == 0 {
      assert forall b :: b !in authenticated.value;
      return Rejected;
    }
    r := ResolveAuthenticated(c, role, bindings, authenticated.value, observedInvalid);
  }

  /** BB-1 to BB-8. */
  method ResolveBundleBinding(w: World, req: Request, bindings: seq<Binding>) returns (r: Resolution)
    requires TotalPreorder(w.leq)
    ensures Resolves(w, req, bindings, r)
  {
    if Malformed(req) {
      return Rejected;
    }
    r := ResolveTests(TestsOf(w, req), req.role, bindings);
  }
}
