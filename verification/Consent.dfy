/** The append-only consent ledger of src/lib/consent.ts: authenticity, resolution, anchor and bridge. */
module Consent {
  import opened ByteStrings
  import opened Primitives
  import Disclose
  import Merkle
  import TextOrder

  const CONSENT_SEP := "dacs-x-consent:v1:"

  /** `action` is untrusted text: only "grant" and "revoke" mean anything. */
  datatype ConsentRecord = ConsentRecord(
    action: string,
    consentReceiptId: string,
    grantor: string,
    audience: string,
    commitments: seq<string>,
    issuedAt: int,
    expiresAt: int,
    supersedes: Option<string>,
    recordId: string,
    signature: string
  )

  // ------------------------------------------------------------- authenticity

  /** The signed body: grantor lower-cased, commitments lower-cased, deduplicated and sorted. */
  function BodyJson(r: ConsentRecord): Json {
    var members := TextOrder.SortDistinct(Merkle.LowerAll(r.commitments));
    var base := map[
      "action" := Str(r.action),
      "consent_receipt_id" := Str(r.consentReceiptId),
      "grantor" := Str(Lower(r.grantor)),
      "audience" := Str(r.audience),
      "commitments" := Arr(seq(|members|, i requires 0 <= i < |members| => Str(members[i]))),
      "issuedAt" := Num(r.issuedAt),
      "expiresAt" := Num(r.expiresAt)];
    Obj(if r.supersedes.Some? then base["supersedes" := Str(r.supersedes.value)] else base)
  }

  function RecordId(c: Crypto, r: ConsentRecord): Option<string> {
    match c.jcs(BodyJson(r))
    case None => None
    case Some(body) => Some(BytesToHex(c.hash(c.utf8(CONSENT_SEP) + body)))
  }

  predicate SignatureHolds(c: Crypto, r: ConsentRecord, body: Bytes) {
    match (Disclose.FixedWidth(r.grantor, 32), Disclose.FixedWidth(r.signature, 64))
    case (Some(key), Some(sig)) => c.verify(CONSENT_SEP, sig, body, key)
    case _ => false
  }

  /** verifyConsentRecord */
  predicate Authentic(c: Crypto, r: ConsentRecord) {
    && (r.action == "grant" || r.action == "revoke")
    && RecordId(c, r) == Some(Lower(r.recordId))
    && SignatureHolds(c, r, c.jcs(BodyJson(r)).value)
  }

  // --------------------------------------------------------- effective consent

  datatype EffectiveConsent =
    | NoConsent
    | Granted(grant: ConsentRecord)
    | Expired(lapsed: ConsentRecord)
    | Revoked(revocation: ConsentRecord)

  predicate InScope(c: Crypto, r: ConsentRecord, scope: string, requireValid: bool) {
    r.consentReceiptId == scope && (requireValid ==> Authentic(c, r))
  }

  /** The records of one scope that count, in append order. */
  function Scoped(c: Crypto, ledger: seq<ConsentRecord>, scope: string, requireValid: bool): seq<ConsentRecord> {
    if |ledger| == 0 then []
    else
      var last := ledger[|ledger| - 1];
      Scoped(c, ledger[..|ledger| - 1], scope, requireValid)
      + if InScope(c, last, scope, requireValid) then [last] else []
  }

  /** The first grantor, once there is one, and that grantor's last word. */
  datatype Standing = Standing(founder: Option<string>, word: Option<ConsentRecord>)

  function NextStanding(s: Standing, r: ConsentRecord): Standing {
    var speaker := Some(Lower(r.grantor));
    if r.action == "grant" && (s.founder.None? || s.founder == speaker) then Standing(speaker, Some(r))
    else if r.action == "revoke" && s.founder == speaker then Standing(speaker, Some(r))
    else s
  }

  function StandingOf(records: seq<ConsentRecord>): Standing {
    if |records| == 0 then Standing(None, None)
    else NextStanding(StandingOf(records[..|records| - 1]), records[|records| - 1])
  }

  function Founder(records: seq<ConsentRecord>): Option<string> {
    StandingOf(records).founder
  }

  function LastWord(records: seq<ConsentRecord>): Option<ConsentRecord> {
    StandingOf(records).word
  }

  /** What a scope's counted records mean at `now`. */
  function Meaning(records: seq<ConsentRecord>, now: int): EffectiveConsent {
    match LastWord(records)
    case None => NoConsent
    case Some(word) =>
      if word.action == "revoke" then Revoked(word)
      else if now >= word.expiresAt then Expired(word)
      else Granted(word)
  }

  function Effective(c: Crypto, ledger: seq<ConsentRecord>, scope: string, now: int,
                     requireValid: bool): EffectiveConsent {
    Meaning(Scoped(c, ledger, scope, requireValid), now)
  }

  lemma StandingSnoc(records: seq<ConsentRecord>, r: ConsentRecord)
    ensures StandingOf(records + [r]) == NextStanding(StandingOf(records), r)
  {
    assert (records + [r])[..|records|] == records;
  }

  method FilterScope(c: Crypto, ledger: seq<ConsentRecord>, scope: string, requireValid: bool)
    returns (scoped: seq<ConsentRecord>)
    ensures scoped == Scoped(c, ledger, scope, requireValid)
  {
    scoped := [];
    for i := 0 to |ledger|
      invariant scoped == Scoped(c, ledger[..i], scope, requireValid)
    {
      assert ledger[..i + 1][..i] == ledger[..i];
      if InScope(c, ledger[i], scope, requireValid) {
        scoped := scoped + [ledger[i]];
      }
    }
    assert ledger[..|ledger|] == ledger;
  }

  /** What the fold's three variables say together. */
  function Remembered(establishingGrantor: Option<string>, inForceGrant: Option<ConsentRecord>,
                      revokedBy: Option<ConsentRecord>): Standing {
    Standing(establishingGrantor, if inForceGrant.Some? then inForceGrant else revokedBy)
  }

  /** The fold in append order. */
  method FoldScope(scoped: seq<ConsentRecord>)
    returns (establishingGrantor: Option<string>, inForceGrant: Option<ConsentRecord>, revokedBy: Option<ConsentRecord>)
    ensures StandingOf(scoped) == Remembered(establishingGrantor, inForceGrant, revokedBy)
    ensures inForceGrant.Some? ==> revokedBy.None? && inForceGrant.value.action == "grant"
    ensures revokedBy.Some? ==> revokedBy.value.action == "revoke"
  {
    establishingGrantor, inForceGrant, revokedBy := None, None, None;
    for i := 0 to |scoped|
      invariant StandingOf(scoped[..i]) == Remembered(establishingGrantor, inForceGrant, revokedBy)
      invariant inForceGrant.Some? ==> revokedBy.None? && inForceGrant.value.action == "grant"
      invariant revokedBy.Some? ==> revokedBy.value.action == "revoke"
    {
      var rec := scoped[i];
      StandingSnoc(scoped[..i], rec);
      assert scoped[..i + 1] == scoped[..i] + [rec];
      if rec.action == "grant" {
        if establishingGrantor.None? {
          establishingGrantor := Some(Lower(rec.grantor));
        } else if Some(Lower(rec.grantor)) != establishingGrantor {
          continue;
        }
        inForceGrant := Some(rec);
        revokedBy := None;
      } else if rec.action == "revoke" {
        if establishingGrantor.None? || Some(Lower(rec.grantor)) != establishingGrantor {
          continue;
        }
        inForceGrant := None;
        revokedBy := Some(rec);
      }
    }
    assert scoped[..|scoped|] == scoped;
  }

  /** resolveEffectiveConsent: filter the scope, then fold in append order. */
  method ResolveEffectiveConsent(c: Crypto, ledger: seq<ConsentRecord>, scope: string, now: int, requireValid: bool)
    returns (effective: EffectiveConsent)
    ensures effective == Effective(c, ledger, scope, now, requireValid)
  {
    var scoped := FilterScope(c, ledger, scope, requireValid);
    if |scoped| == 0 {
      return NoConsent;
    }
    var establishingGrantor, inForceGrant, revokedBy := FoldScope(scoped);
    if revokedBy.Some? && inForceGrant.None? {
      return Revoked(revokedBy.value);
    }
    if inForceGrant.None? {
      return NoConsent;
    }
    if now >= inForceGrant.value.expiresAt {
      return Expired(inForceGrant.value);
    }
    effective := Granted(inForceGrant.value);
  }

  predicate IsFirstGrant(records: seq<ConsentRecord>, first: nat) {
    && first < |records|
    && records[first].action == "grant"
    && forall j :: 0 <= j < first ==> records[j].action != "grant"
  }

  /** The signer of record `first` speaks at position k. */
  predicate SpeaksAt(records: seq<ConsentRecord>, first: nat, k: nat) {
    && first <= k < |records|
    && Lower(records[k].grantor) == Lower(records[first].grantor)
    && (records[k].action == "grant" || records[k].action == "revoke")
  }

  predicate SpeaksLastAt(records: seq<ConsentRecord>, first: nat, k: nat) {
    SpeaksAt(records, first, k) && forall j: nat :: k < j < |records| ==> !SpeaksAt(records, first, j)
  }

  /** The fold, said without it: the last record by the signer of the first grant, from that grant on. */
  ghost predicate IsLastWord(records: seq<ConsentRecord>, word: ConsentRecord) {
    exists first: nat, k: nat :: IsFirstGrant(records, first) && SpeaksLastAt(records, first, k) && records[k] == word
  }

  lemma {:induction false} FoldFindsLastWord(records: seq<ConsentRecord>) returns (first: nat, k: nat)
    ensures LastWord(records).None? <==> Founder(records).None?
    ensures Founder(records).None? ==> forall j :: 0 <= j < |records| ==> records[j].action != "grant"
    ensures Founder(records).Some? ==>
      && IsFirstGrant(records, first) && Founder(records) == Some(Lower(records[first].grantor))
      && SpeaksLastAt(records, first, k) && LastWord(records) == Some(records[k])
  {
    first, k := 0, 0;
    if |records| > 0 {
      var init, n := records[..|records| - 1], |records| - 1;
      var r := records[n];
      first, k := FoldFindsLastWord(init);
      if Founder(init).None? {
        if r.action == "grant" {
          first, k := n, n;
        }
      } else if SpeaksAt(records, first, n) {
        k := n;
      } else {
        forall j: nat | k < j < |records| ensures !SpeaksAt(records, first, j) {
          assert j < n ==> !SpeaksAt(init, first, j);
        }
      }
    }
  }

  lemma LastWordIsUnique(records: seq<ConsentRecord>, word: ConsentRecord)
    ensures IsLastWord(records, word) <==> LastWord(records) == Some(word)
  {
    var first, k := FoldFindsLastWord(records);
    if IsLastWord(records, word) {
      var first': nat, k': nat :|
        IsFirstGrant(records, first') && SpeaksLastAt(records, first', k') && records[k'] == word;
      assert first == first';
      assert k == k';
    }
  }

  /** Consent is granted exactly when the first grantor's last counted word is an unexpired grant. */
  lemma GrantedMeansLastWordIsALiveGrant(c: Crypto, ledger: seq<ConsentRecord>, scope: string, now: int,
                                         requireValid: bool, grant: ConsentRecord)
    ensures Effective(c, ledger, scope, now, requireValid) == Granted(grant) <==>
      IsLastWord(Scoped(c, ledger, scope, requireValid), grant) && grant.action == "grant" && now < grant.expiresAt
  {
    var records := Scoped(c, ledger, scope, requireValid);
    LastWordIsUnique(records, grant);
    var first, k := FoldFindsLastWord(records);
  }

  /** Every record that can decide the outcome is in the ledger, in this scope and authentic. */
  lemma {:induction false} ScopedRecordsAreCounted(c: Crypto, ledger: seq<ConsentRecord>, scope: string,
                                                   requireValid: bool, r: ConsentRecord)
    requires r in Scoped(c, ledger, scope, requireValid)
    ensures r in ledger && InScope(c, r, scope, requireValid)
  {
    if |ledger| > 0 {
      var init := ledger[..|ledger| - 1];
      if r in Scoped(c, init, scope, requireValid) {
        ScopedRecordsAreCounted(c, init, scope, requireValid, r);
      }
    }
  }

  // -------------------------------------------------------- what cannot matter

  /** A record appended after `earlier` that has no say over the scope. */
  predicate Inert(c: Crypto, earlier: seq<ConsentRecord>, r: ConsentRecord, scope: string, requireValid: bool) {
    var founder := Founder(Scoped(c, earlier, scope, requireValid));
    || !InScope(c, r, scope, requireValid)
    || (r.action != "grant" && r.action != "revoke")
    || (founder.None? && r.action == "revoke")
    || (founder.Some? && founder.value != Lower(r.grantor))
  }

  lemma {:induction false} ScopedOfConcat(c: Crypto, a: seq<ConsentRecord>, b: seq<ConsentRecord>, scope: string,
                                          requireValid: bool)
    ensures Scoped(c, a + b, scope, requireValid) ==
      Scoped(c, a, scope, requireValid) + Scoped(c, b, scope, requireValid)
  {
    if |b| == 0 {
      assert a + b == a;
    } else {
      ScopedOfConcat(c, a, b[..|b| - 1], scope, requireValid);
      assert (a + b)[..|a + b| - 1] == a + b[..|b| - 1];
    }
  }

  lemma SplitLast(xs: seq<ConsentRecord>, tail: seq<ConsentRecord>)
    requires |tail| > 0
    ensures xs + tail == (xs + tail[..|tail| - 1]) + [tail[|tail| - 1]]
  {
  }

  lemma {:induction false} SameStandingSameOutcome(xs: seq<ConsentRecord>, ys: seq<ConsentRecord>,
                                                   tail: seq<ConsentRecord>)
    requires StandingOf(xs) == StandingOf(ys)
    ensures StandingOf(xs + tail) == StandingOf(ys + tail)
  {
    if |tail| == 0 {
      assert xs + tail == xs && ys + tail == ys;
    } else {
      var init, last := tail[..|tail| - 1], tail[|tail| - 1];
      SameStandingSameOutcome(xs, ys, init);
      SplitLast(xs, tail);
      SplitLast(ys, tail);
      StandingSnoc(xs + init, last);
      StandingSnoc(ys + init, last);
    }
  }

  /**
   * Unauthentic records, other scopes, other keys after the first grant and revokes before it never change
   * the outcome, wherever in the ledger they are inserted.
   */
  lemma InertRecordsChangeNothing(c: Crypto, earlier: seq<ConsentRecord>, r: ConsentRecord, later: seq<ConsentRecord>,
                                  scope: string, now: int, requireValid: bool)
    requires Inert(c, earlier, r, scope, requireValid)
    ensures Effective(c, earlier + [r] + later, scope, now, requireValid)
         == Effective(c, earlier + later, scope, now, requireValid)
  {
    ScopedOfConcat(c, earlier + [r], later, scope, requireValid);
    ScopedOfConcat(c, earlier, later, scope, requireValid);
    InertKeepsStanding(c, earlier, r, scope, requireValid);
    SameStandingSameOutcome(Scoped(c, earlier + [r], scope, requireValid), Scoped(c, earlier, scope, requireValid),
                            Scoped(c, later, scope, requireValid));
  }

  /** A record of the scope that has no say leaves the standing alone. */
  lemma UncountedKeepsStanding(a: seq<ConsentRecord>, r: ConsentRecord)
    requires
      || (r.action != "grant" && r.action != "revoke")
      || (Founder(a).None? && r.action == "revoke")
      || (Founder(a).Some? && Founder(a).value != Lower(r.grantor))
    ensures StandingOf(a + [r]) == StandingOf(a)
  {
    StandingSnoc(a, r);
    FounderlessHasNoWord(a);
  }

  lemma InertKeepsStanding(c: Crypto, earlier: seq<ConsentRecord>, r: ConsentRecord, scope: string, requireValid: bool)
    requires Inert(c, earlier, r, scope, requireValid)
    ensures StandingOf(Scoped(c, earlier + [r], scope, requireValid)) ==
      StandingOf(Scoped(c, earlier, scope, requireValid))
  {
    var a := Scoped(c, earlier, scope, requireValid);
    ScopedSnoc(c, earlier, r, scope, requireValid);
    if InScope(c, r, scope, requireValid) {
      UncountedKeepsStanding(a, r);
    } else {
      assert a + [] == a;
    }
  }

  lemma {:induction false} FounderlessHasNoWord(records: seq<ConsentRecord>)
    ensures StandingOf(records).founder.None? ==> StandingOf(records).word.None?
  {
    if |records| > 0 {
      FounderlessHasNoWord(records[..|records| - 1]);
    }
  }

  // -------------------------------------------------------------------- anchor

  function Ids(records: seq<ConsentRecord>): set<string> {
    set i | 0 <= i < |records| :: Lower(records[i].recordId)
  }

  /** The ledger after one append to a validating, deduplicating anchor. */
  function Appended(c: Crypto, validate: bool, records: seq<ConsentRecord>, r: ConsentRecord): seq<ConsentRecord> {
    if (validate && !Authentic(c, r)) || Lower(r.recordId) in Ids(records) then records else records + [r]
  }

  class InMemoryConsentAnchor {
    var records: seq<ConsentRecord>
    var seen: set<string>
    const validateOnAppend: bool
    const crypto: Crypto

    ghost predicate Valid()
      reads this
    {
      seen == Ids(records)
    }

    constructor (crypto: Crypto, validateOnAppend: bool)
      ensures Valid() && records == []
      ensures this.validateOnAppend == validateOnAppend && this.crypto == crypto
    {
      this.crypto := crypto;
      this.validateOnAppend := validateOnAppend;
      records := [];
      seen := {};
    }

    method Append(record: ConsentRecord) returns (ref: Option<string>)
      requires Valid()
      modifies this
      ensures Valid()
      ensures records ==
        if (validateOnAppend && !Authentic(crypto, record))
           || (exists i :: 0 <= i < |old(records)| && Lower(old(records)[i].recordId) == Lower(record.recordId))
        then old(records)
        else old(records) + [record]
      ensures records == Appended(crypto, validateOnAppend, old(records), record)
      ensures ref == if validateOnAppend && !Authentic(crypto, record) then None else Some(Lower(record.recordId))
    {
      if validateOnAppend && !Authentic(crypto, record) {
        return None;
      }
      var id := Lower(record.recordId);
      if id in seen {
        return Some(id);
      }
      seen := seen + {id};
      records := records + [record];
      IdsSnoc(old(records), record);
      ref := Some(id);
    }

    method Read() returns (copy: seq<ConsentRecord>)
      ensures copy == records
    {
      copy := records;
    }
  }

  lemma IdsSnoc(records: seq<ConsentRecord>, r: ConsentRecord)
    ensures Ids(records + [r]) == Ids(records) + {Lower(r.recordId)}
  {
    var longer := records + [r];
    assert longer[|records|] == r;
    forall id | id in Ids(records) + {Lower(r.recordId)} ensures id in Ids(longer) {
      if id in Ids(records) {
        var i :| 0 <= i < |records| && Lower(records[i].recordId) == id;
        assert longer[i] == records[i];
      }
    }
  }

  function AppendedAll(c: Crypto, records: seq<ConsentRecord>, more: seq<ConsentRecord>): seq<ConsentRecord>
    decreases |more|
  {
    if |more| == 0 then records
    else AppendedAll(c, Appended(c, true, records, more[0]), more[1..])
  }

  /** Every record of `more` has the canonical body of some record of `records`, whatever its spelling or signature. */
  ghost predicate Replays(c: Crypto, records: seq<ConsentRecord>, more: seq<ConsentRecord>) {
    forall m :: 0 <= m < |more| ==>
      exists k :: 0 <= k < |records| && c.jcs(BodyJson(records[k])) == c.jcs(BodyJson(more[m]))
  }

  /** Replaying earlier records through the anchor, re-signed or re-spelled, never changes any scope's consent. */
  lemma {:induction false} ReplaysAreAbsorbed(c: Crypto, records: seq<ConsentRecord>, more: seq<ConsentRecord>)
    requires forall k :: 0 <= k < |records| ==> Authentic(c, records[k])
    requires Replays(c, records, more)
    ensures AppendedAll(c, records, more) == records
    decreases |more|
  {
    if |more| > 0 {
      var k :| 0 <= k < |records| && c.jcs(BodyJson(records[k])) == c.jcs(BodyJson(more[0]));
      if Authentic(c, more[0]) {
        assert Lower(more[0].recordId) == Lower(records[k].recordId);
      }
      ReplaysAreAbsorbed(c, records, more[1..]);
    }
  }

  // ------------------------------------------------------- revival on a plain ledger

  /** A record that counts for the scope and is the founder's word. */
  predicate IsVoice(c: Crypto, r: ConsentRecord, scope: string, requireValid: bool, founder: string) {
    && InScope(c, r, scope, requireValid)
    && Lower(r.grantor) == founder
    && (r.action == "grant" || r.action == "revoke")
  }

  /** The founder's last counted word among `more`. */
  function LastVoice(c: Crypto, more: seq<ConsentRecord>, scope: string, requireValid: bool,
                     founder: string): (word: Option<ConsentRecord>)
    ensures word.None? <==> forall r :: r in more ==> !IsVoice(c, r, scope, requireValid, founder)
    ensures word.Some? ==> word.value in more && IsVoice(c, word.value, scope, requireValid, founder)
  {
    if |more| == 0 then None
    else
      var init, r := more[..|more| - 1], more[|more| - 1];
      assert more == init + [r];
      if IsVoice(c, r, scope, requireValid, founder) then Some(r)
      else LastVoice(c, init, scope, requireValid, founder)
  }

  lemma ScopedSnoc(c: Crypto, ledger: seq<ConsentRecord>, r: ConsentRecord, scope: string, requireValid: bool)
    ensures Scoped(c, ledger + [r], scope, requireValid)
         == Scoped(c, ledger, scope, requireValid) + (if InScope(c, r, scope, requireValid) then [r] else [])
  {
    assert (ledger + [r])[..|ledger|] == ledger;
  }

  lemma AppendedWord(c: Crypto, ledger: seq<ConsentRecord>, r: ConsentRecord, scope: string, requireValid: bool,
                     founder: string)
    requires Founder(Scoped(c, ledger, scope, requireValid)) == Some(founder)
    ensures Founder(Scoped(c, ledger + [r], scope, requireValid)) == Some(founder)
    ensures LastWord(Scoped(c, ledger + [r], scope, requireValid)) ==
      if IsVoice(c, r, scope, requireValid, founder) then Some(r) else LastWord(Scoped(c, ledger, scope, requireValid))
  {
    ScopedSnoc(c, ledger, r, scope, requireValid);
    StandingSnoc(Scoped(c, ledger, scope, requireValid), r);
    assert Scoped(c, ledger, scope, requireValid) + [] == Scoped(c, ledger, scope, requireValid);
  }

  /** Whatever is appended to a founded scope, the founder's last appended word decides, else the last word before. */
  lemma {:induction false} AppendedWords(c: Crypto, ledger: seq<ConsentRecord>, more: seq<ConsentRecord>, scope: string,
                                         requireValid: bool, founder: string)
    requires Founder(Scoped(c, ledger, scope, requireValid)) == Some(founder)
    ensures Founder(Scoped(c, ledger + more, scope, requireValid)) == Some(founder)
    ensures LastWord(Scoped(c, ledger + more, scope, requireValid)) ==
      var voice := LastVoice(c, more, scope, requireValid, founder);
      if voice.Some? then voice else LastWord(Scoped(c, ledger, scope, requireValid))
    decreases |more|
  {
    if |more| == 0 {
      assert ledger + more == ledger;
    } else {
      var init := more[..|more| - 1];
      AppendedWords(c, ledger, init, scope, requireValid, founder);
      SplitLast(ledger, more);
      AppendedWord(c, ledger + init, more[|more| - 1], scope, requireValid, founder);
    }
  }

  /**
   * Revival, exactly: after a revocation any appended records, replays or not, put consent back in force if and
   * only if the last of them that counts and is the founder's word is an unexpired grant.
   */
  lemma RevokedConsentRevivesExactlyWhen(c: Crypto, ledger: seq<ConsentRecord>, more: seq<ConsentRecord>, scope: string,
                                         now: int, requireValid: bool)
    requires Effective(c, ledger, scope, now, requireValid).Revoked?
    ensures Founder(Scoped(c, ledger, scope, requireValid)).Some?
    ensures
      var voice := LastVoice(c, more, scope, requireValid, Founder(Scoped(c, ledger, scope, requireValid)).value);
      Effective(c, ledger + more, scope, now, requireValid).Granted? <==>
        voice.Some? && voice.value.action == "grant" && now < voice.value.expiresAt
  {
    FounderlessHasNoWord(Scoped(c, ledger, scope, requireValid));
    AppendedWords(c, ledger, more, scope, requireValid, Founder(Scoped(c, ledger, scope, requireValid)).value);
  }

  /** One appended record revives a revoked scope exactly when it counts and is an unexpired grant by the founder. */
  lemma AppendRevivesExactlyWhen(c: Crypto, ledger: seq<ConsentRecord>, r: ConsentRecord, scope: string, now: int,
                                 requireValid: bool)
    requires Effective(c, ledger, scope, now, requireValid).Revoked?
    ensures Effective(c, ledger + [r], scope, now, requireValid).Granted? <==>
      && InScope(c, r, scope, requireValid) && r.action == "grant" && now < r.expiresAt
      && Founder(Scoped(c, ledger, scope, requireValid)) == Some(Lower(r.grantor))
  {
    RevokedConsentRevivesExactlyWhen(c, ledger, [r], scope, now, requireValid);
    assert r in [r];
  }

  /**
   * The deduplication is what stops revival: on a plain ledger, such as the one carried inside a dispute
   * bundle, appending the same unexpired grant again after its revocation puts it back in force.
   */
  lemma ReplayOnPlainLedgerRevives(c: Crypto, grant: ConsentRecord, revoke: ConsentRecord, now: int)
    requires Authentic(c, grant) && grant.action == "grant" && now < grant.expiresAt
    requires Authentic(c, revoke) && revoke.action == "revoke"
    requires revoke.consentReceiptId == grant.consentReceiptId && Lower(revoke.grantor) == Lower(grant.grantor)
    ensures Effective(c, [grant, revoke], grant.consentReceiptId, now, true) == Revoked(revoke)
    ensures Effective(c, [grant, revoke, grant], grant.consentReceiptId, now, true).Granted?
    ensures AppendedAll(c, [grant, revoke], [grant]) == [grant, revoke]
  {
    var scope := grant.consentReceiptId;
    ScopedSnoc(c, [], grant, scope, true);
    ScopedSnoc(c, [grant], revoke, scope, true);
    assert [] + [grant] == [grant] && [grant] + [revoke] == [grant, revoke];
    StandingSnoc([], grant);
    StandingSnoc([grant], revoke);
    AppendRevivesExactlyWhen(c, [grant, revoke], grant, scope, now, true);
    assert [grant, revoke] + [grant] == [grant, revoke, grant];
    assert AppendedAll(c, [grant, revoke], []) == [grant, revoke];
  }

  // -------------------------------------------------------- coverage and bridge

  /** consentCovers: the grant in force for this audience, listing this commitment. */
  function Covering(c: Crypto, ledger: seq<ConsentRecord>, scope: string, audience: string, commitmentHex: string,
                    now: int, requireValid: bool): Option<ConsentRecord> {
    match Effective(c, ledger, scope, now, requireValid)
    case Granted(grant) =>
      if grant.audience == audience && Lower(commitmentHex) in grant.commitments then Some(grant) else None
    case _ => None
  }

  datatype BridgeOptions = BridgeOptions(
    signedRoot: string,
    presentationPubKey: string,
    expectedVerifierId: string,
    expectedNonce: string,
    expectedGrantor: string,
    ledger: seq<ConsentRecord>,
    now: int,
    requireValid: bool
  )

  /** verifyDisclosedClaimWithConsent */
  function VerifyWithConsent(c: Crypto, d: Disclose.DisclosedClaim, o: BridgeOptions): Disclose.Verdict {
    var scope := d.challenge.consentReceiptId;
    if |o.expectedGrantor| == 0 then Disclose.Throws
    else
      match Disclose.ComputeCommitment(c, d.salt, d.claim)
      case None => Disclose.Fail("commitment")
      case Some(commitment) =>
        match Covering(c, o.ledger, scope, o.expectedVerifierId, commitment, o.now, o.requireValid)
        case None => Disclose.Fail("consent-denied")
        case Some(grant) =>
          if Lower(grant.grantor) != Lower(o.expectedGrantor) then Disclose.Fail("grantor-authority")
          else Disclose.VerifyDisclosedClaim(c, d, Disclose.VerifyDisclosedOptions(
            o.signedRoot, o.presentationPubKey, o.expectedVerifierId, o.expectedNonce, Some(scope), false, o.now))
  }

  // ------------------------------------------------------- the rules, spelled out

  /** What a record's id and signature cover: every field, letter case of keys aside, commitments as a sorted set. */
  lemma BodyJsonSays(r: ConsentRecord) returns (members: seq<string>)
    ensures TextOrder.StrictlySorted(members)
    ensures forall t :: t in members <==> exists i :: 0 <= i < |r.commitments| && Lower(r.commitments[i]) == t
    ensures BodyJson(r).Obj?
    ensures var fields := BodyJson(r).fields;
      && fields.Keys == {"action", "consent_receipt_id", "grantor", "audience", "commitments", "issuedAt", "expiresAt"}
                      + (if r.supersedes.Some? then {"supersedes"} else {})
      && fields["action"] == Str(r.action) && fields["consent_receipt_id"] == Str(r.consentReceiptId)
      && fields["grantor"] == Str(Lower(r.grantor)) && fields["audience"] == Str(r.audience)
      && fields["issuedAt"] == Num(r.issuedAt) && fields["expiresAt"] == Num(r.expiresAt)
      && (r.supersedes.Some? ==> fields["supersedes"] == Str(r.supersedes.value))
      && fields["commitments"].Arr? && |fields["commitments"].items| == |members|
      && forall i :: 0 <= i < |members| ==> fields["commitments"].items[i] == Str(members[i])
  {
    members := TextOrder.SortDistinct(Merkle.LowerAll(r.commitments));
    forall t ensures t in members <==> exists i :: 0 <= i < |r.commitments| && Lower(r.commitments[i]) == t {
      assert t in members <==> t in Merkle.LowerAll(r.commitments);
      if i :| 0 <= i < |r.commitments| && Lower(r.commitments[i]) == t {
        assert Merkle.LowerAll(r.commitments)[i] == t;
      }
    }
  }

  /** A record is authentic exactly when its id is the hash of its body and its own key signed that body. */
  lemma AuthenticExactlyWhen(c: Crypto, r: ConsentRecord)
    ensures
      var body, key, sig := c.jcs(BodyJson(r)), HexToBytes(r.grantor), HexToBytes(r.signature);
      Authentic(c, r) <==>
        && (r.action == "grant" || r.action == "revoke")
        && body.Some? && Lower(r.recordId) == BytesToHex(c.hash(c.utf8("dacs-x-consent:v1:") + body.value))
        && key.Some? && |key.value| == 32 && sig.Some? && |sig.value| == 64
        && c.verify("dacs-x-consent:v1:", sig.value, body.value, key.value)
  {
  }

  /** A ledger entry counts for a scope when it names it and, where that is required, is authentic. */
  predicate CountsAt(c: Crypto, ledger: seq<ConsentRecord>, scope: string, requireValid: bool, at: nat) {
    at < |ledger| && ledger[at].consentReceiptId == scope && (requireValid ==> Authentic(c, ledger[at]))
  }

  /** The scope's first counted grant. */
  ghost predicate FoundsAt(c: Crypto, ledger: seq<ConsentRecord>, scope: string, requireValid: bool, first: nat) {
    && CountsAt(c, ledger, scope, requireValid, first) && ledger[first].action == "grant"
    && forall j: nat :: j < first && CountsAt(c, ledger, scope, requireValid, j) ==> ledger[j].action != "grant"
  }

  /** From the founding grant on, the founder grants or revokes here. */
  predicate FounderSpeaksAt(c: Crypto, ledger: seq<ConsentRecord>, scope: string, requireValid: bool, first: nat,
                            at: nat)
    requires first < |ledger|
  {
    && first <= at && CountsAt(c, ledger, scope, requireValid, at)
    && Lower(ledger[at].grantor) == Lower(ledger[first].grantor)
    && (ledger[at].action == "grant" || ledger[at].action == "revoke")
  }

  ghost predicate DecidesAt(c: Crypto, ledger: seq<ConsentRecord>, scope: string, requireValid: bool, first: nat,
                            last: nat)
  {
    && FoundsAt(c, ledger, scope, requireValid, first)
    && FounderSpeaksAt(c, ledger, scope, requireValid, first, last)
    && forall j: nat :: last < j < |ledger| ==> !FounderSpeaksAt(c, ledger, scope, requireValid, first, j)
  }

  ghost predicate StandsAs(c: Crypto, ledger: seq<ConsentRecord>, scope: string, requireValid: bool, first: nat,
                           last: nat, s: Standing)
  {
    if s.founder.None? then
      && s.word.None?
      && forall j: nat :: CountsAt(c, ledger, scope, requireValid, j) ==> ledger[j].action != "grant"
    else
      && DecidesAt(c, ledger, scope, requireValid, first, last)
      && s == Standing(Some(Lower(ledger[first].grantor)), Some(ledger[last]))
  }

  lemma CountedPrefix(c: Crypto, ledger: seq<ConsentRecord>, scope: string, requireValid: bool)
    requires |ledger| > 0
    ensures forall j: nat :: j < |ledger| - 1 ==>
      (CountsAt(c, ledger[..|ledger| - 1], scope, requireValid, j) <==> CountsAt(c, ledger, scope, requireValid, j))
  {
  }

  lemma EarlierSpeech(c: Crypto, ledger: seq<ConsentRecord>, scope: string, requireValid: bool, first: nat)
    requires |ledger| > 0 && first < |ledger| - 1
    ensures forall j: nat :: j < |ledger| - 1 ==>
      (FounderSpeaksAt(c, ledger[..|ledger| - 1], scope, requireValid, first, j) <==>
       FounderSpeaksAt(c, ledger, scope, requireValid, first, j))
  {
    CountedPrefix(c, ledger, scope, requireValid);
  }

  lemma FirstGrantGrows(c: Crypto, ledger: seq<ConsentRecord>, scope: string, requireValid: bool, first: nat, last: nat,
                        s: Standing)
    returns (first': nat, last': nat)
    requires |ledger| > 0 && s.founder.None?
    requires StandsAs(c, ledger[..|ledger| - 1], scope, requireValid, first, last, s)
    ensures
      var r := ledger[|ledger| - 1];
      StandsAs(c, ledger, scope, requireValid, first', last',
               if InScope(c, r, scope, requireValid) then NextStanding(s, r) else s)
  {
    var n := |ledger| - 1;
    CountedPrefix(c, ledger, scope, requireValid);
    first', last' := n, n;
  }

  lemma FoundedGrows(c: Crypto, ledger: seq<ConsentRecord>, scope: string, requireValid: bool, first: nat, last: nat,
                     s: Standing)
    returns (last': nat)
    requires |ledger| > 0 && s.founder.Some?
    requires StandsAs(c, ledger[..|ledger| - 1], scope, requireValid, first, last, s)
    ensures
      var r := ledger[|ledger| - 1];
      StandsAs(c, ledger, scope, requireValid, first, last',
               if InScope(c, r, scope, requireValid) then NextStanding(s, r) else s)
  {
    var n, r := |ledger| - 1, ledger[|ledger| - 1];
    FoundingStays(c, ledger, scope, requireValid, first);
    EarlierSpeech(c, ledger, scope, requireValid, first);
    var speaks := FounderSpeaksAt(c, ledger, scope, requireValid, first, n);
    last' := if speaks then n else last;
    assert DecidesAt(c, ledger, scope, requireValid, first, last');
    FounderSpeaksNext(c, ledger, scope, requireValid, first, s);
  }

  lemma FoundingStays(c: Crypto, ledger: seq<ConsentRecord>, scope: string, requireValid: bool, first: nat)
    requires |ledger| > 0 && FoundsAt(c, ledger[..|ledger| - 1], scope, requireValid, first)
    ensures FoundsAt(c, ledger, scope, requireValid, first)
  {
    CountedPrefix(c, ledger, scope, requireValid);
  }

  lemma FounderSpeaksNext(c: Crypto, ledger: seq<ConsentRecord>, scope: string, requireValid: bool, first: nat,
                          s: Standing)
    requires |ledger| > 0 && first < |ledger| - 1 && s.founder == Some(Lower(ledger[first].grantor))
    ensures
      var r := ledger[|ledger| - 1];
      (if InScope(c, r, scope, requireValid) then NextStanding(s, r) else s) ==
        if FounderSpeaksAt(c, ledger, scope, requireValid, first, |ledger| - 1) then Standing(s.founder, Some(r)) else s
  {
  }

  /** One more record: what it does to the standing. */
  lemma StandingGrows(c: Crypto, ledger: seq<ConsentRecord>, scope: string, requireValid: bool, first: nat, last: nat,
                      s: Standing)
    returns (first': nat, last': nat)
    requires |ledger| > 0 && StandsAs(c, ledger[..|ledger| - 1], scope, requireValid, first, last, s)
    ensures
      var r := ledger[|ledger| - 1];
      StandsAs(c, ledger, scope, requireValid, first', last',
               if InScope(c, r, scope, requireValid) then NextStanding(s, r) else s)
  {
    if s.founder.None? {
      first', last' := FirstGrantGrows(c, ledger, scope, requireValid, first, last, s);
    } else {
      first' := first;
      last' := FoundedGrows(c, ledger, scope, requireValid, first, last, s);
    }
  }

  lemma {:induction false} StandingOfLedger(c: Crypto, ledger: seq<ConsentRecord>, scope: string, requireValid: bool)
    returns (first: nat, last: nat)
    ensures StandsAs(c, ledger, scope, requireValid, first, last, StandingOf(Scoped(c, ledger, scope, requireValid)))
  {
    first, last := 0, 0;
    if |ledger| > 0 {
      var init, r := ledger[..|ledger| - 1], ledger[|ledger| - 1];
      first, last := StandingOfLedger(c, init, scope, requireValid);
      first, last := StandingGrows(c, ledger, scope, requireValid, first, last,
                                   StandingOf(Scoped(c, init, scope, requireValid)));
      ScopedSnoc(c, init, r, scope, requireValid);
      assert init + [r] == ledger;
      if InScope(c, r, scope, requireValid) {
        StandingSnoc(Scoped(c, init, scope, requireValid), r);
      } else {
        assert Scoped(c, ledger, scope, requireValid) == Scoped(c, init, scope, requireValid);
      }
    }
  }

  /**
   * Effective consent, said of the ledger itself: none without a counted grant of the scope; else the founder's last
   * counted word decides, a revoke as it stands, a grant by its expiry.
   */
  lemma EffectiveConsentIsTheFoundersLastWord(c: Crypto, ledger: seq<ConsentRecord>, scope: string, now: int,
                                              requireValid: bool)
    returns (first: nat, last: nat)
    ensures
      if Effective(c, ledger, scope, now, requireValid).NoConsent? then
        forall j: nat :: CountsAt(c, ledger, scope, requireValid, j) ==> ledger[j].action != "grant"
      else
        && DecidesAt(c, ledger, scope, requireValid, first, last)
        && Effective(c, ledger, scope, now, requireValid) == (
            if ledger[last].action == "revoke" then Revoked(ledger[last])
            else if now < ledger[last].expiresAt then Granted(ledger[last])
            else Expired(ledger[last]))
  {
    first, last := StandingOfLedger(c, ledger, scope, requireValid);
  }

  lemma CoveringSpelled(c: Crypto, ledger: seq<ConsentRecord>, scope: string, audience: string, commitment: Digest,
                        now: int, requireValid: bool)
    ensures forall grant ::
      Covering(c, ledger, scope, audience, BytesToHex(commitment), now, requireValid) == Some(grant) <==>
        (Effective(c, ledger, scope, now, requireValid) == Granted(grant) && grant.audience == audience
        && BytesToHex(commitment) in grant.commitments)
  {
    HexRoundTrip(commitment);
  }

  /**
   * The bridge passes exactly when the scope's effective consent is a grant by the expected grantor to this verifier
   * that lists the recomputed commitment, and the disclosure itself passes under that very scope.
   */
  lemma BridgePassesExactlyWhen(c: Crypto, d: Disclose.DisclosedClaim, o: BridgeOptions)
    ensures VerifyWithConsent(c, d, o) == Disclose.Pass <==>
      && o.expectedGrantor != ""
      && exists preimage, grant ::
          && Disclose.OpensTo(c, d, preimage)
          && Effective(c, o.ledger, d.challenge.consentReceiptId, o.now, o.requireValid) == Granted(grant)
          && grant.audience == o.expectedVerifierId
          && BytesToHex(c.hash(preimage)) in grant.commitments
          && Lower(grant.grantor) == Lower(o.expectedGrantor)
          && Disclose.VerifyDisclosedClaim(c, d, Disclose.VerifyDisclosedOptions(
               o.signedRoot, o.presentationPubKey, o.expectedVerifierId, o.expectedNonce,
               Some(d.challenge.consentReceiptId), false, o.now)) == Disclose.Pass
  {
    Disclose.CommitmentSpelled(c, d.salt, d.claim);
    Disclose.PassesExactlyWhen(c, d, Disclose.VerifyDisclosedOptions(
      o.signedRoot, o.presentationPubKey, o.expectedVerifierId, o.expectedNonce, Some(d.challenge.consentReceiptId),
      false, o.now));
    if Disclose.ComputeCommitment(c, d.salt, d.claim).Some? {
      var preimage := Disclose.CommittedBytes(c, HexToBytes(d.salt).value, c.jcs(ClaimJson(d.claim)).value);
      CoveringSpelled(c, o.ledger, d.challenge.consentReceiptId, o.expectedVerifierId, c.hash(preimage), o.now,
                      o.requireValid);
    }
  }
}
