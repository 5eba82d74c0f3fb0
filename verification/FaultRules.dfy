/** The rules on rosters, faults and carried signatures that every resolver of src/lib/bundle-binding-v1.ts shares. */
module FaultRules {
  import opened ByteStrings
  import opened Primitives
  import opened Bundles
  import opened VerifyBundle

  /** Party key to role; a repeated key keeps its last role. */
  type Roster = map<string, string>

  /** Authenticated claims' public keys, as publicKeyFor finds and decodes them. */
  type KeyTable = Claim -> Option<Bytes>

  // ----------------------------------------------------------------------- rosters

  predicate IsRosterEntry(k: Context, p: Party) {
    p.role in ROLES && k.id.claimKey(p.primaryClaim).Some?
  }

  /** The roster of parties all of whose entries are well formed. */
  function RosterOf(k: Context, parties: seq<Party>): Roster
    requires forall i :: 0 <= i < |parties| ==> IsRosterEntry(k, parties[i])
  {
    if |parties| == 0 then map[]
    else
      var last := parties[|parties| - 1];
      assert IsRosterEntry(k, last);
      RosterOf(k, parties[..|parties| - 1])[k.id.claimKey(last.primaryClaim).value := last.role]
  }

  function RoleClaims(k: Context, b: Bundle): Option<Roster> {
    if |b.parties| > 0 && forall i :: 0 <= i < |b.parties| ==> IsRosterEntry(k, b.parties[i])
    then Some(RosterOf(k, b.parties))
    else None
  }

  method CollectRoleClaims(k: Context, b: Bundle) returns (roles: Option<Roster>)
    ensures roles == RoleClaims(k, b)
  {
    if |b.parties| == 0 {
      return None;
    }
    var result: Roster := map[];
    for i := 0 to |b.parties|
      invariant forall j :: 0 <= j < i ==> IsRosterEntry(k, b.parties[j])
      invariant result == RosterOf(k, b.parties[..i])
    {
      var party := b.parties[i];
      if party.role !in ROLES {
        return None;
      }
      var key := k.id.claimKey(party.primaryClaim);
      if key.None? {
        return None;
      }
      assert b.parties[..i + 1][..i] == b.parties[..i];
      result := result[key.value := party.role];
    }
    assert b.parties[..|b.parties|] == b.parties;
    roles := Some(result);
  }

  /** Every listed party is on the roster, every roster role is a listed party's, and all are known roles. */
  lemma {:induction false} RosterIsOfTheParties(k: Context, parties: seq<Party>)
    requires forall i :: 0 <= i < |parties| ==> IsRosterEntry(k, parties[i])
    ensures forall key :: key in RosterOf(k, parties) <==>
      exists i :: 0 <= i < |parties| && k.id.claimKey(parties[i].primaryClaim) == Some(key)
    ensures forall role :: role in RosterOf(k, parties).Values ==>
      role in ROLES && exists i :: 0 <= i < |parties| && parties[i].role == role
  {
    if |parties| > 0 {
      var init, last := parties[..|parties| - 1], parties[|parties| - 1];
      RosterIsOfTheParties(k, init);
      var roster, key := RosterOf(k, parties), k.id.claimKey(last.primaryClaim).value;
      forall other
        ensures other in roster <==>
          exists i :: 0 <= i < |parties| && k.id.claimKey(parties[i].primaryClaim) == Some(other)
      {
        if other in roster && other != key {
          var i :| 0 <= i < |init| && k.id.claimKey(init[i].primaryClaim) == Some(other);
          assert parties[i] == init[i];
        }
        if i :| 0 <= i < |parties| && k.id.claimKey(parties[i].primaryClaim) == Some(other) && other != key {
          assert init[i] == parties[i];
        }
        assert parties[|parties| - 1] == last;
      }
      forall role | role in roster.Values
        ensures role in ROLES && exists i :: 0 <= i < |parties| && parties[i].role == role
      {
        if role == last.role {
          assert parties[|parties| - 1].role == role;
        } else {
          assert role in RosterOf(k, init).Values;
          var i :| 0 <= i < |init| && init[i].role == role;
          assert parties[i].role == role;
        }
      }
    }
  }

  // ------------------------------------------------------------------------ faults

  predicate IsSelfClass(outcome: string) { outcome == "aborted-by-self" || outcome == "failed-perm" }

  predicate IsNoneClass(outcome: string) { outcome == "completed" || outcome == "failed-substrate" }

  predicate FaultedPartyPermitted(b: Bundle, roles: Roster) {
    && b.outcome in OUTCOMES
    && b.anchoredByRole in ROLES
    && b.faultedParty.Some?
    && b.anchoredByRole in roles.Values
    && (var faulted := b.faultedParty.value;
        if IsNoneClass(b.outcome) then faulted == "none"
        else if IsSelfClass(b.outcome) then faulted == b.anchoredByRole
        else faulted != "none" && faulted != b.anchoredByRole && faulted in roles.Values)
  }

  // -------------------------------------------------------------------- signatures

  predicate IsAbort(b: Bundle) { b.outcome == "aborted-by-self" || b.outcome == "aborted-by-other" }

  /** A roster member's ed25519 signature over the hash text under `domain`. */
  predicate SignsFor(k: Context, keys: KeyTable, roles: Roster, domain: string, hash: string, s: Signature) {
    && s.algorithm == "ed25519"
    && k.id.claimKey(s.party).Some?
    && k.id.claimKey(s.party).value in roles
    && k.decodeSignature(s.value).Some?
    && keys(s.party).Some?
    && k.c.verify(domain, k.decodeSignature(s.value).value, k.c.utf8(hash), keys(s.party).value)
  }

  predicate AllSignFor(k: Context, keys: KeyTable, roles: Roster, domain: string, hash: string, b: Bundle) {
    && |b.signatures| > 0
    && forall i :: 0 <= i < |b.signatures| ==> SignsFor(k, keys, roles, domain, hash, b.signatures[i])
  }

  predicate FullySigned(k: Context, roles: Roster, b: Bundle) {
    forall key :: key in roles ==> HasSigned(k, b, Some(key))
  }

  method AllSign(k: Context, keys: KeyTable, roles: Roster, domain: string, hash: string, b: Bundle)
    returns (valid: bool, signed: set<string>)
    ensures valid <==> AllSignFor(k, keys, roles, domain, hash, b)
    ensures valid ==> forall key :: key in signed <==> HasSigned(k, b, Some(key))
  {
    signed := {};
    if |b.signatures| == 0 {
      return false, signed;
    }
    for i := 0 to |b.signatures|
      invariant forall j :: 0 <= j < i ==> SignsFor(k, keys, roles, domain, hash, b.signatures[j])
      invariant forall key :: key in signed <==>
        exists j :: 0 <= j < i && k.id.claimKey(b.signatures[j].party) == Some(key)
    {
      if !SignsFor(k, keys, roles, domain, hash, b.signatures[i]) {
        return false, signed;
      }
      signed := signed + {k.id.claimKey(b.signatures[i].party).value};
    }
    valid := true;
  }

  // ------------------------------------------------------------- the rules, spelled out

  /** No later party has this one's key. */
  predicate IsLastOfItsKey(k: Context, parties: seq<Party>, i: int) {
    && 0 <= i < |parties|
    && forall j :: i < j < |parties| ==>
         k.id.claimKey(parties[j].primaryClaim) != k.id.claimKey(parties[i].primaryClaim)
  }

  /** A roster needs parties, each with a known role and a readable claim; a key's last party gives its role. */
  lemma {:induction false} RosterTakesTheLastRole(k: Context, parties: seq<Party>, i: nat)
    requires forall j :: 0 <= j < |parties| ==> IsRosterEntry(k, parties[j])
    requires IsLastOfItsKey(k, parties, i)
    ensures k.id.claimKey(parties[i].primaryClaim).Some?
    ensures var key := k.id.claimKey(parties[i].primaryClaim).value;
      key in RosterOf(k, parties) && RosterOf(k, parties)[key] == parties[i].role
  {
    assert IsRosterEntry(k, parties[i]);
    var init := parties[..|parties| - 1];
    if i < |init| {
      assert IsLastOfItsKey(k, init, i);
      RosterTakesTheLastRole(k, init, i);
      assert k.id.claimKey(parties[|parties| - 1].primaryClaim) != k.id.claimKey(parties[i].primaryClaim);
    }
  }

  lemma RosterSpelled(k: Context, b: Bundle)
    ensures RoleClaims(k, b).Some? <==>
      && b.parties != []
      && forall i :: 0 <= i < |b.parties| ==>
          IsARole(b.parties[i].role) && k.id.claimKey(b.parties[i].primaryClaim).Some?
    ensures RoleClaims(k, b).Some? ==>
      && (forall i :: IsLastOfItsKey(k, b.parties, i) ==>
            && k.id.claimKey(b.parties[i].primaryClaim).Some?
            && k.id.claimKey(b.parties[i].primaryClaim).value in RoleClaims(k, b).value
            && RoleClaims(k, b).value[k.id.claimKey(b.parties[i].primaryClaim).value] == b.parties[i].role)
      && (forall key :: key in RoleClaims(k, b).value <==> IsAPartysKey(k, b, Some(key)))
  {
    RolesAndOutcomesSpelled(b);
    if RoleClaims(k, b).Some? {
      RosterIsOfTheParties(k, b.parties);
      forall i | IsLastOfItsKey(k, b.parties, i)
        ensures k.id.claimKey(b.parties[i].primaryClaim).Some?
        ensures k.id.claimKey(b.parties[i].primaryClaim).value in RoleClaims(k, b).value
        ensures RoleClaims(k, b).value[k.id.claimKey(b.parties[i].primaryClaim).value] == b.parties[i].role
      {
        RosterTakesTheLastRole(k, b.parties, i);
      }
    }
  }

  /** The fault a copy may name: nobody, its own side, or another rostered role, as its outcome says. */
  predicate MayBlame(b: Bundle, roles: Roster, faulted: string) {
    if b.outcome == "completed" || b.outcome == "failed-substrate" then faulted == "none"
    else if b.outcome == "failed-perm" || b.outcome == "aborted-by-self" then faulted == b.anchoredByRole
    else
      && (b.outcome == "failed-counterparty" || b.outcome == "aborted-by-other")
      && faulted != "none" && faulted != b.anchoredByRole && faulted in roles.Values
  }

  lemma PermissionSpelled(b: Bundle, roles: Roster)
    ensures FaultedPartyPermitted(b, roles) <==>
      && IsARole(b.anchoredByRole) && b.anchoredByRole in roles.Values
      && b.faultedParty.Some? && MayBlame(b, roles, b.faultedParty.value)
  {
    RolesAndOutcomesSpelled(b);
  }

  /** An ed25519 signature by a rostered key, which the table knows, over the hash text. */
  predicate VerifiesFor(k: Context, keys: KeyTable, roles: Roster, domain: string, hash: string, s: Signature) {
    var key, sig, publicKey := k.id.claimKey(s.party), k.decodeSignature(s.value), keys(s.party);
    && s.algorithm == "ed25519" && key.Some? && key.value in roles && sig.Some? && publicKey.Some?
    && k.c.verify(domain, sig.value, k.c.utf8(hash), publicKey.value)
  }

  lemma SignaturesSpelled(k: Context, keys: KeyTable, roles: Roster, domain: string, hash: string, b: Bundle)
    ensures AllSignFor(k, keys, roles, domain, hash, b) <==>
      && b.signatures != []
      && forall i :: 0 <= i < |b.signatures| ==> VerifiesFor(k, keys, roles, domain, hash, b.signatures[i])
    ensures FullySigned(k, roles, b) <==> forall key :: key in roles ==> IsASignersKey(k, b, Some(key))
  {
    forall key ensures HasSigned(k, b, key) <==> IsASignersKey(k, b, key) {
    }
  }
}
