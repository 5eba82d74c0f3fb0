/**
 * The shard quorum shared by src/lib/settlement-evidence-verifier.ts, src/lib/tank-refund-evidence.ts and
 * src/lib/tank-lock-evidence.ts: distinct, authorised, valid signers over one commitment.
 */
module Quorum {
  import opened ByteStrings
  import opened Primitives
  import Disclose

  datatype ShardSignature = ShardSignature(signer: string, signature: string)

  /** How an entry counts: the normalised signer when its signature is well formed and verifies. */
  type SignatureCheck = ShardSignature -> Option<string>

  function CheckOver(c: Crypto, separator: string, body: Bytes): SignatureCheck {
    (s: ShardSignature) =>
      match (Disclose.FixedWidth(s.signer, 32), Disclose.FixedWidth(s.signature, 64))
      case (Some(key), Some(sig)) => if c.verify(separator, sig, body, key) then Some(BytesToHex(key)) else None
      case _ => None
  }

  predicate Signed(check: SignatureCheck, sigs: seq<ShardSignature>, signer: string) {
    exists i :: 0 <= i < |sigs| && check(sigs[i]) == Some(signer)
  }

  /** The distinct authorised signers. */
  function ValidSigners(check: SignatureCheck, sigs: seq<ShardSignature>, authorized: set<string>): set<string> {
    set signer | signer in authorized && Signed(check, sigs, signer)
  }

  /** `k.toLowerCase().replace(/^0x/, '')`, empty results dropped. */
  function NormalisedShardSet(keys: seq<string>): set<string> {
    set i | 0 <= i < |keys| && |StripHexPrefix(Lower(keys[i]))| > 0 :: StripHexPrefix(Lower(keys[i]))
  }

  method NormaliseShardSet(keys: seq<string>) returns (shards: set<string>)
    ensures shards == NormalisedShardSet(keys)
  {
    shards := {};
    for i := 0 to |keys|
      invariant shards == NormalisedShardSet(keys[..i])
    {
      var norm := StripHexPrefix(Lower(keys[i]));
      ShardSetSnoc(keys[..i], keys[i]);
      assert keys[..i + 1] == keys[..i] + [keys[i]];
      if |norm| > 0 {
        shards := shards + {norm};
      }
    }
    assert keys[..|keys|] == keys;
  }

  lemma ShardSetSnoc(keys: seq<string>, k: string)
    ensures var norm := StripHexPrefix(Lower(k));
      NormalisedShardSet(keys + [k]) == NormalisedShardSet(keys) + (if |norm| > 0 then {norm} else {})
  {
    var longer := keys + [k];
    assert longer[|keys|] == k;
    forall x | x in NormalisedShardSet(keys) ensures x in NormalisedShardSet(longer) {
      var i :| 0 <= i < |keys| && |StripHexPrefix(Lower(keys[i]))| > 0 && x == StripHexPrefix(Lower(keys[i]));
      assert longer[i] == keys[i];
    }
  }

  lemma SignersSnoc(check: SignatureCheck, sigs: seq<ShardSignature>, s: ShardSignature, authorized: set<string>)
    ensures ValidSigners(check, sigs + [s], authorized) == ValidSigners(check, sigs, authorized) +
      (match check(s) case Some(signer) => {signer} * authorized case None => {})
  {
    SignersOfConcat(check, sigs, [s], authorized);
    assert forall signer :: Signed(check, [s], signer) <==> check([s][0]) == Some(signer);
  }

  lemma SignersOfConcat(check: SignatureCheck, a: seq<ShardSignature>, b: seq<ShardSignature>, authorized: set<string>)
    ensures ValidSigners(check, a + b, authorized) ==
        ValidSigners(check, a, authorized) + ValidSigners(check, b, authorized)
  {
    forall signer ensures Signed(check, a + b, signer) <==>
      Signed(check, a, signer) || Signed(check, b, signer)
    {
      if i :| 0 <= i < |a| && check(a[i]) == Some(signer) {
        assert (a + b)[i] == a[i];
      }
      if i :| 0 <= i < |b| && check(b[i]) == Some(signer) {
        assert (a + b)[|a| + i] == b[i];
      }
    }
  }

  /** The counting loop: bad entries are skipped one by one, repeats collapse in the set. */
  method CountSigners(check: SignatureCheck, sigs: seq<ShardSignature>, authorized: set<string>)
    returns (validSigners: set<string>, rejectedNonMembers: nat)
    ensures validSigners == ValidSigners(check, sigs, authorized)
    ensures rejectedNonMembers > 0 <==>
      exists i :: (0 <= i < |sigs| && check(sigs[i]).Some?
        && check(sigs[i]).value !in authorized)
  {
    validSigners, rejectedNonMembers := {}, 0;
    for i := 0 to |sigs|
      invariant validSigners == ValidSigners(check, sigs[..i], authorized)
      invariant rejectedNonMembers > 0 <==>
        exists j :: (0 <= j < i && check(sigs[j]).Some?
          && check(sigs[j]).value !in authorized)
    {
      var s := sigs[i];
      SignersSnoc(check, sigs[..i], s, authorized);
      assert sigs[..i + 1] == sigs[..i] + [s];
      var signer := check(s);
      if signer.None? {
        continue;
      }
      if signer.value !in authorized {
        rejectedNonMembers := rejectedNonMembers + 1;
        continue;
      }
      validSigners := validSigners + {signer.value};
    }
    assert sigs[..|sigs|] == sigs;
  }

  // ----------------------------------------------------------- configuration

  function Majority(shardSetSize: int): int {
    shardSetSize / 2 + 1
  }

  /** requiredQuorum is positive and, when the set size is declared, a majority of it. */
  predicate QuorumConfigured(requiredQuorum: int, shardSetSize: Option<int>) {
    requiredQuorum >= 1 && (shardSetSize.Some? ==> requiredQuorum >= Majority(shardSetSize.value))
  }

  // ---------------------------------------------------------------- properties

  lemma {:induction false} SubsetIsNotLarger<T>(a: set<T>, b: set<T>)
    requires a <= b
    ensures |a| <= |b|
  {
    assert b == a + (b - a);
  }

  /** Two majorities of one set share a member. */
  lemma MajoritiesIntersect<T>(whole: set<T>, a: set<T>, b: set<T>) returns (shared: T)
    requires a <= whole && b <= whole
    requires |a| >= Majority(|whole|) && |b| >= Majority(|whole|)
    ensures shared in a && shared in b
  {
    if a * b == {} {
      SubsetIsNotLarger(a + b, whole);
      assert false;
    }
    shared :| shared in a * b;
  }

  /** Entries that cannot count: malformed, not verifying, not authorised, or repeating a counted signer. */
  predicate Useless(check: SignatureCheck, others: seq<ShardSignature>, s: ShardSignature, authorized: set<string>) {
    match check(s)
    case None => true
    case Some(signer) => signer !in authorized || Signed(check, others, signer)
  }

  /** Extra entries anywhere never lower the count; useless ones never raise it. */
  lemma ExtraSignatures(check: SignatureCheck, a: seq<ShardSignature>, s: ShardSignature, b: seq<ShardSignature>,
                        authorized: set<string>)
    ensures ValidSigners(check, a + b, authorized) <= ValidSigners(check, a + [s] + b, authorized)
    ensures |ValidSigners(check, a + b, authorized)| <= |ValidSigners(check, a + [s] + b, authorized)|
    ensures Useless(check, a + b, s, authorized) ==>
      ValidSigners(check, a + [s] + b, authorized) == ValidSigners(check, a + b, authorized)
  {
    SignersOfConcat(check, a + [s], b, authorized);
    SignersOfConcat(check, a, b, authorized);
    SignersSnoc(check, a, s, authorized);
    SubsetIsNotLarger(ValidSigners(check, a + b, authorized),
                      ValidSigners(check, a + [s] + b, authorized));
  }

  // ------------------------------------------------------------- verdicts by quorum

  /**
   * What a verifier decides by: whether every check that ignores the signatures holds, how an entry is checked
   * over the commitment body, and who counts.
   */
  datatype Case = Case(ready: bool, check: SignatureCheck, authorized: set<string>, required: int)

  /** What a body that cannot be built accepts. */
  function NoSignature(s: ShardSignature): Option<string> { None }

  predicate Carried(q: Case, sigs: seq<ShardSignature>) {
    q.ready && |sigs| > 0 && |ValidSigners(q.check, sigs, q.authorized)| >= q.required
  }

  function Inserted(sigs: seq<ShardSignature>, at: nat, s: ShardSignature): seq<ShardSignature>
    requires at <= |sigs|
  {
    sigs[..at] + [s] + sigs[at..]
  }

  /** Whatever is inserted anywhere, a carried case stays carried. */
  lemma InsertionKeepsCarried(q: Case, sigs: seq<ShardSignature>, at: nat, s: ShardSignature)
    requires Carried(q, sigs) && at <= |sigs|
    ensures Carried(q, Inserted(sigs, at, s))
  {
    assert sigs == sigs[..at] + sigs[at..];
    ExtraSignatures(q.check, sigs[..at], s, sigs[at..], q.authorized);
  }

  /** An entry that cannot count decides nothing, also when it is the only one. */
  lemma UselessEntryDecidesNothing(q: Case, sigs: seq<ShardSignature>, at: nat, s: ShardSignature)
    requires q.ready ==> q.required >= 1
    requires at <= |sigs| && Useless(q.check, sigs, s, q.authorized)
    ensures Carried(q, Inserted(sigs, at, s)) <==> Carried(q, sigs)
  {
    assert sigs == sigs[..at] + sigs[at..];
    ExtraSignatures(q.check, sigs[..at], s, sigs[at..], q.authorized);
    if |sigs| == 0 {
      assert ValidSigners(q.check, sigs, q.authorized) == {};
    }
  }

  // ------------------------------------------------------------- the rules, spelled out

  /** More than half of a declared set, and somebody in any case. */
  lemma QuorumConfiguredExactlyWhen(requiredQuorum: int, shardSetSize: Option<int>)
    ensures QuorumConfigured(requiredQuorum, shardSetSize) <==>
      requiredQuorum > 0 && (shardSetSize.Some? ==> 2 * requiredQuorum > shardSetSize.value)
  {
  }

  /** A listed shard: some listed key, in lower case and without a leading "0x", and not empty. */
  predicate IsAuthorised(keys: seq<string>, shard: string) {
    && shard != ""
    && exists i :: 0 <= i < |keys| && IsKeyOf(Lower(keys[i]), shard)
  }

  predicate IsKeyOf(key: string, shard: string) {
    key == "0x" + shard || (key == shard && (|shard| < 2 || shard[..2] != "0x"))
  }

  lemma ShardSetSpelled(keys: seq<string>, shard: string)
    ensures shard in NormalisedShardSet(keys) <==> IsAuthorised(keys, shard)
  {
    if shard in NormalisedShardSet(keys) {
      var i :| 0 <= i < |keys| && |StripHexPrefix(Lower(keys[i]))| > 0 && shard == StripHexPrefix(Lower(keys[i]));
      var key := Lower(keys[i]);
      assert |key| >= 2 && key[..2] == "0x" ==> key == "0x" + key[2..];
    }
    if i :| 0 <= i < |keys| && shard != "" && IsKeyOf(Lower(keys[i]), shard) {
      if Lower(keys[i]) == "0x" + shard {
        assert Lower(keys[i])[..2] == "0x" && Lower(keys[i])[2..] == shard;
      }
      assert StripHexPrefix(Lower(keys[i])) == shard;
    }
  }

  /** The shard's own ed25519 signature, by its 32-byte key, over the body under the separator. */
  predicate HasSigned(c: Crypto, separator: string, body: Bytes, sigs: seq<ShardSignature>, shard: string) {
    exists i :: 0 <= i < |sigs| && Verifies(c, separator, body, sigs[i], shard)
  }

  predicate Verifies(c: Crypto, separator: string, body: Bytes, s: ShardSignature, shard: string) {
    var key, sig := HexToBytes(s.signer), HexToBytes(s.signature);
    && key.Some? && |key.value| == 32 && sig.Some? && |sig.value| == 64
    && BytesToHex(key.value) == shard && c.verify(separator, sig.value, body, key.value)
  }

  /** Enough different shards of the listed ones signed. */
  ghost predicate IsCarried(c: Crypto, separator: string, body: Bytes, sigs: seq<ShardSignature>, keys: seq<string>,
                            required: int) {
    exists shards: set<string> :: |shards| >= required && HaveAllSigned(c, separator, body, sigs, keys, shards)
  }

  ghost predicate HaveAllSigned(c: Crypto, separator: string, body: Bytes, sigs: seq<ShardSignature>, keys: seq<string>,
                                shards: set<string>) {
    forall shard :: shard in shards ==> IsAuthorised(keys, shard) && HasSigned(c, separator, body, sigs, shard)
  }

  lemma CheckSpelled(c: Crypto, separator: string, body: Bytes, s: ShardSignature, shard: string)
    ensures CheckOver(c, separator, body)(s) == Some(shard) <==> Verifies(c, separator, body, s, shard)
  {
    var key, sig := Disclose.FixedWidth(s.signer, 32), Disclose.FixedWidth(s.signature, 64);
    assert CheckOver(c, separator, body)(s) ==
      if key.Some? && sig.Some? && c.verify(separator, sig.value, body, key.value)
      then Some(BytesToHex(key.value)) else None;
  }

  lemma QuorumSpelled(c: Crypto, separator: string, body: Bytes, sigs: seq<ShardSignature>, keys: seq<string>,
                      required: int)
    ensures |ValidSigners(CheckOver(c, separator, body), sigs, NormalisedShardSet(keys))| >= required <==>
      IsCarried(c, separator, body, sigs, keys, required)
  {
    var valid := ValidSigners(CheckOver(c, separator, body), sigs, NormalisedShardSet(keys));
    forall shard
      ensures shard in valid <==> IsAuthorised(keys, shard) && HasSigned(c, separator, body, sigs, shard)
    {
      ShardSetSpelled(keys, shard);
      forall i | 0 <= i < |sigs|
        ensures CheckOver(c, separator, body)(sigs[i]) == Some(shard) <==> Verifies(c, separator, body, sigs[i], shard)
      {
        CheckSpelled(c, separator, body, sigs[i], shard);
      }
    }
    assert HaveAllSigned(c, separator, body, sigs, keys, valid);
    if shards: set<string> :| |shards| >= required && HaveAllSigned(c, separator, body, sigs, keys, shards) {
      SubsetIsNotLarger(shards, valid);
    }
  }
}
