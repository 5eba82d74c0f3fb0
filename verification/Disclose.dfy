/** Claim commitments and audience-bound reveals of src/lib/disclose.ts. `None` stands for a thrown error. */
module Disclose {
  import opened ByteStrings
  import opened Primitives
  import DecimalText
  import Merkle

  const COMMIT_SEP := "dacs-x-claim-commit:v1:"
  const REVEAL_SEP := "dacs-x-claim-reveal:v1:"
  const MIN_SALT_BYTES := 16

  // -------------------------------------------------- length-delimited fields

  predicate Short(field: Bytes) {
    |field| < 0x1_0000_0000
  }

  predicate AllShort(fields: seq<Bytes>) {
    forall i :: 0 <= i < |fields| ==> Short(fields[i])
  }

  function LenDelimited(fields: seq<Bytes>): Bytes {
    if |fields| == 0 then [] else U32(|fields[0]|) + fields[0] + LenDelimited(fields[1..])
  }

  function Concat(parts: seq<Bytes>): Bytes {
    if |parts| == 0 then [] else Concat(parts[..|parts| - 1]) + parts[|parts| - 1]
  }

  function Prefixed(fields: seq<Bytes>): seq<Bytes> {
    if |fields| == 0 then []
    else Prefixed(fields[..|fields| - 1]) + [U32(|fields[|fields| - 1]|), fields[|fields| - 1]]
  }

  lemma Regroup(a: Bytes, b: Bytes, c: Bytes, d: Bytes)
    ensures a + (b + c + d) == (a + b) + c + d
  {
  }

  lemma {:induction false} LenDelimitedSnoc(fields: seq<Bytes>, last: Bytes)
    ensures LenDelimited(fields + [last]) == LenDelimited(fields) + U32(|last|) + last
  {
    if |fields| == 0 {
      assert [] + [last] == [last] && [last][1..] == [];
    } else {
      LenDelimitedSnoc(fields[1..], last);
      assert (fields + [last])[1..] == fields[1..] + [last];
      Regroup(U32(|fields[0]|) + fields[0], LenDelimited(fields[1..]), U32(|last|), last);
    }
  }

  lemma {:induction false} PrefixedPartsConcatenate(fields: seq<Bytes>)
    ensures Concat(Prefixed(fields)) == LenDelimited(fields)
  {
    if |fields| > 0 {
      var init, last := fields[..|fields| - 1], fields[|fields| - 1];
      PrefixedPartsConcatenate(init);
      LenDelimitedSnoc(init, last);
      assert init + [last] == fields;
      var parts := Prefixed(fields);
      assert parts[..|parts| - 1] == Prefixed(init) + [U32(|last|)];
      assert (Prefixed(init) + [U32(|last|)])[..|parts| - 2] == Prefixed(init);
    }
  }

  /** First loop of lenDelimit: the parts and their total size, or a refusal of an over-long field. */
  method CollectParts(fields: seq<Bytes>) returns (parts: seq<Bytes>, total: nat, tooLong: bool)
    ensures tooLong <==> !AllShort(fields)
    ensures !tooLong ==> parts == Prefixed(fields) && total == |Concat(parts)|
  {
    parts, total, tooLong := [], 0, false;
    for k := 0 to |fields|
      invariant AllShort(fields[..k])
      invariant parts == Prefixed(fields[..k]) && total == |Concat(parts)|
    {
      var f := fields[k];
      if |f| > 0xffff_ffff {
        return parts, total, true;
      }
      assert fields[..k + 1][..k] == fields[..k];
      ConcatSnoc(parts, U32(|f|));
      ConcatSnoc(parts + [U32(|f|)], f);
      assert parts + [U32(|f|), f] == parts + [U32(|f|)] + [f];
      parts := parts + [U32(|f|), f];
      total := total + 4 + |f|;
    }
    assert fields[..|fields|] == fields;
  }

  /** Second loop of lenDelimit: copy the parts one after the other into a buffer of the total size. */
  method FillParts(parts: seq<Bytes>, total: nat) returns (filled: Bytes)
    requires total == |Concat(parts)|
    ensures filled == Concat(parts)
  {
    var out := new Byte[total](_ => 0);
    var offset := 0;
    for k := 0 to |parts|
      invariant offset == |Concat(parts[..k])| <= total
      invariant out[..offset] == Concat(parts[..k])
    {
      ConcatSnoc(parts[..k], parts[k]);
      assert parts[..k] + [parts[k]] == parts[..k + 1];
      ConcatPrefixIsShorter(parts, k + 1);
      CopyInto(out, parts[k], offset);
      offset := offset + |parts[k]|;
    }
    assert parts[..|parts|] == parts;
    assert out[..offset] == out[..];
    filled := out[..];
  }

  method LenDelimit(fields: seq<Bytes>) returns (delimited: Option<Bytes>)
    ensures delimited == if AllShort(fields) then Some(LenDelimited(fields)) else None
  {
    var parts, total, tooLong := CollectParts(fields);
    if tooLong {
      return None;
    }
    var filled := FillParts(parts, total);
    PrefixedPartsConcatenate(fields);
    delimited := Some(filled);
  }

  lemma ConcatSnoc(parts: seq<Bytes>, last: Bytes)
    ensures Concat(parts + [last]) == Concat(parts) + last
  {
    assert (parts + [last])[..|parts|] == parts;
  }

  lemma {:induction false} ConcatPrefixIsShorter(parts: seq<Bytes>, k: nat)
    requires k <= |parts|
    ensures |Concat(parts[..k])| <= |Concat(parts)|
    decreases |parts|
  {
    if k < |parts| {
      assert parts[..|parts| - 1][..k] == parts[..k];
      ConcatPrefixIsShorter(parts[..|parts| - 1], k);
    } else {
      assert parts[..k] == parts;
    }
  }

  /** No two field lists share a length-delimited form, whatever their lengths. */
  lemma {:induction false} LenDelimitedIsInjective(xs: seq<Bytes>, ys: seq<Bytes>)
    requires AllShort(xs) && AllShort(ys)
    requires LenDelimited(xs) == LenDelimited(ys)
    ensures xs == ys
  {
    if |xs| > 0 && |ys| > 0 {
      var x, y := xs[0], ys[0];
      var xTail, yTail := LenDelimited(xs[1..]), LenDelimited(ys[1..]);
      U32RoundTrip(|x|, x + xTail);
      U32RoundTrip(|y|, y + yTail);
      assert LenDelimited(xs) == U32(|x|) + (x + xTail);
      assert LenDelimited(ys) == U32(|y|) + (y + yTail);
      assert x + xTail == LenDelimited(xs)[4..] && y + yTail == LenDelimited(ys)[4..];
      assert x == (x + xTail)[..|x|] && y == (y + yTail)[..|x|];
      assert xTail == (x + xTail)[|x|..] && yTail == (y + yTail)[|x|..];
      LenDelimitedIsInjective(xs[1..], ys[1..]);
      assert xs == [x] + xs[1..] && ys == [y] + ys[1..];
    }
  }

  // -------------------------------------------------------------- commitments

  datatype ClaimCommitment = ClaimCommitment(claim: ClaimRef, salt: string, commitment: string)

  /** COMMIT_SEP || len(salt)||salt || len(JCS(claim))||JCS(claim) */
  function CommitmentPreimage(c: Crypto, salt: string, claim: ClaimRef): Option<Bytes> {
    match HexToBytes(salt)
    case None => None
    case Some(saltBytes) =>
      match c.jcs(ClaimJson(claim))
      case None => None
      case Some(json) =>
        if Short(saltBytes) && Short(json) then Some(c.utf8(COMMIT_SEP) + LenDelimited([saltBytes, json])) else None
  }

  function ComputeCommitment(c: Crypto, salt: string, claim: ClaimRef): Option<string> {
    match CommitmentPreimage(c, salt, claim)
    case None => None
    case Some(preimage) => Some(BytesToHex(c.hash(preimage)))
  }

  /** One preimage opens to one salt and one canonical claim. */
  lemma CommitmentPreimageNamesClaim(c: Crypto, s1: string, claim1: ClaimRef, s2: string, claim2: ClaimRef)
    requires CommitmentPreimage(c, s1, claim1).Some?
    requires CommitmentPreimage(c, s1, claim1) == CommitmentPreimage(c, s2, claim2)
    ensures HexToBytes(s1) == HexToBytes(s2) && c.jcs(ClaimJson(claim1)) == c.jcs(ClaimJson(claim2))
  {
    var f1 := [HexToBytes(s1).value, c.jcs(ClaimJson(claim1)).value];
    var f2 := [HexToBytes(s2).value, c.jcs(ClaimJson(claim2)).value];
    var sep := c.utf8(COMMIT_SEP);
    assert LenDelimited(f1) == (sep + LenDelimited(f1))[|sep|..];
    assert LenDelimited(f2) == (sep + LenDelimited(f2))[|sep|..];
    LenDelimitedIsInjective(f1, f2);
    assert f1[0] == f2[0] && f1[1] == f2[1];
  }

  // ------------------------------------------------------------------ reveals

  datatype RevealChallenge = RevealChallenge(verifierId: string, consentReceiptId: string, nonce: string, expiry: int)

  datatype DisclosedClaim = DisclosedClaim(
    claim: ClaimRef,
    salt: string,
    merklePath: seq<Merkle.MerklePathStep>,
    revealSig: string,
    challenge: RevealChallenge
  )

  function RevealFields(c: Crypto, challenge: RevealChallenge, commitmentHex: string): seq<Bytes> {
    [ c.utf8(challenge.verifierId),
      c.utf8(challenge.consentReceiptId),
      c.utf8(challenge.nonce),
      c.utf8(DecimalText.IntText(challenge.expiry)),
      c.utf8(Lower(commitmentHex)) ]
  }

  function RevealBody(c: Crypto, challenge: RevealChallenge, commitmentHex: string): Option<Bytes> {
    var fields := RevealFields(c, challenge, commitmentHex);
    if AllShort(fields) then Some(LenDelimited(fields)) else None
  }

  /** What a reveal signature covers determines the audience, scope, nonce, expiry and commitment. */
  lemma RevealBodyNamesChallenge(c: Crypto, ch1: RevealChallenge, h1: string, ch2: RevealChallenge, h2: string)
    requires Utf8IsInjective(c)
    requires RevealBody(c, ch1, h1).Some? && RevealBody(c, ch1, h1) == RevealBody(c, ch2, h2)
    ensures ch1 == ch2 && Lower(h1) == Lower(h2)
  {
    var f1, f2 := RevealFields(c, ch1, h1), RevealFields(c, ch2, h2);
    LenDelimitedIsInjective(f1, f2);
    assert f1[0] == f2[0] && f1[1] == f2[1] && f1[2] == f2[2] && f1[3] == f2[3] && f1[4] == f2[4];
    DecimalText.IntTextIsInjective(ch1.expiry, ch2.expiry);
  }

  /** A salt as both sides demand it: non-empty hex digits decoding to at least 16 bytes. */
  predicate SaltAccepted(salt: string) {
    |salt| > 0 && IsHex(salt) && HexToBytes(salt).Some? && |HexToBytes(salt).value| >= MIN_SALT_BYTES
  }

  function ProduceReveal(c: Crypto, record: ClaimCommitment, merklePath: seq<Merkle.MerklePathStep>,
                         challenge: RevealChallenge, presentationKey: Bytes): Option<DisclosedClaim> {
    if !SaltAccepted(record.salt) then None
    else
      match ComputeCommitment(c, record.salt, record.claim)
      case None => None
      case Some(recomputed) =>
        if Lower(recomputed) != Lower(record.commitment) then None
        else
          match RevealBody(c, challenge, record.commitment)
          case None => None
          case Some(body) =>
            Some(DisclosedClaim(record.claim, record.salt, merklePath,
                                BytesToHex(c.sign(REVEAL_SEP, body, presentationKey)), challenge))
  }

  datatype VerifyDisclosedOptions = VerifyDisclosedOptions(
    signedRoot: string,
    presentationPubKey: string,
    expectedVerifierId: string,
    expectedNonce: string,
    expectedConsentReceiptId: Option<string>,
    allowUnscopedConsent: bool,
    now: int
  )

  datatype Verdict = Pass | Fail(check: string) | Throws

  function FixedWidth(text: string, width: nat): Option<Bytes> {
    match HexToBytes(text)
    case Some(b) => if |b| == width then Some(b) else None
    case None => None
  }

  /** The reveal signature is checked over the recomputed commitment, never over a carried one. */
  function CheckRevealSignature(c: Crypto, d: DisclosedClaim, presentationPubKey: string, recomputed: string): Verdict {
    match FixedWidth(presentationPubKey, 32)
    case None => Fail("presentation-key")
    case Some(key) =>
      match FixedWidth(d.revealSig, 64)
      case None => Fail("reveal-signature-form")
      case Some(sig) =>
        match RevealBody(c, d.challenge, recomputed)
        case None => Throws
        case Some(body) =>
          if c.verify(REVEAL_SEP, sig, body, key) then Pass else Fail("reveal-signature")
  }

  /** The salt, the commitment it opens, its membership under the signed root, and the signature. */
  function CheckOpening(c: Crypto, d: DisclosedClaim, o: VerifyDisclosedOptions): Verdict {
    if !SaltAccepted(d.salt) then Fail("salt")
    else
      match ComputeCommitment(c, d.salt, d.claim)
      case None => Fail("commitment")
      case Some(recomputed) =>
        if !Merkle.Accepts(c.hash, recomputed, d.merklePath, o.signedRoot) then Fail("membership")
        else CheckRevealSignature(c, d, o.presentationPubKey, recomputed)
  }

  /** The checks in the source's order, each failing closed. */
  function VerifyDisclosedClaim(c: Crypto, d: DisclosedClaim, o: VerifyDisclosedOptions): Verdict {
    if o.expectedConsentReceiptId.Some? == o.allowUnscopedConsent then Throws
    else if d.challenge.verifierId != o.expectedVerifierId then Fail("audience")
    else if d.challenge.nonce != o.expectedNonce then Fail("nonce")
    else if o.expectedConsentReceiptId.Some? && d.challenge.consentReceiptId != o.expectedConsentReceiptId.value then
      Fail("consent-scope")
    else if o.now >= d.challenge.expiry then Fail("expired")
    else CheckOpening(c, d, o)
  }

  /** The verifier options that match how a reveal was made. */
  function MatchingOptions(c: Crypto, root: string, key: Bytes, challenge: RevealChallenge,
                           now: int): VerifyDisclosedOptions {
    VerifyDisclosedOptions(root, BytesToHex(c.publicKey(key)), challenge.verifierId, challenge.nonce,
                           Some(challenge.consentReceiptId), false, now)
  }

  lemma CommitmentIsHex64(c: Crypto, salt: string, claim: ClaimRef)
    requires ComputeCommitment(c, salt, claim).Some?
    ensures var h := ComputeCommitment(c, salt, claim).value;
      Lower(h) == h && Merkle.Decode32(h) == Some(c.hash(CommitmentPreimage(c, salt, claim).value))
  {
    HexRoundTrip(c.hash(CommitmentPreimage(c, salt, claim).value));
  }

  lemma HonestSignatureChecks(c: Crypto, record: ClaimCommitment, path: seq<Merkle.MerklePathStep>,
                              challenge: RevealChallenge, key: Bytes)
    requires SignaturesWork(c)
    requires ProduceReveal(c, record, path, challenge, key).Some?
    ensures ComputeCommitment(c, record.salt, record.claim).Some?
    ensures CheckRevealSignature(c, ProduceReveal(c, record, path, challenge, key).value, BytesToHex(c.publicKey(key)),
                                 ComputeCommitment(c, record.salt, record.claim).value) == Pass
  {
    var recomputed := ComputeCommitment(c, record.salt, record.claim).value;
    assert RevealFields(c, challenge, recomputed) == RevealFields(c, challenge, record.commitment);
    var body := RevealBody(c, challenge, record.commitment).value;
    HexRoundTrip(c.publicKey(key));
    HexRoundTrip(c.sign(REVEAL_SEP, body, key));
  }

  /**
   * End to end: a reveal produced for a member of a commitment set, over the path built for it, passes the
   * verifier it names exactly until it expires.
   */
  lemma HonestRevealPasses(c: Crypto, commitments: seq<string>, record: ClaimCommitment, index: nat,
                           challenge: RevealChallenge, key: Bytes, now: int)
    requires SignaturesWork(c)
    requires Merkle.HasRoot(commitments) && index < |Merkle.Members(commitments)|
    requires Merkle.Members(commitments)[index] == Lower(record.commitment)
    requires var path := Merkle.PathAt(c.hash, Merkle.Leaves(c.hash, Merkle.Members(commitments)), index);
      ProduceReveal(c, record, path, challenge, key).Some?
    ensures var path := Merkle.PathAt(c.hash, Merkle.Leaves(c.hash, Merkle.Members(commitments)), index);
      var root := Merkle.RootOf(c.hash, commitments);
      var verdict := VerifyDisclosedClaim(c, ProduceReveal(c, record, path, challenge, key).value,
                                          MatchingOptions(c, root, key, challenge, now));
      && (verdict == Pass <==> now < challenge.expiry)
      && (now >= challenge.expiry ==> verdict == Fail("expired"))
  {
    var recomputed := ComputeCommitment(c, record.salt, record.claim).value;
    CommitmentIsHex64(c, record.salt, record.claim);
    Merkle.BuiltPathVerifies(c.hash, commitments, recomputed, index);
    var path := Merkle.PathAt(c.hash, Merkle.Leaves(c.hash, Merkle.Members(commitments)), index);
    HonestSignatureChecks(c, record, path, challenge, key);
  }

  // ------------------------------------------- what an accepted reveal proves

  /** Commitments that open: each carries the hash of its own salt and claim. */
  ghost predicate Attested(c: Crypto, records: seq<ClaimCommitment>) {
    forall i :: 0 <= i < |records| ==>
      ComputeCommitment(c, records[i].salt, records[i].claim) == Some(records[i].commitment)
  }

  function CommitmentsOf(records: seq<ClaimCommitment>): seq<string> {
    seq(|records|, i requires 0 <= i < |records| => records[i].commitment)
  }

  /** Everything hashed while attesting the records and computing their root. */
  ghost function AttesterPreimages(c: Crypto, records: seq<ClaimCommitment>): set<Bytes>
    requires Attested(c, records) && Merkle.HasRoot(CommitmentsOf(records))
  {
    (set i | 0 <= i < |records| :: CommitmentPreimage(c, records[i].salt, records[i].claim).value)
    + Merkle.TreePreimages(c.hash, CommitmentsOf(records))
  }

  /** Everything hashed while verifying one disclosed claim. */
  ghost function VerifierPreimages(c: Crypto, d: DisclosedClaim): set<Bytes>
    requires ComputeCommitment(c, d.salt, d.claim).Some?
  {
    var preimage := CommitmentPreimage(c, d.salt, d.claim).value;
    {preimage} + Merkle.PathPreimages(c.hash, c.hash(preimage), d.merklePath)
  }

  /** Some record opens to this very salt and canonical claim. */
  ghost predicate WasAttested(c: Crypto, records: seq<ClaimCommitment>, salt: string, claim: ClaimRef) {
    exists i :: (0 <= i < |records|
      && HexToBytes(records[i].salt) == HexToBytes(salt)
      && c.jcs(ClaimJson(records[i].claim)) == c.jcs(ClaimJson(claim)))
  }

  /** A member of the attested set with this commitment has this preimage, or the two preimages collide. */
  lemma MemberWasAttested(c: Crypto, records: seq<ClaimCommitment>, salt: string, claim: ClaimRef)
    returns (attested: Bytes)
    requires Attested(c, records) && Merkle.HasRoot(CommitmentsOf(records))
    requires CommitmentPreimage(c, salt, claim).Some?
    requires Merkle.IsMember(c.hash(CommitmentPreimage(c, salt, claim).value), CommitmentsOf(records))
    ensures WasAttested(c, records, salt, claim)
      || (attested in AttesterPreimages(c, records) && attested != CommitmentPreimage(c, salt, claim).value
          && c.hash(attested) == c.hash(CommitmentPreimage(c, salt, claim).value))
  {
    var commitments := CommitmentsOf(records);
    var preimage := CommitmentPreimage(c, salt, claim).value;
    var members := Merkle.Members(commitments);
    var m :| 0 <= m < |members| && HexToBytes(members[m]) == Some(c.hash(preimage));
    assert members[m] in members;
    var i :| 0 <= i < |commitments| && Merkle.LowerAll(commitments)[i] == members[m];
    CommitmentIsHex64(c, records[i].salt, records[i].claim);
    attested := CommitmentPreimage(c, records[i].salt, records[i].claim).value;
    if attested == preimage {
      CommitmentPreimageNamesClaim(c, records[i].salt, records[i].claim, salt, claim);
    }
  }

  lemma AcceptedCommitmentWasAttested(c: Crypto, records: seq<ClaimCommitment>, d: DisclosedClaim)
    requires Attested(c, records) && Merkle.HasRoot(CommitmentsOf(records))
    requires ComputeCommitment(c, d.salt, d.claim).Some?
    requires Merkle.Accepts(c.hash, ComputeCommitment(c, d.salt, d.claim).value, d.merklePath,
                            Merkle.RootOf(c.hash, CommitmentsOf(records)))
    ensures WasAttested(c, records, d.salt, d.claim)
      || Merkle.Collision(c.hash, VerifierPreimages(c, d), AttesterPreimages(c, records))
  {
    var commitments := CommitmentsOf(records);
    var recomputed := ComputeCommitment(c, d.salt, d.claim).value;
    var preimage := CommitmentPreimage(c, d.salt, d.claim).value;
    CommitmentIsHex64(c, d.salt, d.claim);
    Merkle.AcceptedPathProvesMembership(c.hash, commitments, recomputed, d.merklePath);
    if Merkle.IsMember(c.hash(preimage), commitments) {
      var attested := MemberWasAttested(c, records, d.salt, d.claim);
      assert preimage in VerifierPreimages(c, d);
    } else {
      var pathPreimages := Merkle.PathPreimages(c.hash, c.hash(preimage), d.merklePath);
      CollisionWidens(c, pathPreimages, VerifierPreimages(c, d),
                      Merkle.TreePreimages(c.hash, commitments), AttesterPreimages(c, records));
    }
  }

  /**
   * Selective disclosure is sound: a claim accepted against the root of an attested set has the salt and the
   * canonical form of one of the attested claims, or a hash collision between the verifier's and the
   * attester's own preimages is exhibited.
   */
  lemma AcceptedClaimWasAttested(c: Crypto, records: seq<ClaimCommitment>, d: DisclosedClaim, o: VerifyDisclosedOptions)
    requires Attested(c, records) && Merkle.HasRoot(CommitmentsOf(records))
    requires o.signedRoot == Merkle.RootOf(c.hash, CommitmentsOf(records))
    requires VerifyDisclosedClaim(c, d, o) == Pass
    ensures WasAttested(c, records, d.salt, d.claim)
      || Merkle.Collision(c.hash, VerifierPreimages(c, d), AttesterPreimages(c, records))
  {
    AcceptedCommitmentWasAttested(c, records, d);
  }

  lemma CollisionWidens(c: Crypto, xs: set<Bytes>, xs': set<Bytes>, ys: set<Bytes>, ys': set<Bytes>)
    requires Merkle.Collision(c.hash, xs, ys) && xs <= xs' && ys <= ys'
    ensures Merkle.Collision(c.hash, xs', ys')
  {
    var x, y :| x in xs && y in ys && x != y && c.hash(x) == c.hash(y);
    assert x in xs' && y in ys';
  }

  // ------------------------------------------------------ commitments and verdicts, spelled out

  /** What a commitment hashes: the separator, then salt and canonical claim, each after its four-byte length. */
  function CommittedBytes(c: Crypto, salt: Bytes, json: Bytes): Bytes {
    c.utf8("dacs-x-claim-commit:v1:") + (U32(|salt|) + salt + (U32(|json|) + json))
  }

  lemma FieldFirst(first: Bytes, rest: seq<Bytes>)
    ensures LenDelimited([first] + rest) == U32(|first|) + first + LenDelimited(rest)
  {
    assert ([first] + rest)[1..] == rest;
  }

  lemma TwoFields(x: Bytes, y: Bytes)
    ensures LenDelimited([x, y]) == U32(|x|) + x + (U32(|y|) + y)
  {
    FieldFirst(x, [y]);
    FieldFirst(y, []);
    assert [y] + [] == [y] && [x] + [y] == [x, y];
    assert U32(|y|) + y + [] == U32(|y|) + y;
  }

  lemma CommitmentSpelled(c: Crypto, salt: string, claim: ClaimRef)
    ensures
      var bytes, json := HexToBytes(salt), c.jcs(ClaimJson(claim));
      && (ComputeCommitment(c, salt, claim).Some? <==>
            bytes.Some? && json.Some? && |bytes.value| < 0x1_0000_0000 && |json.value| < 0x1_0000_0000)
      && (ComputeCommitment(c, salt, claim).Some? ==>
            ComputeCommitment(c, salt, claim).value == BytesToHex(c.hash(CommittedBytes(c, bytes.value, json.value))))
  {
    if HexToBytes(salt).Some? && c.jcs(ClaimJson(claim)).Some? {
      TwoFields(HexToBytes(salt).value, c.jcs(ClaimJson(claim)).value);
    }
  }

  /** What a reveal signs: audience, scope, nonce, expiry and commitment, each after its four-byte length. */
  function RevealedBytes(c: Crypto, challenge: RevealChallenge, commitmentHex: string): Bytes {
    var verifierId, scope := c.utf8(challenge.verifierId), c.utf8(challenge.consentReceiptId);
    var nonce, expiry, commitment :=
      c.utf8(challenge.nonce), c.utf8(DecimalText.IntText(challenge.expiry)), c.utf8(commitmentHex);
    U32(|verifierId|) + verifierId + (U32(|scope|) + scope + (U32(|nonce|) + nonce
      + (U32(|expiry|) + expiry + (U32(|commitment|) + commitment))))
  }

  predicate RevealIsShort(c: Crypto, challenge: RevealChallenge, commitmentHex: string) {
    && |c.utf8(challenge.verifierId)| < 0x1_0000_0000 && |c.utf8(challenge.consentReceiptId)| < 0x1_0000_0000
    && |c.utf8(challenge.nonce)| < 0x1_0000_0000
    && |c.utf8(DecimalText.IntText(challenge.expiry))| < 0x1_0000_0000 && |c.utf8(commitmentHex)| < 0x1_0000_0000
  }

  lemma FiveFields(v: Bytes, w: Bytes, x: Bytes, y: Bytes, z: Bytes)
    ensures LenDelimited([v, w, x, y, z]) ==
      U32(|v|) + v + (U32(|w|) + w + (U32(|x|) + x + (U32(|y|) + y + (U32(|z|) + z))))
  {
    assert [v] + [w, x, y, z] == [v, w, x, y, z] && [w] + [x, y, z] == [w, x, y, z] && [x] + [y, z] == [x, y, z];
    FieldFirst(v, [w, x, y, z]);
    FieldFirst(w, [x, y, z]);
    FieldFirst(x, [y, z]);
    TwoFields(y, z);
  }

  lemma RevealBodySpelled(c: Crypto, challenge: RevealChallenge, commitmentHex: string)
    requires Lower(commitmentHex) == commitmentHex
    ensures RevealBody(c, challenge, commitmentHex) ==
      if RevealIsShort(c, challenge, commitmentHex) then Some(RevealedBytes(c, challenge, commitmentHex)) else None
  {
    var fields := RevealFields(c, challenge, commitmentHex);
    FiveFields(fields[0], fields[1], fields[2], fields[3], fields[4]);
    assert fields == [fields[0], fields[1], fields[2], fields[3], fields[4]];
    if RevealIsShort(c, challenge, commitmentHex) {
      assert forall i :: 0 <= i < 5 ==> Short(fields[i]);
    } else {
      assert !Short(fields[0]) || !Short(fields[1]) || !Short(fields[2]) || !Short(fields[3]) || !Short(fields[4]);
    }
  }

  /** The verifier was told one way to treat the consent scope: a scope to expect, or to do without. */
  predicate ScopeIsConfigured(o: VerifyDisclosedOptions) {
    || (o.expectedConsentReceiptId.Some? && !o.allowUnscopedConsent)
    || (o.expectedConsentReceiptId.None? && o.allowUnscopedConsent)
  }

  /** The reveal answers this verifier's challenge, in time. */
  predicate AnswersChallenge(d: DisclosedClaim, o: VerifyDisclosedOptions) {
    && d.challenge.verifierId == o.expectedVerifierId
    && d.challenge.nonce == o.expectedNonce
    && (o.expectedConsentReceiptId.Some? ==> o.expectedConsentReceiptId.value == d.challenge.consentReceiptId)
    && o.now < d.challenge.expiry
  }

  /** The salt is hex digits for 16 bytes or more, and salt and canonical claim make up `preimage`. */
  predicate OpensTo(c: Crypto, d: DisclosedClaim, preimage: Bytes) {
    var salt, json := HexToBytes(d.salt), c.jcs(ClaimJson(d.claim));
    && (forall i :: 0 <= i < |d.salt| ==> IsHexDigit(d.salt[i]))
    && salt.Some? && 16 <= |salt.value| < 0x1_0000_0000
    && json.Some? && |json.value| < 0x1_0000_0000
    && preimage == CommittedBytes(c, salt.value, json.value)
  }

  /** The path recomputes the signed root from the commitment, step by step. */
  ghost predicate ReachesRoot(c: Crypto, commitment: Digest, path: seq<Merkle.MerklePathStep>, rootHex: string) {
    && HexToBytes(rootHex).Some?
    && exists run ::
         Merkle.IsRun(c.hash, c.hash([0] + commitment), path, run) && HexToBytes(rootHex) == Some(run[|path|])
  }

  /** The holder of the presentation key signed exactly this challenge and commitment. */
  predicate HolderSigned(c: Crypto, d: DisclosedClaim, presentationPubKey: string, commitment: Digest) {
    var key, sig, commitmentHex := HexToBytes(presentationPubKey), HexToBytes(d.revealSig), BytesToHex(commitment);
    && key.Some? && |key.value| == 32 && sig.Some? && |sig.value| == 64
    && RevealIsShort(c, d.challenge, commitmentHex)
    && c.verify("dacs-x-claim-reveal:v1:", sig.value, RevealedBytes(c, d.challenge, commitmentHex), key.value)
  }

  lemma SaltSpelled(salt: string)
    ensures SaltAccepted(salt) <==>
      && (forall i :: 0 <= i < |salt| ==> IsHexDigit(salt[i]))
      && HexToBytes(salt).Some? && 16 <= |HexToBytes(salt).value|
  {
  }

  lemma MembershipSpelled(c: Crypto, commitment: Digest, path: seq<Merkle.MerklePathStep>, rootHex: string)
    ensures Merkle.Accepts(c.hash, BytesToHex(commitment), path, rootHex) <==> ReachesRoot(c, commitment, path, rootHex)
  {
    HexRoundTrip(commitment);
    Merkle.AcceptedMeansRecomputed(c.hash, BytesToHex(commitment), path, rootHex);
  }

  lemma SignatureSpelled(c: Crypto, d: DisclosedClaim, presentationPubKey: string, commitment: Digest)
    ensures CheckRevealSignature(c, d, presentationPubKey, BytesToHex(commitment)) == Pass <==>
      HolderSigned(c, d, presentationPubKey, commitment)
  {
    HexRoundTrip(commitment);
    RevealBodySpelled(c, d.challenge, BytesToHex(commitment));
  }

  /**
   * A disclosed claim passes exactly when it answers the verifier's own challenge in time, opens to a commitment that
   * recomputes the signed root, and is signed over that very challenge and commitment under the presentation key.
   */
  lemma PassesExactlyWhen(c: Crypto, d: DisclosedClaim, o: VerifyDisclosedOptions)
    ensures VerifyDisclosedClaim(c, d, o) == Pass <==>
      && ScopeIsConfigured(o) && AnswersChallenge(d, o)
      && exists preimage ::
          && OpensTo(c, d, preimage)
          && ReachesRoot(c, c.hash(preimage), d.merklePath, o.signedRoot)
          && HolderSigned(c, d, o.presentationPubKey, c.hash(preimage))
  {
    SaltSpelled(d.salt);
    CommitmentSpelled(c, d.salt, d.claim);
    if HexToBytes(d.salt).Some? && c.jcs(ClaimJson(d.claim)).Some? {
      var preimage := CommittedBytes(c, HexToBytes(d.salt).value, c.jcs(ClaimJson(d.claim)).value);
      MembershipSpelled(c, c.hash(preimage), d.merklePath, o.signedRoot);
      SignatureSpelled(c, d, o.presentationPubKey, c.hash(preimage));
    }
  }

  /** A claim that does not answer the challenge is told the first thing that is wrong; a bad configuration throws. */
  lemma ChallengeFailureIsNamed(c: Crypto, d: DisclosedClaim, o: VerifyDisclosedOptions)
    ensures !ScopeIsConfigured(o) ==> VerifyDisclosedClaim(c, d, o) == Throws
    ensures ScopeIsConfigured(o) && !AnswersChallenge(d, o) ==>
      VerifyDisclosedClaim(c, d, o) == Fail(
        if d.challenge.verifierId != o.expectedVerifierId then "audience"
        else if d.challenge.nonce != o.expectedNonce then "nonce"
        else if o.expectedConsentReceiptId == Some(d.challenge.consentReceiptId) || o.expectedConsentReceiptId.None?
        then "expired"
        else "consent-scope")
  {
  }

  /** One that does is told whether its salt, its commitment or its membership fails; else the signature decides. */
  lemma OpeningFailureIsNamed(c: Crypto, d: DisclosedClaim, o: VerifyDisclosedOptions)
    requires ScopeIsConfigured(o) && AnswersChallenge(d, o)
    ensures
      var salt, json := HexToBytes(d.salt), c.jcs(ClaimJson(d.claim));
      var saltIsGood := (forall i :: 0 <= i < |d.salt| ==> IsHexDigit(d.salt[i])) && salt.Some? && 16 <= |salt.value|;
      var canCommit := salt.Some? && json.Some? && |salt.value| < 0x1_0000_0000 && |json.value| < 0x1_0000_0000;
      && (!saltIsGood ==> VerifyDisclosedClaim(c, d, o) == Fail("salt"))
      && (saltIsGood && !canCommit ==> VerifyDisclosedClaim(c, d, o) == Fail("commitment"))
      && (saltIsGood && canCommit
          && !ReachesRoot(c, c.hash(CommittedBytes(c, salt.value, json.value)), d.merklePath, o.signedRoot) ==>
            VerifyDisclosedClaim(c, d, o) == Fail("membership"))
  {
    SaltSpelled(d.salt);
    CommitmentSpelled(c, d.salt, d.claim);
    if HexToBytes(d.salt).Some? && c.jcs(ClaimJson(d.claim)).Some? {
      var preimage := CommittedBytes(c, HexToBytes(d.salt).value, c.jcs(ClaimJson(d.claim)).value);
      MembershipSpelled(c, c.hash(preimage), d.merklePath, o.signedRoot);
    }
  }

  /** The holder signs what the verifier will check, and only over a salt and commitment that open. */
  lemma RevealSpelled(c: Crypto, record: ClaimCommitment, path: seq<Merkle.MerklePathStep>, challenge: RevealChallenge,
                      key: Bytes)
    ensures
      var d := DisclosedClaim(record.claim, record.salt, path, "", challenge);
      ProduceReveal(c, record, path, challenge, key).Some? <==>
        exists preimage ::
          && OpensTo(c, d, preimage) && Lower(record.commitment) == BytesToHex(c.hash(preimage))
          && RevealIsShort(c, challenge, Lower(record.commitment))
    ensures ProduceReveal(c, record, path, challenge, key).Some? ==>
      ProduceReveal(c, record, path, challenge, key).value == DisclosedClaim(
        record.claim, record.salt, path,
        BytesToHex(c.sign("dacs-x-claim-reveal:v1:", RevealedBytes(c, challenge, Lower(record.commitment)), key)),
        challenge)
  {
    SaltSpelled(record.salt);
    CommitmentSpelled(c, record.salt, record.claim);
    LowerIsIdempotent(record.commitment);
    RevealBodySpelled(c, challenge, Lower(record.commitment));
    assert RevealFields(c, challenge, record.commitment) == RevealFields(c, challenge, Lower(record.commitment));
    if HexToBytes(record.salt).Some? && c.jcs(ClaimJson(record.claim)).Some? {
      HexRoundTrip(c.hash(CommittedBytes(c, HexToBytes(record.salt).value, c.jcs(ClaimJson(record.claim)).value)));
    }
  }
}
