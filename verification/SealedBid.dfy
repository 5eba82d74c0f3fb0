/** Sealed-bid commitments of src/lib/sealed-bid.ts. `None` stands for a thrown error. */
module SealedBid {
  import opened ByteStrings
  import opened Primitives

  const MIN_SALT_BYTES := 16

  datatype Bid = Bid(
    amount: string,
    currency: string,
    substrate: Option<string>,
    deliverable: Option<string>,
    terms: Option<Json>
  )

  function BidJson(bid: Bid): Json {
    var price := map["amount" := Str(bid.amount), "currency" := Str(bid.currency)];
    var priced := if bid.substrate.Some? then price["substrate" := Str(bid.substrate.value)] else price;
    var base := map["price" := Obj(priced)];
    var delivered := if bid.deliverable.Some? then base["deliverable" := Str(bid.deliverable.value)] else base;
    Obj(if bid.terms.Some? then delivered["terms" := bid.terms.value] else delivered)
  }

  datatype Commitment = Commitment(bidHash: string, saltHex: string)

  /** A revealed salt: raw bytes or hex text. */
  datatype Salt = Raw(bytes: Bytes) | Text(hex: string)

  function Preimage(json: Bytes, salt: Bytes): Bytes {
    json + [0] + salt
  }

  /** JCS escapes control characters (RFC 8785, section 3.2.2.2), so no canonical form contains a NUL. */
  ghost predicate CanonicalFormsAreNulFree(c: Crypto) {
    forall j :: c.jcs(j).Some? ==> 0 !in c.jcs(j).value
  }

  lemma PreimageSpelled(json: Bytes, salt: Bytes)
    ensures Preimage(json, salt) == json + ([0] + salt)
  {
  }

  /** A bid is written as its price (amount, currency, any substrate) and its deliverable and terms if it has any. */
  lemma BidJsonSays(bid: Bid)
    ensures BidJson(bid).Obj? && "price" in BidJson(bid).fields && BidJson(bid).fields["price"].Obj?
    ensures var fields, price := BidJson(bid).fields, BidJson(bid).fields["price"].fields;
      && fields.Keys == {"price"} + (if bid.deliverable.Some? then {"deliverable"} else {})
                      + (if bid.terms.Some? then {"terms"} else {})
      && (bid.deliverable.Some? ==> fields["deliverable"] == Str(bid.deliverable.value))
      && (bid.terms.Some? ==> fields["terms"] == bid.terms.value)
      && price.Keys == {"amount", "currency"} + (if bid.substrate.Some? then {"substrate"} else {})
      && price["amount"] == Str(bid.amount) && price["currency"] == Str(bid.currency)
      && (bid.substrate.Some? ==> price["substrate"] == Str(bid.substrate.value))
  {
    assert "price"[0] != "deliverable"[0] && "price"[0] != "terms"[0] && "deliverable"[0] != "terms"[0];
    assert "amount"[0] != "currency"[0] && "amount"[0] != "substrate"[0] && "currency"[0] != "substrate"[0];
  }

  method BuildCommitmentPreimage(json: Bytes, salt: Bytes) returns (preimage: Bytes)
    ensures preimage == Preimage(json, salt)
  {
    var out := new Byte[|json| + 1 + |salt|](_ => 0);
    CopyInto(out, json, 0);
    out[|json|] := 0;
    CopyInto(out, salt, |json| + 1);
    preimage := out[..];
  }

  method CommitSealedBid(c: Crypto, bid: Bid, salt: Bytes) returns (commitment: Option<Commitment>)
    ensures commitment.Some? <==> |salt| >= 16 && c.jcs(BidJson(bid)).Some?
    ensures commitment.Some? ==>
      commitment.value == Commitment(BytesToHex(c.hash(c.jcs(BidJson(bid)).value + ([0] + salt))), BytesToHex(salt))
  {
    var json := c.jcs(BidJson(bid));
    if |salt| < MIN_SALT_BYTES || json.None? {
      return None;
    }
    var preimage := BuildCommitmentPreimage(json.value, salt);
    PreimageSpelled(json.value, salt);
    commitment := Some(Commitment(BytesToHex(c.hash(preimage)), BytesToHex(salt)));
  }

  function SaltBytes(salt: Salt): Option<Bytes> {
    match salt
    case Raw(b) => Some(b)
    case Text(h) => HexToBytes(h)
  }

  /** What an accepted reveal means: the revealed bid and salt hash to the committed text. */
  predicate Opens(c: Crypto, bidHash: string, bid: Bid, salt: Salt) {
    && SaltBytes(salt).Some? && |SaltBytes(salt).value| >= MIN_SALT_BYTES
    && c.jcs(BidJson(bid)).Some?
    && BytesToHex(c.hash(Preimage(c.jcs(BidJson(bid)).value, SaltBytes(salt).value))) == Lower(StripHexPrefix(bidHash))
  }

  /** The final comparison keeps a running difference instead of stopping at the first mismatch. */
  method VerifyReveal(c: Crypto, bidHash: string, bid: Bid, salt: Salt) returns (accepted: bool)
    ensures accepted == Opens(c, bidHash, bid, salt)
  {
    var committed := Lower(StripHexPrefix(bidHash));
    var saltBytes := SaltBytes(salt);
    if saltBytes.None? || |saltBytes.value| < MIN_SALT_BYTES {
      return false;
    }
    var json := c.jcs(BidJson(bid));
    if json.None? {
      return false;
    }
    var preimage := BuildCommitmentPreimage(json.value, saltBytes.value);
    var recomputed := BytesToHex(c.hash(preimage));
    if |recomputed| != |committed| {
      return false;
    }
    var differs := false;
    for i := 0 to |recomputed|
      invariant differs <==> exists k :: 0 <= k < i && recomputed[k] != committed[k]
    {
      differs := differs || recomputed[i] != committed[i];
    }
    accepted := !differs;
  }

  /** The first NUL splits the preimage, whatever the salt contains. */
  lemma {:induction false} PreimageIsInjective(json1: Bytes, salt1: Bytes, json2: Bytes, salt2: Bytes)
    requires 0 !in json1 && 0 !in json2
    requires Preimage(json1, salt1) == Preimage(json2, salt2)
    ensures json1 == json2 && salt1 == salt2
  {
    var p := Preimage(json1, salt1);
    assert p[|json1|] == 0;
    assert Preimage(json2, salt2)[|json2|] == 0;
    assert json1 == p[..|json1|] && json2 == Preimage(json2, salt2)[..|json1|];
    assert salt1 == p[|json1| + 1..] && salt2 == Preimage(json2, salt2)[|json1| + 1..];
  }

  /** Binding: a reveal accepted for a committed bid has the same salt and canonical bid, or exhibits a collision. */
  lemma AcceptedRevealIsTheCommittedBid(c: Crypto, bid: Bid, salt: Bytes, revealed: Bid, revealedSalt: Salt)
    requires CanonicalFormsAreNulFree(c)
    requires c.jcs(BidJson(bid)).Some?
    requires Opens(c, BytesToHex(c.hash(Preimage(c.jcs(BidJson(bid)).value, salt))), revealed, revealedSalt)
    ensures
      var committedPreimage := Preimage(c.jcs(BidJson(bid)).value, salt);
      var revealedPreimage := Preimage(c.jcs(BidJson(revealed)).value, SaltBytes(revealedSalt).value);
      || (c.jcs(BidJson(revealed)) == c.jcs(BidJson(bid)) && SaltBytes(revealedSalt).value == salt)
      || (committedPreimage != revealedPreimage && c.hash(committedPreimage) == c.hash(revealedPreimage))
  {
    var committedPreimage := Preimage(c.jcs(BidJson(bid)).value, salt);
    var revealedPreimage := Preimage(c.jcs(BidJson(revealed)).value, SaltBytes(revealedSalt).value);
    HexDigitsHaveNoPrefix(BytesToHex(c.hash(committedPreimage)));
    HexRoundTrip(c.hash(committedPreimage));
    HexRoundTrip(c.hash(revealedPreimage));
    if committedPreimage == revealedPreimage {
      PreimageIsInjective(c.jcs(BidJson(bid)).value, salt, c.jcs(BidJson(revealed)).value,
        SaltBytes(revealedSalt).value);
    }
  }

  /** The committer's own bid and salt always open the commitment, in either salt spelling and with or without "0x". */
  lemma HonestRevealOpens(c: Crypto, bid: Bid, salt: Bytes, prefixed: bool)
    requires |salt| >= MIN_SALT_BYTES && c.jcs(BidJson(bid)).Some?
    ensures var h := BytesToHex(c.hash(Preimage(c.jcs(BidJson(bid)).value, salt)));
      var published := if prefixed then "0x" + h else h;
      Opens(c, published, bid, Raw(salt)) && Opens(c, published, bid, Text(BytesToHex(salt)))
  {
    var digest := c.hash(Preimage(c.jcs(BidJson(bid)).value, salt));
    var h := BytesToHex(digest);
    HexRoundTrip(salt);
    HexRoundTrip(digest);
    HexDigitsHaveNoPrefix(h);
    assert ("0x" + h)[2..] == h;
  }

  /**
   * A reveal is accepted exactly when salt and bid are readable, the salt has 16 bytes or more, and the committed text,
   * without a leading "0x" and in lower case, is the hex hash of canonical bid, NUL and salt.
   */
  lemma OpensExactlyWhen(c: Crypto, bidHash: string, bid: Bid, salt: Salt)
    ensures Opens(c, bidHash, bid, salt) <==>
      exists json, bytes ::
        && c.jcs(BidJson(bid)) == Some(json)
        && (match salt case Raw(raw) => bytes == raw case Text(hex) => HexToBytes(hex) == Some(bytes))
        && |bytes| >= 16
        && Lower(if |bidHash| >= 2 && bidHash[0] == '0' && bidHash[1] == 'x' then bidHash[2..] else bidHash)
           == BytesToHex(c.hash(json + ([0] + bytes)))
  {
    assert StripHexPrefix(bidHash) ==
      if |bidHash| >= 2 && bidHash[0] == '0' && bidHash[1] == 'x' then bidHash[2..] else bidHash;
    if c.jcs(BidJson(bid)).Some? && SaltBytes(salt).Some? {
      PreimageSpelled(c.jcs(BidJson(bid)).value, SaltBytes(salt).value);
    }
  }
}
