/**
 * What the repository takes from outside: SHA-256, Ed25519 behind the domain-separating wrapper of
 * src/lib/sign.ts, UTF-8 and the JCS canonicaliser of src/jcs.ts.  All are arbitrary functions here; the
 * laws a result needs are named as predicates and required where they are used.
 */
module Primitives {
  import opened ByteStrings

  datatype Json =
    | Null
    | Bool(b: bool)
    | Num(n: int)
    | Str(s: string)
    | Arr(items: seq<Json>)
    | Obj(fields: map<string, Json>)

  datatype Crypto = Crypto(
    hash: Bytes -> Digest,
    sign: (string, Bytes, Bytes) -> Bytes,          // separator, body, private key
    verify: (string, Bytes, Bytes, Bytes) -> bool,  // separator, signature, body, public key
    publicKey: Bytes -> Bytes,
    utf8: string -> Bytes,
    jcs: Json -> Option<Bytes>                      // None: not canonicalisable, the source throws
  )

  /** Ed25519 shape and correctness: 64-byte signatures made with a key verify under its 32-byte public key. */
  ghost predicate SignaturesWork(c: Crypto) {
    && (forall separator, body, key :: |c.sign(separator, body, key)| == 64)
    && (forall key :: |c.publicKey(key)| == 32)
    && (forall separator, body, key ::
          c.verify(separator, c.sign(separator, body, key), body, c.publicKey(key)))
  }

  ghost predicate Utf8IsInjective(c: Crypto) {
    forall s, t :: c.utf8(s) == c.utf8(t) ==> s == t
  }

  /** A DACS claim reference in its object form. */
  datatype ClaimRef = ClaimRef(scheme: string, identifier: string, params: Option<map<string, string>>)

  function ClaimJson(claim: ClaimRef): Json {
    var base := map["scheme" := Str(claim.scheme), "identifier" := Str(claim.identifier)];
    match claim.params
    case None => Obj(base)
    case Some(params) => Obj(base["params" := Obj(map k | k in params :: Str(params[k]))])
  }

  /** A claim is written with its scheme, its identifier and, when it has them, its parameters, and nothing else. */
  lemma ClaimJsonSays(claim: ClaimRef)
    ensures ClaimJson(claim).Obj?
    ensures var fields := ClaimJson(claim).fields;
      && fields.Keys == {"scheme", "identifier"} + (if claim.params.Some? then {"params"} else {})
      && fields["scheme"] == Str(claim.scheme) && fields["identifier"] == Str(claim.identifier)
      && (claim.params.Some? ==>
            && fields["params"].Obj? && fields["params"].fields.Keys == claim.params.value.Keys
            && forall name :: name in claim.params.value ==>
                 fields["params"].fields[name] == Str(claim.params.value[name]))
  {
    assert "scheme"[0] != "identifier"[0] && "params"[0] != "scheme"[0] && "params"[0] != "identifier"[0];
  }
}
