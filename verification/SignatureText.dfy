/** decodeEd25519Sig of src/lib/verify-bundle-v1.ts: canonical base64 or base64url text of a 64-byte signature. */
module SignatureText {
  import opened ByteStrings

  // ------------------------------------------------- base64 (RFC 4648, section 4)

  predicate IsStandardChar(c: char) {
    'A' <= c <= 'Z' || 'a' <= c <= 'z' || '0' <= c <= '9' || c == '+' || c == '/'
  }

  function Sextet(c: char): (v: int)
    requires IsStandardChar(c)
    ensures 0 <= v < 64
  {
    if 'A' <= c <= 'Z' then c as int - 'A' as int
    else if 'a' <= c <= 'z' then c as int - 'a' as int + 26
    else if '0' <= c <= '9' then c as int - '0' as int + 52
    else if c == '+' then 62
    else 63
  }

  function StandardChar(v: int): (c: char)
    requires 0 <= v < 64
    ensures IsStandardChar(c) && Sextet(c) == v
  {
    if v < 26 then (v + 'A' as int) as char
    else if v < 52 then (v - 26 + 'a' as int) as char
    else if v < 62 then (v - 52 + '0' as int) as char
    else if v == 62 then '+'
    else '/'
  }

  function EncodeTriple(x: Byte, y: Byte, z: Byte): (s: string)
    ensures |s| == 4 && forall i :: 0 <= i < 4 ==> IsStandardChar(s[i])
  {
    [StandardChar(x as int / 4), StandardChar(x as int % 4 * 16 + y as int / 16),
     StandardChar(y as int % 16 * 4 + z as int / 64), StandardChar(z as int % 64)]
  }

  /** The padded end of a text whose length is no multiple of three. */
  function EncodeEnd(b: Bytes): string
    requires |b| < 3
  {
    if |b| == 0 then ""
    else if |b| == 1 then [StandardChar(b[0] as int / 4), StandardChar(b[0] as int % 4 * 16)] + "=="
    else [StandardChar(b[0] as int / 4), StandardChar(b[0] as int % 4 * 16 + b[1] as int / 16),
          StandardChar(b[1] as int % 16 * 4)] + "="
  }

  /** Buffer.toString('base64') */
  function Encode(b: Bytes): string {
    if |b| < 3 then EncodeEnd(b) else EncodeTriple(b[0], b[1], b[2]) + Encode(b[3..])
  }

  function DecodeQuad(s: string): (b: Bytes)
    requires |s| >= 4 && forall i :: 0 <= i < 4 ==> IsStandardChar(s[i])
    ensures |b| == 3
  {
    [(Sextet(s[0]) * 4 + Sextet(s[1]) / 16) as Byte,
     (Sextet(s[1]) % 16 * 16 + Sextet(s[2]) / 4) as Byte,
     (Sextet(s[2]) % 4 * 64 + Sextet(s[3])) as Byte]
  }

  predicate QuadFirst(s: string) {
    |s| >= 4 && forall i :: 0 <= i < 4 ==> IsStandardChar(s[i])
  }

  /** Buffer.from(s, 'base64') on full quads and one padded pair; the pair's four spare bits are dropped. */
  function Decode(s: string): Bytes {
    if QuadFirst(s) then DecodeQuad(s) + Decode(s[4..])
    else if |s| == 4 && IsStandardChar(s[0]) && IsStandardChar(s[1]) && s[2..] == "==" then
      [(Sextet(s[0]) * 4 + Sextet(s[1]) / 16) as Byte]
    else []
  }

  lemma QuadUndoesTriple(x: Byte, y: Byte, z: Byte, rest: string)
    ensures QuadFirst(EncodeTriple(x, y, z) + rest)
    ensures DecodeQuad(EncodeTriple(x, y, z) + rest) == [x, y, z]
    ensures (EncodeTriple(x, y, z) + rest)[4..] == rest
  {
    var t := EncodeTriple(x, y, z);
    var a, b, c, d := Sextet(t[0]), Sextet(t[1]), Sextet(t[2]), Sextet(t[3]);
    assert a == x as int / 4 && b == x as int % 4 * 16 + y as int / 16;
    assert c == y as int % 16 * 4 + z as int / 64 && d == z as int % 64;
    assert b / 16 == x as int % 4 && b % 16 == y as int / 16;
    assert c / 4 == y as int % 16 && c % 4 == z as int / 64;
  }

  lemma DecodeTriple(x: Byte, y: Byte, z: Byte, rest: string)
    ensures Decode(EncodeTriple(x, y, z) + rest) == [x, y, z] + Decode(rest)
  {
    QuadUndoesTriple(x, y, z, rest);
  }

  predicate AllStandard(s: string) {
    forall i :: 0 <= i < |s| ==> IsStandardChar(s[i])
  }

  predicate EndsPadded(s: string) {
    |s| >= 2 && AllStandard(s[..|s| - 2]) && s[|s| - 2..] == "=="
  }

  lemma PrependStandard(t: string, rest: string)
    requires AllStandard(t) && EndsPadded(rest)
    ensures EndsPadded(t + rest)
  {
    var s := t + rest;
    assert s[..|s| - 2] == t + rest[..|rest| - 2];
    assert s[|s| - 2..] == rest[|rest| - 2..];
  }

  /** For lengths such as 64, one more than a multiple of three: standard characters, then "==". */
  lemma {:induction false} EncodeShape(b: Bytes, triples: nat)
    requires |b| == 3 * triples + 1
    ensures EndsPadded(Encode(b)) && |Encode(b)| == 4 * triples + 4
  {
    if triples > 0 {
      EncodeShape(b[3..], triples - 1);
      PrependStandard(EncodeTriple(b[0], b[1], b[2]), Encode(b[3..]));
    }
  }

  lemma PaddedPairDecodes(x: Byte)
    ensures Decode(EncodeEnd([x])) == [x]
  {
    var s := EncodeEnd([x]);
    assert s[2..] == "==" && s[2] == '=' && !IsStandardChar(s[2]);
    var hi, lo := x as int / 4, x as int % 4 * 16;
    assert Sextet(s[0]) == hi && Sextet(s[1]) == lo && lo / 16 == x as int % 4;
  }

  lemma {:induction false} DecodeUndoesEncode(b: Bytes, triples: nat)
    requires |b| == 3 * triples + 1
    ensures Decode(Encode(b)) == b
  {
    if triples == 0 {
      assert b == [b[0]];
      PaddedPairDecodes(b[0]);
    } else {
      DecodeUndoesEncode(b[3..], triples - 1);
      DecodeTriple(b[0], b[1], b[2], Encode(b[3..]));
      assert b == [b[0], b[1], b[2]] + b[3..];
    }
  }

  // ------------------------------------------- base64url (RFC 4648, section 5)

  predicate IsUrlChar(c: char) {
    'A' <= c <= 'Z' || 'a' <= c <= 'z' || '0' <= c <= '9' || c == '-' || c == '_'
  }

  function ToUrlChar(c: char): char {
    if c == '+' then '-' else if c == '/' then '_' else c
  }

  function ToStandardChar(c: char): char {
    if c == '-' then '+' else if c == '_' then '/' else c
  }

  function ToUrl(s: string): (r: string)
    ensures |r| == |s|
  {
    seq(|s|, i requires 0 <= i < |s| => ToUrlChar(s[i]))
  }

  function ToStandard(s: string): (r: string)
    ensures |r| == |s|
  {
    seq(|s|, i requires 0 <= i < |s| => ToStandardChar(s[i]))
  }

  function StripPadding(s: string): string {
    if |s| > 0 && s[|s| - 1] == '=' then StripPadding(s[..|s| - 1]) else s
  }

  /** The canonical URL-safe spelling: other alphabet, no padding. */
  function EncodeUrl(b: Bytes): string {
    StripPadding(ToUrl(Encode(b)))
  }

  // --------------------------------------------------------------- the decoder

  /** /^[A-Za-z0-9+\/]{86}==$/ */
  predicate StandardForm(v: string) {
    |v| == 88 && AllStandard(v[..86]) && v[86..] == "=="
  }

  /** /^[A-Za-z0-9_-]{86}$/ */
  predicate UrlForm(v: string) {
    |v| == 86 && forall i :: 0 <= i < |v| ==> IsUrlChar(v[i])
  }

  function Padded(b64: string): string {
    if |b64| >= 2 && b64[|b64| - 2..] == "==" then b64 else b64 + "=="
  }

  function DecodeEd25519Sig(v: string): Option<Bytes> {
    if !StandardForm(v) && !UrlForm(v) then None
    else
      var out := Decode(Padded(ToStandard(v)));
      if |out| != 64 then None
      else if v == Encode(out) || v == EncodeUrl(out) then Some(out)
      else None
  }

  lemma UrlFormOf(b: Bytes)
    requires |b| == 64
    ensures |Encode(b)| == 88
    ensures EncodeUrl(b) == ToUrl(Encode(b)[..86]) && UrlForm(EncodeUrl(b))
    ensures ToStandard(EncodeUrl(b)) == Encode(b)[..86]
  {
    EncodeShape(b, 21);
    var e := Encode(b);
    var u := ToUrl(e);
    assert e[86..][0] == '=' && e[86..][1] == '=';
    assert u[87] == '=' && u[..87][86] == '=';
    assert u[..87][..86] == u[..86] == ToUrl(e[..86]);
    assert IsStandardChar(e[..86][85]) && u[..86][85] == ToUrlChar(e[85]) != '=';
    assert StripPadding(u) == StripPadding(u[..87]) == StripPadding(u[..86]) == u[..86];
    forall i | 0 <= i < 86 ensures IsUrlChar(u[..86][i]) && ToStandardChar(u[..86][i]) == e[..86][i] {
      assert IsStandardChar(e[..86][i]);
    }
  }

  /** The standard alphabet and padding stay as they are. */
  lemma StandardTextIsItself(e: string)
    requires EndsPadded(e)
    ensures ToStandard(e) == e && Padded(e) == e
  {
    forall i | 0 <= i < |e| ensures ToStandardChar(e[i]) == e[i] {
      if i < |e| - 2 { assert IsStandardChar(e[..|e| - 2][i]); } else { assert e[i] == e[|e| - 2..][i - (|e| - 2)]; }
    }
  }

  lemma StandardSpellingDecodes(b: Bytes)
    requires |b| == 64
    ensures DecodeEd25519Sig(Encode(b)) == Some(b)
  {
    EncodeShape(b, 21);
    StandardTextIsItself(Encode(b));
    DecodeUndoesEncode(b, 21);
    SpellingDecodes(Encode(b), b, Encode(b));
  }

  lemma SpellingDecodes(v: string, b: Bytes, encoded: string)
    requires |b| == 64 && encoded == Encode(b) && v == encoded
    requires EndsPadded(v) && |v| == 88 && Decode(Padded(ToStandard(v))) == b
    ensures DecodeEd25519Sig(v) == Some(b)
  {
  }

  /** An unpadded text of the standard alphabet gets its padding back. */
  lemma UnpaddedGetsPadding(e: string)
    requires EndsPadded(e) && |e| >= 3
    ensures Padded(e[..|e| - 2]) == e
  {
    var t := e[..|e| - 2];
    assert IsStandardChar(t[|t| - 1]);
    assert |t| >= 2 ==> t[|t| - 2..][1] == t[|t| - 1] != '=';
  }

  lemma UrlSpellingDecodes(b: Bytes)
    requires |b| == 64
    ensures DecodeEd25519Sig(EncodeUrl(b)) == Some(b)
  {
    EncodeShape(b, 21);
    UrlFormOf(b);
    UnpaddedGetsPadding(Encode(b));
    DecodeUndoesEncode(b, 21);
  }

  /** Each 64-byte signature has exactly two accepted spellings, its canonical base64 and base64url. */
  lemma ExactlyTwoSpellings(v: string, b: Bytes)
    ensures DecodeEd25519Sig(v) == Some(b) <==> |b| == 64 && (v == Encode(b) || v == EncodeUrl(b))
    ensures |b| == 64 ==> Encode(b) != EncodeUrl(b)
  {
    if |b| == 64 {
      StandardSpellingDecodes(b);
      UrlSpellingDecodes(b);
      EncodeShape(b, 21);
      UrlFormOf(b);
    }
  }

  // ------------------------------------------------------------- the encoding, spelled out

  /** The alphabet of base64 in order, and the two characters the URL-safe one replaces. */
  lemma AlphabetSpelled(v: nat)
    requires v < 64
    ensures StandardChar(v) ==
      if v < 26 then "ABCDEFGHIJKLMNOPQRSTUVWXYZ"[v]
      else if v < 52 then "abcdefghijklmnopqrstuvwxyz"[v - 26]
      else "0123456789+/"[v - 52]
    ensures ToUrlChar('+') == '-' && ToUrlChar('/') == '_'
  {
  }

  /** Three bytes are one number of four digits to the base 64, most significant first. */
  lemma TripleSpelled(x: Byte, y: Byte, z: Byte, rest: Bytes)
    ensures Encode([x, y, z] + rest) == EncodeTriple(x, y, z) + Encode(rest)
    ensures
      var s := EncodeTriple(x, y, z);
      Sextet(s[0]) * 262144 + Sextet(s[1]) * 4096 + Sextet(s[2]) * 64 + Sextet(s[3])
        == x as int * 65536 + y as int * 256 + z as int
  {
    var b := [x, y, z] + rest;
    assert b[0] == x && b[1] == y && b[2] == z && b[3..] == rest;
    assert x as int == 4 * (x as int / 4) + x as int % 4;
    assert y as int == 16 * (y as int / 16) + y as int % 16;
    assert z as int == 64 * (z as int / 64) + z as int % 64;
  }

  /** A last single byte is twelve bits, the four spare ones zero, and two padding characters; nothing is empty. */
  lemma EndSpelled(x: Byte)
    ensures Encode([]) == ""
    ensures Encode([x]) == [StandardChar(x as int * 16 / 64), StandardChar(x as int * 16 % 64)] + "=="
  {
    assert x as int * 16 / 64 == x as int / 4 && x as int * 16 % 64 == x as int % 4 * 16;
  }

  /** The URL-safe spelling of a signature: 86 characters of the standard one, '-' for '+' and '_' for '/'. */
  lemma UrlSpelled(b: Bytes, i: nat)
    requires |b| == 64 && i < 86
    ensures |EncodeUrl(b)| == 86 && |Encode(b)| == 88 && Encode(b)[86..] == "=="
    ensures EncodeUrl(b)[i] ==
      if Encode(b)[i] == '+' then '-' else if Encode(b)[i] == '/' then '_' else Encode(b)[i]
  {
    EncodeShape(b, 21);
    UrlFormOf(b);
    UrlIsThePaddedPart(b);
  }

  lemma UrlIsThePaddedPart(b: Bytes)
    requires |b| == 64 && |Encode(b)| == 88 && EndsPadded(Encode(b))
    ensures EncodeUrl(b) == ToUrl(Encode(b))[..86]
  {
    var u := ToUrl(Encode(b));
    assert Encode(b)[86..][0] == '=' && Encode(b)[86..][1] == '=';
    assert Encode(b)[86] == '=' && Encode(b)[87] == '=';
    assert u[86] == '=' && u[87] == '=';
    assert Encode(b)[..86][85] == Encode(b)[85];
    assert u[85] != '=';
    assert u[..87][..86] == u[..86];
    assert StripPadding(u) == StripPadding(u[..87]) == StripPadding(u[..86]) == u[..86];
  }
}
