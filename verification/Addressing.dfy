/** Listing addresses of src/dacs1/addressing.ts and program names of src/lib/locator-form.ts. `None`: throws. */
module Addressing {
  import opened ByteStrings
  import opened TextSearch
  import DecimalText

  // ------------------------------------------------------ percent-encoded segments

  predicate Reserved(c: char) {
    c == ':' || c == '?' || c == '&' || c == '=' || c == '%'
  }

  function UpperHexChar(v: int): (c: char)
    requires 0 <= v < 16
    ensures IsHexDigit(c) && HexValue(c) == v
  {
    if v < 10 then ('0' as int + v) as char else ('A' as int + v - 10) as char
  }

  /** '%' and the code in two upper-case hex digits. */
  function Escape(c: char): (e: string)
    requires c < '\U{100}'
    ensures |e| == 3 && e[0] == '%' && IsHexDigit(e[1]) && IsHexDigit(e[2])
    ensures 16 * HexValue(e[1]) + HexValue(e[2]) == c as int
  {
    ['%', UpperHexChar(c as int / 16), UpperHexChar(c as int % 16)]
  }

  function Cf4Encode(segment: string): string {
    if |segment| == 0 then ""
    else (if Reserved(segment[0]) then Escape(segment[0]) else [segment[0]]) + Cf4Encode(segment[1..])
  }

  /** No '%' that is not followed by two hex digits. */
  predicate WellEscaped(s: string) {
    forall i :: 0 <= i < |s| && s[i] == '%' ==> i + 2 < |s| && IsHexDigit(s[i + 1]) && IsHexDigit(s[i + 2])
  }

  predicate EscapeFirst(s: string) {
    |s| >= 3 && s[0] == '%' && IsHexDigit(s[1]) && IsHexDigit(s[2])
  }

  function Unescape(s: string): string {
    if |s| == 0 then ""
    else if EscapeFirst(s) then [(16 * HexValue(s[1]) + HexValue(s[2])) as char] + Unescape(s[3..])
    else [s[0]] + Unescape(s[1..])
  }

  function Cf4Decode(segment: string): Option<string> {
    if WellEscaped(segment) then Some(Unescape(segment)) else None
  }

  lemma WellEscapedEscape(c: char, rest: string)
    requires c < '\U{100}' && WellEscaped(rest)
    ensures WellEscaped(Escape(c) + rest)
    ensures Unescape(Escape(c) + rest) == [c] + Unescape(rest)
  {
    var s := Escape(c) + rest;
    assert s[3..] == rest;
    forall i | 0 <= i < |s| && s[i] == '%' ensures i + 2 < |s| && IsHexDigit(s[i + 1]) && IsHexDigit(s[i + 2]) {
      if i >= 3 {
        assert s[i] == rest[i - 3];
        assert s[i + 1] == rest[i - 2] && s[i + 2] == rest[i - 1];
      }
    }
  }

  lemma WellEscapedPlain(c: char, rest: string)
    requires c != '%' && WellEscaped(rest)
    ensures WellEscaped([c] + rest) && Unescape([c] + rest) == [c] + Unescape(rest)
  {
    var s := [c] + rest;
    assert s[1..] == rest;
    forall i | 0 <= i < |s| && s[i] == '%' ensures i + 2 < |s| && IsHexDigit(s[i + 1]) && IsHexDigit(s[i + 2]) {
      assert s[i] == rest[i - 1];
      assert s[i + 1] == rest[i] && s[i + 2] == rest[i + 1];
    }
  }

  /** Decoding undoes encoding, for every string. */
  lemma {:induction false} DecodeUndoesEncode(segment: string)
    ensures Cf4Decode(Cf4Encode(segment)) == Some(segment)
    decreases |segment|
  {
    if |segment| > 0 {
      var c, rest := segment[0], segment[1..];
      DecodeUndoesEncode(rest);
      if Reserved(c) {
        WellEscapedEscape(c, Cf4Encode(rest));
      } else {
        WellEscapedPlain(c, Cf4Encode(rest));
      }
      assert segment == [c] + rest;
    }
  }

  /** An encoded segment holds no colon, and is empty only for the empty segment. */
  lemma {:induction false} EncodedHasNoColon(segment: string)
    ensures ':' !in Cf4Encode(segment) && |Cf4Encode(segment)| >= |segment|
    decreases |segment|
  {
    if |segment| > 0 {
      EncodedHasNoColon(segment[1..]);
    }
  }

  // ---------------------------------------------------------------- claim and parts

  const REGISTERED_CLAIM_SCHEMES := {
    "cci-xm", "cci-web2", "cci-pqc", "cci-ud", "cci-nomis", "cci-humanpassport", "cci-ethos", "cci-tlsn",
    "stor-cred", "did", "erc8004", "domain", "key", "substrate-validator-set", "lei", "finra-crd", "sam-uei",
    "fedramp", "naics", "cmmc"
  }

  const MAX_SAFE_INTEGER := 0x1F_FFFF_FFFF_FFFF

  predicate IsLowerHexKey(s: string) {
    |s| == 64 && forall i :: 0 <= i < |s| ==> '0' <= s[i] <= '9' || 'a' <= s[i] <= 'f'
  }

  /** assertRegisteredClaimReference */
  predicate RegisteredClaim(claim: string) {
    var colon := IndexOf(claim, ':');
    && 0 < colon < |claim|
    && claim[..colon] in REGISTERED_CLAIM_SCHEMES
    && (claim[..colon] == "key" ==>
         var rest := claim[colon + 1..];
         IsLowerHexKey(rest[..IndexOf(rest, '?')]))
  }

  predicate ListingIdChar(c: char) {
    'A' <= c <= 'Z' || 'a' <= c <= 'z' || '0' <= c <= '9' || c == '.' || c == '_' || c == '~' || c == '-'
  }

  predicate IsListingId(s: string) {
    0 < |s| <= 128 && forall i :: 0 <= i < |s| ==> ListingIdChar(s[i])
  }

  datatype Listing = Listing(sellerPrimaryClaim: string, listingId: string, listingVersion: int)

  predicate Addressable(l: Listing) {
    RegisteredClaim(l.sellerPrimaryClaim) && IsListingId(l.listingId) && 1 <= l.listingVersion <= MAX_SAFE_INTEGER
  }

  /** The three variable parts, colon-separated after the namespace. */
  function Assemble(encoded: string, id: string, digits: string): string {
    "dacs1:" + (encoded + (":" + (id + (":v" + digits))))
  }

  function ListingLogicalAddress(l: Listing): Option<string> {
    if !Addressable(l) then None
    else Some(Assemble(Cf4Encode(l.sellerPrimaryClaim), l.listingId, DecimalText.NatText(l.listingVersion)))
  }

  /** v([1-9][0-9]*) */
  function MatchVersion(s: string): Option<string> {
    if |s| >= 2 && s[0] == 'v' && DecimalText.IsDigits(s[1..]) && s[1] != '0' then Some(s[1..]) else None
  }

  /** Two colon-free parts and a version, after the namespace. */
  function MatchParts(s: string): Option<(string, string, string)> {
    match SplitFirst(s, ':')
    case None => None
    case Some((encoded, rest)) =>
      match SplitFirst(rest, ':')
      case None => None
      case Some((id, last)) =>
        if encoded == "" || id == "" || MatchVersion(last).None? then None
        else Some((encoded, id, MatchVersion(last).value))
  }

  /** /^dacs1:([^:]+):([^:]+):v([1-9][0-9]*)$/ : three colon-free parts. */
  function MatchAddress(s: string): Option<(string, string, string)> {
    if |s| < 6 || s[..6] != "dacs1:" then None else MatchParts(s[6..])
  }

  function ParseListingLogicalAddress(s: string): Option<Listing> {
    match MatchAddress(s)
    case None => None
    case Some((encoded, id, digits)) =>
      match Cf4Decode(encoded)
      case None => None
      case Some(claim) =>
        var listing := Listing(claim, id, if DecimalText.IsDigits(digits) then DecimalText.Value(digits) else 0);
        if ListingLogicalAddress(listing) == Some(s) then Some(listing) else None
  }

  lemma VersionMatches(digits: string)
    requires |digits| > 0 && DecimalText.IsDigits(digits) && digits[0] != '0'
    ensures MatchVersion("v" + digits) == Some(digits)
  {
    assert ("v" + digits)[1..] == digits;
  }

  lemma PartsMatch(encoded: string, id: string, digits: string)
    requires |encoded| > 0 && ':' !in encoded && |id| > 0 && ':' !in id
    requires |digits| > 0 && DecimalText.IsDigits(digits) && digits[0] != '0'
    ensures MatchParts(encoded + ([':'] + (id + ([':'] + ("v" + digits))))) == Some((encoded, id, digits))
  {
    SplitFirstOf(encoded, ':', id + ([':'] + ("v" + digits)));
    SplitFirstOf(id, ':', "v" + digits);
    VersionMatches(digits);
  }

  lemma AssembleInParts(encoded: string, id: string, digits: string)
    ensures var s := Assemble(encoded, id, digits);
      |s| >= 6 && s[..6] == "dacs1:" && s[6..] == encoded + ([':'] + (id + ([':'] + ("v" + digits))))
  {
    assert ":v" + digits == [':'] + ("v" + digits);
  }

  lemma MatchUndoesAssemble(encoded: string, id: string, digits: string)
    requires |encoded| > 0 && ':' !in encoded && |id| > 0 && ':' !in id
    requires |digits| > 0 && DecimalText.IsDigits(digits) && digits[0] != '0'
    ensures MatchAddress(Assemble(encoded, id, digits)) == Some((encoded, id, digits))
  {
    AssembleInParts(encoded, id, digits);
    PartsMatch(encoded, id, digits);
  }

  /** The parser accepts exactly what the printer returns, and returns its tuple. */
  lemma ParserInvertsPrinter(s: string, l: Listing)
    ensures ParseListingLogicalAddress(s) == Some(l) <==> ListingLogicalAddress(l) == Some(s)
  {
    if ListingLogicalAddress(l) == Some(s) {
      var encoded, digits := Cf4Encode(l.sellerPrimaryClaim), DecimalText.NatText(l.listingVersion);
      EncodedHasNoColon(l.sellerPrimaryClaim);
      ListingIdHasNo(l.listingId, ':');
      MatchUndoesAssemble(encoded, l.listingId, digits);
      DecodeUndoesEncode(l.sellerPrimaryClaim);
      DecimalText.NatTextDenotes(l.listingVersion);
    }
  }

  lemma ListingIdHasNo(id: string, c: char)
    requires IsListingId(id) && !ListingIdChar(c)
    ensures c !in id
  {
  }

  // ------------------------------------------------------------------ program names

  function NameOfChar(c: char): string {
    if c == ':' then "%3A" else [c]
  }

  /** Every ':' becomes "%3A". */
  function SdkProgramName(address: string): string {
    if |address| == 0 then "" else NameOfChar(address[0]) + SdkProgramName(address[1..])
  }

  lemma Associate(a: string, b: string, c: string)
    ensures a + (b + c) == (a + b) + c
  {
  }

  lemma {:induction false} NameOfConcat(a: string, b: string)
    ensures SdkProgramName(a + b) == SdkProgramName(a) + SdkProgramName(b)
    decreases |a|
  {
    if |a| == 0 {
      assert a + b == b;
    } else {
      NameOfConcat(a[1..], b);
      assert (a + b)[1..] == a[1..] + b;
      Associate(NameOfChar(a[0]), SdkProgramName(a[1..]), SdkProgramName(b));
    }
  }

  lemma {:induction false} NameWithoutColons(s: string)
    requires ':' !in s
    ensures SdkProgramName(s) == s
    decreases |s|
  {
    if |s| > 0 {
      NameWithoutColons(s[1..]);
    }
  }

  lemma NameAfterColon(s: string)
    ensures SdkProgramName(":" + s) == "%3A" + SdkProgramName(s)
  {
    assert (":" + s)[1..] == s;
  }

  lemma NameOfPart(part: string, rest: string)
    requires ':' !in part
    ensures SdkProgramName(part + (":" + rest)) == part + ("%3A" + SdkProgramName(rest))
  {
    NameOfConcat(part, ":" + rest);
    NameWithoutColons(part);
    NameAfterColon(rest);
  }

  lemma RegroupName(encoded: string, id: string, last: string)
    ensures "dacs1" + ("%3A" + (encoded + ("%3A" + (id + ("%3A" + last)))))
         == (("dacs1%3A" + encoded) + "%3A" + id) + "%3A" + last
  {
  }

  lemma RegroupAddress(encoded: string, id: string, digits: string)
    ensures Assemble(encoded, id, digits) == "dacs1" + (":" + (encoded + (":" + (id + (":" + ("v" + digits))))))
  {
    assert ":v" + digits == ":" + ("v" + digits);
    assert "dacs1:" == "dacs1" + ":";
  }

  lemma NameOfAssembled(encoded: string, id: string, digits: string)
    requires ':' !in encoded && ':' !in id && DecimalText.IsDigits(digits)
    ensures SdkProgramName(Assemble(encoded, id, digits)) ==
        (("dacs1%3A" + encoded) + "%3A" + id) + "%3A" + ("v" + digits)
  {
    var last := "v" + digits;
    var tail := id + (":" + last);
    RegroupAddress(encoded, id, digits);
    NameWithoutColons(last);
    NameOfPart(id, last);
    NameOfPart(encoded, tail);
    NameOfPart("dacs1", encoded + (":" + tail));
    RegroupName(encoded, id, last);
  }

  /** The last '%' of a string is determined. */
  lemma SplitAtLastPercent(a1: string, b1: string, a2: string, b2: string)
    requires '%' !in b1 && '%' !in b2
    requires a1 + "%3A" + b1 == a2 + "%3A" + b2
    ensures a1 == a2 && b1 == b2
  {
    var s1, s2 := a1 + "%3A" + b1, a2 + "%3A" + b2;
    assert s1[|a1|] == '%' && s2[|a2|] == '%';
    assert forall i :: |a1| < i < |s1| ==> s1[i] != '%';
    assert forall i :: |a2| < i < |s2| ==> s2[i] != '%';
    assert |a1| == |a2|;
    assert a1 == s1[..|a1|] && a2 == s2[..|a1|];
    assert b1 == s1[|a1| + 3..] && b2 == s2[|a1| + 3..];
  }

  /** Program names tell listing addresses apart although encoded claims contain "%3A" too. */
  lemma NameIsInjectiveOnListings(l1: Listing, l2: Listing)
    requires Addressable(l1) && Addressable(l2)
    requires SdkProgramName(ListingLogicalAddress(l1).value) == SdkProgramName(ListingLogicalAddress(l2).value)
    ensures l1 == l2
  {
    var e1, d1 := Cf4Encode(l1.sellerPrimaryClaim), DecimalText.NatText(l1.listingVersion);
    var e2, d2 := Cf4Encode(l2.sellerPrimaryClaim), DecimalText.NatText(l2.listingVersion);
    EncodedHasNoColon(l1.sellerPrimaryClaim);
    EncodedHasNoColon(l2.sellerPrimaryClaim);
    ListingIdHasNo(l1.listingId, ':');
    ListingIdHasNo(l2.listingId, ':');
    ListingIdHasNo(l1.listingId, '%');
    ListingIdHasNo(l2.listingId, '%');
    NameOfAssembled(e1, l1.listingId, d1);
    NameOfAssembled(e2, l2.listingId, d2);
    SplitAtLastPercent(("dacs1%3A" + e1) + "%3A" + l1.listingId, "v" + d1, ("dacs1%3A" + e2) + "%3A" + l2.listingId,
      "v" + d2);
    SplitAtLastPercent("dacs1%3A" + e1, l1.listingId, "dacs1%3A" + e2, l2.listingId);
    assert e1 == ("dacs1%3A" + e1)[8..] && e2 == ("dacs1%3A" + e2)[8..];
    assert d1 == ("v" + d1)[1..] && d2 == ("v" + d2)[1..];
    DecodeUndoesEncode(l1.sellerPrimaryClaim);
    DecodeUndoesEncode(l2.sellerPrimaryClaim);
    DecimalText.NatTextDenotes(l1.listingVersion);
    DecimalText.NatTextDenotes(l2.listingVersion);
  }

  predicate StartsEscaped(s: string) {
    |s| >= 3 && s[0] == '%' && s[1] == '3' && s[2] == 'A'
  }

  /** Every "%3A" read as a colon. */
  function ColonsRead(s: string): string {
    if |s| == 0 then ""
    else if StartsEscaped(s) then ":" + ColonsRead(s[3..])
    else [s[0]] + ColonsRead(s[1..])
  }

  lemma NameOfEscaped(s: string)
    requires StartsEscaped(s)
    ensures SdkProgramName(s) == "%3A" + SdkProgramName(s[3..])
  {
    assert s[1..][1..] == s[2..] && s[2..][1..] == s[3..];
    assert SdkProgramName(s) == ['%'] + SdkProgramName(s[1..]);
    assert SdkProgramName(s[1..]) == ['3'] + SdkProgramName(s[2..]);
    assert SdkProgramName(s[2..]) == ['A'] + SdkProgramName(s[3..]);
  }

  lemma {:induction false} NameForgetsReading(s: string)
    ensures SdkProgramName(ColonsRead(s)) == SdkProgramName(s)
    decreases |s|
  {
    if StartsEscaped(s) {
      NameForgetsReading(s[3..]);
      NameOfEscaped(s);
      NameAfterColon(ColonsRead(s[3..]));
    } else if |s| > 0 {
      NameForgetsReading(s[1..]);
      assert ColonsRead(s)[1..] == ColonsRead(s[1..]);
    }
  }

  /** A name begins like its text, as far as an escape goes. */
  lemma NameStartsEscaped(s: string)
    requires |s| > 0 && s[0] != ':' && StartsEscaped(SdkProgramName(s))
    ensures StartsEscaped(s)
  {
    var name := SdkProgramName(s);
    assert name == [s[0]] + SdkProgramName(s[1..]);
    assert |s| > 1 && SdkProgramName(s[1..])[0] == '3';
    assert s[1..][0] == '3';
    assert name == [s[0]] + ([s[1]] + SdkProgramName(s[1..][1..]));
    assert |s| > 2 && SdkProgramName(s[2..])[0] == 'A';
  }

  lemma {:induction false} ReadingForgetsName(s: string)
    ensures ColonsRead(SdkProgramName(s)) == ColonsRead(s)
    decreases |s|
  {
    if StartsEscaped(s) {
      ReadingForgetsName(s[3..]);
      NameOfEscaped(s);
      assert SdkProgramName(s)[3..] == SdkProgramName(s[3..]);
    } else if |s| > 0 {
      ReadingForgetsName(s[1..]);
      var name := SdkProgramName(s);
      if s[0] == ':' {
        assert name == "%3A" + SdkProgramName(s[1..]);
        assert name[3..] == SdkProgramName(s[1..]);
      } else {
        assert name == [s[0]] + SdkProgramName(s[1..]);
        assert name[1..] == SdkProgramName(s[1..]);
        if StartsEscaped(name) {
          NameStartsEscaped(s);
        }
      }
    }
  }

  /** On arbitrary strings the name confuses exactly the strings that read alike with every "%3A" as a colon. */
  lemma NamesCoincideExactlyWhen(a: string, b: string)
    ensures SdkProgramName(a) == SdkProgramName(b) <==> ColonsRead(a) == ColonsRead(b)
  {
    NameForgetsReading(a);
    NameForgetsReading(b);
    ReadingForgetsName(a);
    ReadingForgetsName(b);
  }

  /** Naming a name changes nothing. */
  lemma NameIsIdempotent(s: string)
    ensures SdkProgramName(SdkProgramName(s)) == SdkProgramName(s)
  {
    ReadingForgetsName(s);
    NamesCoincideExactlyWhen(SdkProgramName(s), s);
  }

  /** So it is not injective on arbitrary strings: a colon and its spelled-out escape get one name. */
  lemma NameConfusesEscapedColon(a: string, b: string)
    ensures SdkProgramName(a + ":" + b) == SdkProgramName(a + "%3A" + b)
    ensures a + ":" + b != a + "%3A" + b
  {
    assert a + ":" + b == a + (":" + b) && a + "%3A" + b == a + ("%3A" + b);
    NameOfConcat(a, ":" + b);
    NameAfterColon(b);
    NameOfConcat(a, "%3A" + b);
    NameOfConcat("%3A", b);
    NameWithoutColons("%3A");
    assert (a + ":" + b)[|a|] == ':' && (a + "%3A" + b)[|a|] == '%';
  }

  // ------------------------------------------------------------- the formats, spelled out

  /** Encoding goes character by character, and spells out exactly these five. */
  lemma {:induction false} EncodingSpelled(a: string, b: string)
    ensures Cf4Encode(a + b) == Cf4Encode(a) + Cf4Encode(b)
    decreases |a|
  {
    if |a| == 0 {
      assert a + b == b;
    } else {
      EncodingSpelled(a[1..], b);
      assert (a + b)[1..] == a[1..] + b;
      Associate(Cf4Encode([a[0]]), Cf4Encode(a[1..]), Cf4Encode(b));
      OneCharacterEncoded(a[0], a[1..]);
      OneCharacterEncoded(a[0], a[1..] + b);
    }
  }

  lemma OneCharacterEncoded(c: char, rest: string)
    ensures Cf4Encode([c] + rest) == Cf4Encode([c]) + Cf4Encode(rest)
  {
    assert ([c] + rest)[1..] == rest && [c][1..] == "";
    var first := if Reserved(c) then Escape(c) else [c];
    assert Cf4Encode("") == "" && first + "" == first;
  }

  lemma CharactersSpelled(c: char)
    ensures Cf4Encode([c]) ==
      if c == '%' then "%25" else if c == '&' then "%26" else if c == ':' then "%3A"
      else if c == '=' then "%3D" else if c == '?' then "%3F" else [c]
  {
    assert [c][1..] == "" && Cf4Encode("") == "";
    var first := if Reserved(c) then Escape(c) else [c];
    assert first + "" == first;
    assert Reserved(c) ==> Escape(c) == ['%', UpperHexChar(c as int / 16), UpperHexChar(c as int % 16)];
  }

  /** Decoding reads "%" and two hex digits as the character of that code, and refuses any other "%". */
  lemma DecodingSpelled(s: string)
    ensures Cf4Decode(s).None? <==>
      exists i :: 0 <= i < |s| && s[i] == '%' && !(i + 2 < |s| && IsHexDigit(s[i + 1]) && IsHexDigit(s[i + 2]))
    ensures Cf4Decode(s).Some? && |s| >= 3 && s[0] == '%' ==>
      && |Cf4Decode(s).value| > 0 && Cf4Decode(s).value[0] as int == 16 * HexValue(s[1]) + HexValue(s[2])
      && Cf4Decode(s[3..]) == Some(Cf4Decode(s).value[1..])
    ensures Cf4Decode(s).Some? && |s| > 0 && s[0] != '%' ==>
      && |Cf4Decode(s).value| > 0 && Cf4Decode(s).value[0] == s[0] && Cf4Decode(s[1..]) == Some(Cf4Decode(s).value[1..])
  {
    if WellEscaped(s) && |s| > 0 {
      if s[0] == '%' {
        assert WellEscaped(s[3..]);
      } else {
        assert WellEscaped(s[1..]);
      }
    }
  }

  /** Letters, digits, '.', '_', '~' and '-', at least one and at most 128 of them. */
  lemma ListingIdSpelled(id: string)
    ensures IsListingId(id) <==>
      && id != "" && |id| <= 128
      && forall i :: 0 <= i < |id| ==>
          || 48 <= id[i] as int <= 57 || 65 <= id[i] as int <= 90 || 97 <= id[i] as int <= 122
          || id[i] == '.' || id[i] == '_' || id[i] == '~' || id[i] == '-'
  {
  }

  /** A claim of a registered scheme; one of scheme "key" names 64 lower-case hex digits, perhaps with parameters. */
  lemma ClaimSpelled(scheme: string, rest: string)
    requires ':' !in scheme
    ensures RegisteredClaim(scheme + ([':'] + rest)) <==>
      && scheme != "" && scheme in REGISTERED_CLAIM_SCHEMES
      && (scheme == "key" ==>
            && |rest| >= 64
            && (forall i :: 0 <= i < 64 ==> 48 <= rest[i] as int <= 57 || 97 <= rest[i] as int <= 102)
            && (|rest| > 64 ==> rest[64] == '?'))
  {
    var claim := scheme + ([':'] + rest);
    IndexOfSplit(scheme, ':', rest);
    assert claim[..|scheme|] == scheme && claim[|scheme| + 1..] == rest;
    var cut := IndexOf(rest, '?');
    if |rest| >= 64 && (forall i :: 0 <= i < 64 ==> 48 <= rest[i] as int <= 57 || 97 <= rest[i] as int <= 102)
      && (|rest| > 64 ==> rest[64] == '?') {
      assert '?' !in rest[..64];
      if |rest| > 64 {
        IndexOfIsFirst(rest, '?', 64);
      }
      assert cut == 64;
    }
    if IsLowerHexKey(rest[..cut]) {
      assert cut == 64;
      forall i | 0 <= i < 64 ensures 48 <= rest[i] as int <= 57 || 97 <= rest[i] as int <= 102 {
        assert rest[..cut][i] == rest[i];
      }
    }
  }

  /** An address: namespace, encoded claim, listing id and version, from one up to the largest safe integer. */
  lemma AddressSpelled(l: Listing)
    ensures ListingLogicalAddress(l).Some? <==>
      && RegisteredClaim(l.sellerPrimaryClaim) && IsListingId(l.listingId)
      && 0 < l.listingVersion < 9007199254740992
    ensures ListingLogicalAddress(l).Some? ==>
      ListingLogicalAddress(l).value ==
        "dacs1:" + (Cf4Encode(l.sellerPrimaryClaim)
                    + (":" + (l.listingId + (":v" + DecimalText.NatText(l.listingVersion)))))
  {
  }
}
