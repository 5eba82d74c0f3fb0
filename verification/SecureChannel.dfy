/** The local channel backend of src/lib/secure-channel.ts. `None` stands for a thrown error. */
module SecureChannel {
  import opened ByteStrings
  import opened Primitives
  import DecimalText
  import Disclose

  const CHANNEL_MSG := "dacs-channelmsg:v1:"
  const NONCE_BYTES := 24
  const TAG_BYTES := 32
  const BLOCK_BYTES := 32

  /** HMAC-SHA-256, and HKDF-SHA-256 cut into an encryption key and a MAC key. */
  datatype Aead = Aead(
    hmac: (Bytes, Bytes) -> Digest,
    hkdf: (Bytes, Bytes, Bytes) -> (Digest, Digest)  // secret, salt, info
  )

  // ------------------------------------------------------------ byte-wise XOR

  function XorBits(a: nat, b: nat): nat
    decreases a + b
  {
    if a == 0 && b == 0 then 0
    else 2 * XorBits(a / 2, b / 2) + if a % 2 == b % 2 then 0 else 1
  }

  lemma XorOfBytesIsAByte(a: Byte, b: Byte)
    ensures XorBits(a, b) < 256
  {
    XorBelowPower(a, b, 8);
  }

  lemma {:induction false} XorBelowPower(a: nat, b: nat, n: nat)
    requires a < Pow2(n) && b < Pow2(n)
    ensures XorBits(a, b) < Pow2(n)
    decreases n
  {
    if n > 0 {
      XorBelowPower(a / 2, b / 2, n - 1);
    }
  }

  function Xor(a: Byte, b: Byte): Byte {
    XorOfBytesIsAByte(a, b);
    XorBits(a, b)
  }

  lemma {:induction false} XorBitsUndoesItself(a: nat, b: nat)
    ensures XorBits(XorBits(a, b), b) == a
    decreases a + b
  {
    if a != 0 || b != 0 {
      XorBitsUndoesItself(a / 2, b / 2);
      var x := XorBits(a, b);
      assert x / 2 == XorBits(a / 2, b / 2);
    }
  }

  function XorBytes(text: Bytes, stream: Bytes): (r: Bytes)
    requires |text| == |stream|
    ensures |r| == |text|
  {
    seq(|text|, i requires 0 <= i < |text| => Xor(text[i], stream[i]))
  }

  lemma XorBytesUndoesItself(text: Bytes, stream: Bytes)
    requires |text| == |stream|
    ensures XorBytes(XorBytes(text, stream), stream) == text
  {
    forall i | 0 <= i < |text| ensures XorBytes(XorBytes(text, stream), stream)[i] == text[i] {
      XorBitsUndoesItself(text[i], stream[i]);
    }
  }

  // ---------------------------------------------------------------- keystream

  function Block(a: Aead, key: Bytes, nonce: Bytes, counter: nat): Digest {
    a.hmac(key, nonce + U32(counter))
  }

  function Blocks(a: Aead, key: Bytes, nonce: Bytes, n: nat): (r: Bytes)
    ensures |r| == BLOCK_BYTES * n
  {
    if n == 0 then [] else Blocks(a, key, nonce, n - 1) + Block(a, key, nonce, n - 1)
  }

  /** Exactly `length` bytes: whole blocks of an increasing counter, the last one truncated. */
  function Keystream(a: Aead, key: Bytes, nonce: Bytes, length: nat): (r: Bytes)
    ensures |r| == length
  {
    Blocks(a, key, nonce, (length + BLOCK_BYTES - 1) / BLOCK_BYTES)[..length]
  }

  lemma {:induction false} BlocksGrow(a: Aead, key: Bytes, nonce: Bytes, m: nat, n: nat)
    requires m <= n
    ensures |Blocks(a, key, nonce, m)| <= |Blocks(a, key, nonce, n)|
    ensures Blocks(a, key, nonce, n)[..|Blocks(a, key, nonce, m)|] == Blocks(a, key, nonce, m)
    decreases n
  {
    if m < n {
      BlocksGrow(a, key, nonce, m, n - 1);
    }
  }

  /** Blocks copied so far, cut at the wanted length. */
  function Written(counter: nat, length: nat): nat {
    if BLOCK_BYTES * counter <= length then BLOCK_BYTES * counter else length
  }

  lemma OneMoreBlock(a: Aead, key: Bytes, nonce: Bytes, counter: nat, length: nat, before: Bytes, after: Bytes)
    requires Written(counter, length) == BLOCK_BYTES * counter <= length
    requires before == Blocks(a, key, nonce, counter)[..Written(counter, length)]
    requires after == before + Block(a, key, nonce, counter)[..Written(counter + 1, length) - Written(counter, length)]
    ensures after == Blocks(a, key, nonce, counter + 1)[..Written(counter + 1, length)]
  {
    assert before == Blocks(a, key, nonce, counter);
  }

  lemma EnoughBlocks(counter: nat, length: nat)
    requires Written(counter, length) == length && (counter > 0 ==> BLOCK_BYTES * (counter - 1) < length)
    ensures counter == (length + BLOCK_BYTES - 1) / BLOCK_BYTES
  {
  }

  method ComputeKeystream(a: Aead, key: Bytes, nonce: Bytes, length: nat) returns (stream: Bytes)
    ensures stream == Keystream(a, key, nonce, length)
  {
    var out := new Byte[length](_ => 0);
    var offset, counter := 0, 0;
    while offset < length
      invariant offset == Written(counter, length)
      invariant out[..offset] == Blocks(a, key, nonce, counter)[..offset]
      invariant counter > 0 ==> BLOCK_BYTES * (counter - 1) < length
    {
      ghost var before := out[..offset];
      var block := a.hmac(key, nonce + U32(counter));
      var take := if BLOCK_BYTES <= length - offset then BLOCK_BYTES else length - offset;
      CopyInto(out, block[..take], offset);
      OneMoreBlock(a, key, nonce, counter, length, before, out[..offset + take]);
      offset := offset + take;
      counter := counter + 1;
    }
    EnoughBlocks(counter, length);
    assert out[..length] == out[..];
    stream := out[..];
  }

  /** Byte k is byte k mod 32 of block k div 32: a longer keystream only extends a shorter one. */
  lemma KeystreamIsPrefixStable(a: Aead, key: Bytes, nonce: Bytes, short: nat, long: nat)
    requires short <= long
    ensures Keystream(a, key, nonce, long)[..short] == Keystream(a, key, nonce, short)
  {
    var m, n := (short + BLOCK_BYTES - 1) / BLOCK_BYTES, (long + BLOCK_BYTES - 1) / BLOCK_BYTES;
    BlocksGrow(a, key, nonce, m, n);
  }

  // ------------------------------------------------------------- seal and open

  datatype SealedPayload = SealedPayload(nonce: string, ciphertext: string, tag: string)

  function Info(c: Crypto, channelId: string, sender: string, n: int): Bytes {
    c.utf8("pathos-secure-channel:v1:" + channelId + ":" + sender + ":" + DecimalText.IntText(n))
  }

  function Aad(c: Crypto, channelId: string, sender: string, n: int): Bytes {
    c.utf8("pathos-secure-channel-aad:v1:" + channelId + ":" + sender + ":" + DecimalText.IntText(n))
  }

  function Tag(c: Crypto, a: Aead, macKey: Bytes, channelId: string, sender: string, n: int, nonce: Bytes,
               cipher: Bytes): Digest {
    a.hmac(macKey, Aad(c, channelId, sender, n) + nonce + cipher)
  }

  /** Encrypt, then MAC. */
  function Seal(c: Crypto, a: Aead, secret: Bytes, channelId: string, sender: string, n: int, nonce: Bytes,
                plain: Bytes): SealedPayload {
    var (encKey, macKey) := a.hkdf(secret, nonce, Info(c, channelId, sender, n));
    var cipher := XorBytes(plain, Keystream(a, encKey, nonce, |plain|));
    SealedPayload(BytesToHex(nonce), BytesToHex(cipher),
                  BytesToHex(Tag(c, a, macKey, channelId, sender, n, nonce, cipher)))
  }

  /** Authenticate, then decrypt. */
  function Open(c: Crypto, a: Aead, secret: Bytes, channelId: string, sender: string, n: int,
                p: SealedPayload): Option<Bytes> {
    match (Disclose.FixedWidth(p.nonce, NONCE_BYTES), HexToBytes(p.ciphertext), Disclose.FixedWidth(p.tag, TAG_BYTES))
    case (Some(nonce), Some(cipher), Some(tag)) =>
      var (encKey, macKey) := a.hkdf(secret, nonce, Info(c, channelId, sender, n));
      if tag != Tag(c, a, macKey, channelId, sender, n, nonce, cipher) then None
      else Some(XorBytes(cipher, Keystream(a, encKey, nonce, |cipher|)))
    case _ => None
  }

  /** Opening undoes sealing in the same channel, sender and sequence context. */
  lemma OpenUndoesSeal(c: Crypto, a: Aead, secret: Bytes, channelId: string, sender: string, n: int, nonce: Bytes,
                       plain: Bytes)
    requires |nonce| == NONCE_BYTES
    ensures Open(c, a, secret, channelId, sender, n, Seal(c, a, secret, channelId, sender, n, nonce, plain)) ==
      Some(plain)
  {
    var (encKey, macKey) := a.hkdf(secret, nonce, Info(c, channelId, sender, n));
    var stream := Keystream(a, encKey, nonce, |plain|);
    var cipher := XorBytes(plain, stream);
    HexRoundTrip(nonce);
    HexRoundTrip(cipher);
    HexRoundTrip(Tag(c, a, macKey, channelId, sender, n, nonce, cipher));
    XorBytesUndoesItself(plain, stream);
  }

  method XorInto(text: Bytes, stream: Bytes) returns (mixed: Bytes)
    requires |text| == |stream|
    ensures mixed == XorBytes(text, stream)
  {
    var out := new Byte[|text|](_ => 0);
    for i := 0 to |text|
      invariant out[..i] == XorBytes(text, stream)[..i]
    {
      out[i] := Xor(text[i], stream[i]);
    }
    assert out[..|text|] == out[..];
    mixed := out[..];
  }

  method TimingSafeEqual(x: Bytes, y: Bytes) returns (equal: bool)
    ensures equal <==> x == y
  {
    if |x| != |y| {
      return false;
    }
    var differs := false;
    for i := 0 to |x|
      invariant differs <==> x[..i] != y[..i]
    {
      assert x[..i + 1] == x[..i] + [x[i]] && y[..i + 1] == y[..i] + [y[i]];
      differs := differs || x[i] != y[i];
    }
    assert x[..|x|] == x && y[..|x|] == y;
    equal := !differs;
  }

  method SealPayload(c: Crypto, a: Aead, secret: Bytes, channelId: string, sender: string, n: int, nonce: Bytes,
                     plain: Bytes)
    returns (payload: SealedPayload)
    ensures payload == Seal(c, a, secret, channelId, sender, n, nonce, plain)
  {
    var (encKey, macKey) := a.hkdf(secret, nonce, Info(c, channelId, sender, n));
    var stream := ComputeKeystream(a, encKey, nonce, |plain|);
    var cipher := XorInto(plain, stream);
    payload := SealedPayload(BytesToHex(nonce), BytesToHex(cipher),
                             BytesToHex(Tag(c, a, macKey, channelId, sender, n, nonce, cipher)));
  }

  method OpenPayload(c: Crypto, a: Aead, secret: Bytes, channelId: string, sender: string, n: int, p: SealedPayload)
    returns (plain: Option<Bytes>)
    ensures plain == Open(c, a, secret, channelId, sender, n, p)
  {
    var nonce, cipher, tag :=
      Disclose.FixedWidth(p.nonce, NONCE_BYTES), HexToBytes(p.ciphertext), Disclose.FixedWidth(p.tag, TAG_BYTES);
    if nonce.None? || cipher.None? || tag.None? {
      return None;
    }
    var (encKey, macKey) := a.hkdf(secret, nonce.value, Info(c, channelId, sender, n));
    var same := TimingSafeEqual(tag.value, Tag(c, a, macKey, channelId, sender, n, nonce.value, cipher.value));
    if !same {
      return None;
    }
    var stream := ComputeKeystream(a, encKey, nonce.value, |cipher.value|);
    var text := XorInto(cipher.value, stream);
    plain := Some(text);
  }

  // ------------------------------------------------------------------ envelopes

  datatype Envelope = Envelope(
    v: string,
    channelId: string,
    senderPubkey: string,
    n: int,
    payload: SealedPayload,
    signature: string)

  datatype ReceivedMessage = ReceivedMessage(plaintext: Bytes, senderPubkey: string, n: int)

  /** The signed part: everything but the signature. */
  function EnvelopeJson(e: Envelope): Json {
    Obj(map["v" := Str(e.v), "channelId" := Str(e.channelId), "senderPubkey" := Str(e.senderPubkey), "seq" := Num(e.n),
            "payload" := Obj(map["nonce" := Str(e.payload.nonce), "ciphertext" := Str(e.payload.ciphertext),
                                 "tag" := Str(e.payload.tag)])])
  }

  predicate SignatureHolds(c: Crypto, e: Envelope) {
    match (Disclose.FixedWidth(e.senderPubkey, 32), c.jcs(EnvelopeJson(e)), Disclose.FixedWidth(e.signature, 64))
    case (Some(key), Some(body), Some(sig)) => c.verify(CHANNEL_MSG, sig, body, key)
    case _ => false
  }

  datatype Keys = Keys(signPrivKey: Bytes, signPubKey: Bytes, sharedSecret: Bytes)

  function Unsigned(c: Crypto, a: Aead, k: Keys, channelId: string, n: int, plain: Bytes, nonce: Bytes): Envelope {
    var sender := BytesToHex(k.signPubKey);
    Envelope("pathos-secure-channel-envelope:0.1", channelId, sender, n,
             Seal(c, a, k.sharedSecret, channelId, sender, n, nonce, plain), "")
  }

  function SentEnvelope(c: Crypto, a: Aead, k: Keys, channelId: string, n: int, plain: Bytes,
                        nonce: Bytes): Option<Envelope> {
    var unsigned := Unsigned(c, a, k, channelId, n, plain, nonce);
    match c.jcs(EnvelopeJson(unsigned))
    case None => None
    case Some(body) => Some(unsigned.(signature := BytesToHex(c.sign(CHANNEL_MSG, body, k.signPrivKey))))
  }

  type Accepted = map<string, int>

  function LastAccepted(state: Accepted, sender: string): int {
    if sender in state then state[sender] else -1
  }

  /** What one receive returns; the sequence test comes before the payload is opened. */
  function Received(c: Crypto, a: Aead, k: Keys, channelId: string, state: Accepted,
                    e: Envelope): Option<ReceivedMessage> {
    if e.channelId != channelId || !SignatureHolds(c, e) then None
    else if e.n < 0 || e.n <= LastAccepted(state, e.senderPubkey) then None
    else
      match Open(c, a, k.sharedSecret, channelId, e.senderPubkey, e.n, e.payload)
      case None => None
      case Some(plain) => Some(ReceivedMessage(plain, e.senderPubkey, e.n))
  }

  function StateAfter(c: Crypto, a: Aead, k: Keys, channelId: string, state: Accepted, e: Envelope): Accepted {
    if Received(c, a, k, channelId, state, e).Some? then state[e.senderPubkey := e.n] else state
  }

  class LocalSecureChannel {
    const crypto: Crypto
    const aead: Aead
    const channelId: string
    const keys: Keys
    var nextSeq: nat
    var lastAcceptedSeq: Accepted

    constructor (crypto: Crypto, aead: Aead, channelId: string, keys: Keys)
      ensures this.crypto == crypto && this.aead == aead && this.channelId == channelId && this.keys == keys
      ensures nextSeq == 0 && lastAcceptedSeq == map[]
    {
      this.crypto, this.aead, this.channelId, this.keys := crypto, aead, channelId, keys;
      nextSeq, lastAcceptedSeq := 0, map[];
    }

    /** The number is taken even when the envelope then cannot be canonicalised. */
    method Send(plaintext: Bytes, nonce: Bytes) returns (envelope: Option<Envelope>)
      requires |nonce| == NONCE_BYTES
      modifies this`nextSeq
      ensures nextSeq == old(nextSeq) + 1
      ensures envelope == SentEnvelope(crypto, aead, keys, channelId, old(nextSeq), plaintext, nonce)
    {
      var sender, n := BytesToHex(keys.signPubKey), nextSeq;
      nextSeq := nextSeq + 1;
      var payload := SealPayload(crypto, aead, keys.sharedSecret, channelId, sender, n, nonce, plaintext);
      var unsigned := Envelope("pathos-secure-channel-envelope:0.1", channelId, sender, n, payload, "");
      var body := crypto.jcs(EnvelopeJson(unsigned));
      if body.None? {
        return None;
      }
      envelope := Some(unsigned.(signature := BytesToHex(crypto.sign(CHANNEL_MSG, body.value, keys.signPrivKey))));
    }

    method Receive(e: Envelope) returns (message: Option<ReceivedMessage>)
      modifies this`lastAcceptedSeq
      ensures message == Received(crypto, aead, keys, channelId, old(lastAcceptedSeq), e)
      ensures lastAcceptedSeq == StateAfter(crypto, aead, keys, channelId, old(lastAcceptedSeq), e)
      ensures message.None? ==> lastAcceptedSeq == old(lastAcceptedSeq)
    {
      if e.channelId != channelId || !SignatureHolds(crypto, e) {
        return None;
      }
      var last := if e.senderPubkey in lastAcceptedSeq then lastAcceptedSeq[e.senderPubkey] else -1;
      if e.n < 0 || e.n <= last {
        return None;
      }
      var plain := OpenPayload(crypto, aead, keys.sharedSecret, channelId, e.senderPubkey, e.n, e.payload);
      if plain.None? {
        return None;
      }
      lastAcceptedSeq := lastAcceptedSeq[e.senderPubkey := e.n];
      message := Some(ReceivedMessage(plain.value, e.senderPubkey, e.n));
    }
  }

  // ------------------------------------------------------------------------ runs

  function RunState(c: Crypto, a: Aead, k: Keys, channelId: string, es: seq<Envelope>): Accepted {
    if |es| == 0 then map[]
    else StateAfter(c, a, k, channelId, RunState(c, a, k, channelId, es[..|es| - 1]), es[|es| - 1])
  }

  /** The messages a fresh receiver returns, in order, for any envelopes whatsoever. */
  function RunMessages(c: Crypto, a: Aead, k: Keys, channelId: string, es: seq<Envelope>): seq<ReceivedMessage> {
    if |es| == 0 then []
    else
      var init := es[..|es| - 1];
      RunMessages(c, a, k, channelId, init)
      + match Received(c, a, k, channelId, RunState(c, a, k, channelId, init), es[|es| - 1])
        case None => []
        case Some(m) => [m]
  }

  /** Per sender, accepted numbers are non-negative, strictly increase and never pass the recorded one. */
  ghost predicate NumbersIncrease(ms: seq<ReceivedMessage>, state: Accepted) {
    && (forall i :: 0 <= i < |ms| ==> 0 <= ms[i].n <= LastAccepted(state, ms[i].senderPubkey))
    && (forall i, j :: 0 <= i < j < |ms| && ms[i].senderPubkey == ms[j].senderPubkey ==> ms[i].n < ms[j].n)
  }

  lemma AcceptingKeepsIncrease(ms: seq<ReceivedMessage>, state: Accepted, m: ReceivedMessage)
    requires NumbersIncrease(ms, state) && m.n >= 0 && m.n > LastAccepted(state, m.senderPubkey)
    ensures NumbersIncrease(ms + [m], state[m.senderPubkey := m.n])
  {
    var longer, state' := ms + [m], state[m.senderPubkey := m.n];
    forall i | 0 <= i < |longer| ensures 0 <= longer[i].n <= LastAccepted(state', longer[i].senderPubkey) {
      if i < |ms| { assert longer[i] == ms[i]; }
    }
  }

  /** Whatever envelopes are delivered, by whomever made. */
  lemma {:induction false} AcceptedNumbersIncrease(c: Crypto, a: Aead, k: Keys, channelId: string, es: seq<Envelope>)
    ensures NumbersIncrease(RunMessages(c, a, k, channelId, es), RunState(c, a, k, channelId, es))
  {
    if |es| > 0 {
      var init, e := es[..|es| - 1], es[|es| - 1];
      AcceptedNumbersIncrease(c, a, k, channelId, init);
      var state := RunState(c, a, k, channelId, init);
      var message := Received(c, a, k, channelId, state, e);
      if message.Some? {
        assert message.value.n == e.n && message.value.senderPubkey == e.senderPubkey;
        AcceptingKeepsIncrease(RunMessages(c, a, k, channelId, init), state, message.value);
      }
    }
  }

  /** An honest sender's history: message i was sent under number i with its own nonce. */
  datatype Message = Message(plain: Bytes, nonce: Bytes)

  ghost predicate Honest(c: Crypto, k: Keys) {
    SignaturesWork(c) && k.signPubKey == c.publicKey(k.signPrivKey)
  }

  predicate Sendable(c: Crypto, a: Aead, k: Keys, channelId: string, sent: seq<Message>) {
    forall i :: 0 <= i < |sent| ==>
      |sent[i].nonce| == NONCE_BYTES && SentEnvelope(c, a, k, channelId, i, sent[i].plain, sent[i].nonce).Some?
  }

  function EnvelopeOf(c: Crypto, a: Aead, k: Keys, channelId: string, sent: seq<Message>, i: nat): Envelope
    requires Sendable(c, a, k, channelId, sent) && i < |sent|
  {
    SentEnvelope(c, a, k, channelId, i, sent[i].plain, sent[i].nonce).value
  }

  /** The network: any sequence of positions of the history, so loss, repetition and reordering are all covered. */
  predicate Deliverable(sent: seq<Message>, order: seq<nat>) {
    forall d :: 0 <= d < |order| ==> order[d] < |sent|
  }

  function Delivered(c: Crypto, a: Aead, k: Keys, channelId: string, sent: seq<Message>, order: seq<nat>): seq<Envelope>
    requires Sendable(c, a, k, channelId, sent) && Deliverable(sent, order)
  {
    if |order| == 0 then []
    else
      var init, last := order[..|order| - 1], order[|order| - 1];
      Delivered(c, a, k, channelId, sent, init) + [EnvelopeOf(c, a, k, channelId, sent, last)]
  }

  /** The positions that exceed everything delivered before them. */
  function Maxima(order: seq<nat>): seq<nat> {
    if |order| == 0 then []
    else
      var init, last := order[..|order| - 1], order[|order| - 1];
      if (last as int) > Highest(init) then Maxima(init) + [last] else Maxima(init)
  }

  function Highest(order: seq<nat>): int {
    if |order| == 0 then -1
    else
      var init, last := Highest(order[..|order| - 1]), order[|order| - 1];
      if last > init then last else init
  }

  lemma HonestEnvelope(c: Crypto, a: Aead, sender: Keys, receiver: Keys, channelId: string, sent: seq<Message>, i: nat,
                       state: Accepted)
    requires Honest(c, sender) && sender.sharedSecret == receiver.sharedSecret
    requires Sendable(c, a, sender, channelId, sent) && i < |sent|
    ensures var name := BytesToHex(sender.signPubKey);
      Received(c, a, receiver, channelId, state, EnvelopeOf(c, a, sender, channelId, sent, i)) ==
        if i > LastAccepted(state, name) then Some(ReceivedMessage(sent[i].plain, name, i)) else None
  {
    var e := EnvelopeOf(c, a, sender, channelId, sent, i);
    var unsigned := Unsigned(c, a, sender, channelId, i, sent[i].plain, sent[i].nonce);
    assert EnvelopeJson(e) == EnvelopeJson(unsigned);
    HexRoundTrip(sender.signPubKey);
    HexRoundTrip(c.sign(CHANNEL_MSG, c.jcs(EnvelopeJson(unsigned)).value, sender.signPrivKey));
    assert SignatureHolds(c, e);
    OpenUndoesSeal(c, a, sender.sharedSecret, channelId, e.senderPubkey, i, sent[i].nonce, sent[i].plain);
  }

  /** The message that goes with position i of the history. */
  function MessageAt(k: Keys, sent: seq<Message>, i: nat): ReceivedMessage
    requires i < |sent|
  {
    ReceivedMessage(sent[i].plain, BytesToHex(k.signPubKey), i)
  }

  function MessagesAt(k: Keys, sent: seq<Message>, order: seq<nat>): seq<ReceivedMessage>
    requires Deliverable(sent, order)
  {
    if |order| == 0 then []
    else MessagesAt(k, sent, order[..|order| - 1]) + [MessageAt(k, sent, order[|order| - 1])]
  }

  lemma {:induction false} MaximaAreDeliverable(sent: seq<Message>, order: seq<nat>)
    requires Deliverable(sent, order)
    ensures Deliverable(sent, Maxima(order))
    decreases |order|
  {
    if |order| > 0 {
      MaximaAreDeliverable(sent, order[..|order| - 1]);
    }
  }

  /** One more delivery: accepted exactly when it exceeds everything before. */
  lemma DeliverOne(c: Crypto, a: Aead, sender: Keys, receiver: Keys, channelId: string, sent: seq<Message>,
                   init: seq<Envelope>, i: nat)
    requires Honest(c, sender) && sender.sharedSecret == receiver.sharedSecret
    requires Sendable(c, a, sender, channelId, sent) && i < |sent|
    ensures var name := BytesToHex(sender.signPubKey);
      var last := LastAccepted(RunState(c, a, receiver, channelId, init), name);
      var es := init + [EnvelopeOf(c, a, sender, channelId, sent, i)];
      && RunMessages(c, a, receiver, channelId, es) ==
           RunMessages(c, a, receiver, channelId, init) + (if i > last then [MessageAt(sender, sent, i)] else [])
      && LastAccepted(RunState(c, a, receiver, channelId, es), name) == if i > last then i else last
  {
    var es := init + [EnvelopeOf(c, a, sender, channelId, sent, i)];
    assert es[..|es| - 1] == init;
    HonestEnvelope(c, a, sender, receiver, channelId, sent, i, RunState(c, a, receiver, channelId, init));
  }

  /**
   * A receiver sharing the channel id and secret accepts exactly the left-to-right maxima of whatever is
   * delivered, and returns for each the plaintext that was sent under that number.
   */
  lemma {:induction false} ReceiverAcceptsMaxima(c: Crypto, a: Aead, sender: Keys, receiver: Keys, channelId: string,
                                                 sent: seq<Message>, order: seq<nat>)
    requires Honest(c, sender) && sender.sharedSecret == receiver.sharedSecret
    requires Sendable(c, a, sender, channelId, sent) && Deliverable(sent, order)
    ensures Deliverable(sent, Maxima(order))
    ensures RunMessages(c, a, receiver, channelId, Delivered(c, a, sender, channelId, sent, order))
         == MessagesAt(sender, sent, Maxima(order))
    ensures LastAccepted(RunState(c, a, receiver, channelId, Delivered(c, a, sender, channelId, sent, order)),
                         BytesToHex(sender.signPubKey)) == Highest(order)
    decreases |order|
  {
    MaximaAreDeliverable(sent, order);
    if |order| > 0 {
      var init, last := order[..|order| - 1], order[|order| - 1];
      ReceiverAcceptsMaxima(c, a, sender, receiver, channelId, sent, init);
      DeliverOne(c, a, sender, receiver, channelId, sent, Delivered(c, a, sender, channelId, sent, init), last);
      assert (Maxima(init) + [last])[..|Maxima(init)|] == Maxima(init);
    }
  }

  /** Every element of an increasing order is a left-to-right maximum. */
  lemma {:induction false} IncreasingOrderIsAllMaxima(order: seq<nat>)
    requires forall i, j :: 0 <= i < j < |order| ==> order[i] < order[j]
    ensures Maxima(order) == order
    ensures |order| > 0 ==> Highest(order) == order[|order| - 1]
    decreases |order|
  {
    if |order| > 0 {
      IncreasingOrderIsAllMaxima(order[..|order| - 1]);
    }
  }

  // -------------------------------------------------------------- many senders

  /** What a receiver makes of an envelope whose sender it never heard of: decided by the envelope alone. */
  type Reader = Envelope -> Option<ReceivedMessage>

  function ReaderOf(c: Crypto, a: Aead, k: Keys, channelId: string): Reader {
    e => Received(c, a, k, channelId, map[], e)
  }

  datatype Inbox = Inbox(state: Accepted, messages: seq<ReceivedMessage>)

  /** A receiver's step: the reader, then the sender's last number. */
  function Take(read: Reader, inbox: Inbox, e: Envelope): Inbox {
    if read(e).Some? && e.n > LastAccepted(inbox.state, e.senderPubkey)
    then Inbox(inbox.state[e.senderPubkey := e.n], inbox.messages + [read(e).value])
    else inbox
  }

  function TakeAll(read: Reader, es: seq<Envelope>): Inbox {
    if |es| == 0 then Inbox(map[], []) else Take(read, TakeAll(read, es[..|es| - 1]), es[|es| - 1])
  }

  lemma ReceivedByNumber(c: Crypto, a: Aead, k: Keys, channelId: string, state: Accepted, e: Envelope)
    ensures Received(c, a, k, channelId, state, e) ==
      if e.n > LastAccepted(state, e.senderPubkey) then Received(c, a, k, channelId, map[], e) else None
  {
  }

  lemma {:induction false} RunTakesAll(c: Crypto, a: Aead, k: Keys, channelId: string, es: seq<Envelope>)
    ensures TakeAll(ReaderOf(c, a, k, channelId), es) ==
      Inbox(RunState(c, a, k, channelId, es), RunMessages(c, a, k, channelId, es))
  {
    if |es| > 0 {
      RunTakesAll(c, a, k, channelId, es[..|es| - 1]);
      ReceivedByNumber(c, a, k, channelId, RunState(c, a, k, channelId, es[..|es| - 1]), es[|es| - 1]);
    }
  }

  predicate IsHeard(read: Reader, e: Envelope, name: string) {
    e.senderPubkey == name && read(e).Some?
  }

  /** The readable envelopes under one sender name, in order of delivery. */
  function Heard(read: Reader, es: seq<Envelope>, name: string): seq<Envelope> {
    if |es| == 0 then []
    else Heard(read, es[..|es| - 1], name) + if IsHeard(read, es[|es| - 1], name) then [es[|es| - 1]] else []
  }

  function Under(ms: seq<ReceivedMessage>, name: string): seq<ReceivedMessage> {
    if |ms| == 0 then []
    else Under(ms[..|ms| - 1], name) + if ms[|ms| - 1].senderPubkey == name then [ms[|ms| - 1]] else []
  }

  lemma UnderSnoc(ms: seq<ReceivedMessage>, m: ReceivedMessage, name: string)
    ensures Under(ms + [m], name) == Under(ms, name) + if m.senderPubkey == name then [m] else []
  {
    assert (ms + [m])[..|ms|] == ms;
  }

  lemma TakeAllSnoc(read: Reader, es: seq<Envelope>, e: Envelope)
    ensures TakeAll(read, es + [e]) == Take(read, TakeAll(read, es), e)
  {
    assert (es + [e])[..|es|] == es;
  }

  /** One sender's standing in two inboxes is the same. */
  predicate SameUnder(x: Inbox, y: Inbox, name: string) {
    Under(x.messages, name) == y.messages && LastAccepted(x.state, name) == LastAccepted(y.state, name)
  }

  ghost predicate KeepsSender(read: Reader) {
    forall e :: read(e).Some? ==> read(e).value.senderPubkey == e.senderPubkey
  }

  lemma TakeUnder(read: Reader, x: Inbox, y: Inbox, e: Envelope, name: string)
    requires KeepsSender(read) && SameUnder(x, y, name)
    ensures SameUnder(Take(read, x, e), if IsHeard(read, e, name) then Take(read, y, e) else y, name)
  {
    if read(e).Some? {
      UnderSnoc(x.messages, read(e).value, name);
    }
  }

  lemma {:induction false} HeardStandsAlone(read: Reader, es: seq<Envelope>, name: string)
    requires KeepsSender(read)
    ensures SameUnder(TakeAll(read, es), TakeAll(read, Heard(read, es, name)), name)
  {
    if |es| > 0 {
      var init, e := es[..|es| - 1], es[|es| - 1];
      var heard := Heard(read, init, name);
      HeardStandsAlone(read, init, name);
      TakeUnder(read, TakeAll(read, init), TakeAll(read, heard), e, name);
      TakeAllSnoc(read, heard, e);
      assert heard + [] == heard;
    }
  }

  /**
   * Senders do not interfere: among any envelopes, by whomever made, what the receiver returns under one name, and
   * the number it then requires, are as if only the readable envelopes under that name had been delivered.
   */
  lemma SendersDoNotInterfere(c: Crypto, a: Aead, k: Keys, channelId: string, es: seq<Envelope>, name: string)
    ensures var heard := Heard(ReaderOf(c, a, k, channelId), es, name);
      && Under(RunMessages(c, a, k, channelId, es), name) == RunMessages(c, a, k, channelId, heard)
      && LastAccepted(RunState(c, a, k, channelId, es), name) == LastAccepted(RunState(c, a, k, channelId, heard), name)
  {
    var read := ReaderOf(c, a, k, channelId);
    HeardStandsAlone(read, es, name);
    RunTakesAll(c, a, k, channelId, es);
    RunTakesAll(c, a, k, channelId, Heard(read, es, name));
  }

  /** All of an honest sender's envelopes are readable under its name. */
  lemma {:induction false} DeliveredIsHeard(c: Crypto, a: Aead, sender: Keys, receiver: Keys, channelId: string,
                                            sent: seq<Message>, order: seq<nat>)
    requires Honest(c, sender) && sender.sharedSecret == receiver.sharedSecret
    requires Sendable(c, a, sender, channelId, sent) && Deliverable(sent, order)
    ensures var es := Delivered(c, a, sender, channelId, sent, order);
      Heard(ReaderOf(c, a, receiver, channelId), es, BytesToHex(sender.signPubKey)) == es
    decreases |order|
  {
    if |order| > 0 {
      DeliveredIsHeard(c, a, sender, receiver, channelId, sent, order[..|order| - 1]);
      HonestEnvelope(c, a, sender, receiver, channelId, sent, order[|order| - 1], map[]);
      HeardSnoc(ReaderOf(c, a, receiver, channelId), Delivered(c, a, sender, channelId, sent, order[..|order| - 1]),
                EnvelopeOf(c, a, sender, channelId, sent, order[|order| - 1]), BytesToHex(sender.signPubKey));
    }
  }

  lemma HeardSnoc(read: Reader, es: seq<Envelope>, e: Envelope, name: string)
    requires IsHeard(read, e, name)
    ensures Heard(read, es + [e], name) == Heard(read, es, name) + [e]
  {
    assert (es + [e])[..|es|] == es;
  }

  /**
   * The network delivers anything: other senders' envelopes, forgeries and noise between an honest sender's own.  As
   * long as nobody else makes readable envelopes in its name, exactly its maxima come back under that name.
   */
  lemma MaximaComeBackAmongOthers(c: Crypto, a: Aead, sender: Keys, receiver: Keys, channelId: string,
                                  sent: seq<Message>, order: seq<nat>, es: seq<Envelope>)
    requires Honest(c, sender) && sender.sharedSecret == receiver.sharedSecret
    requires Sendable(c, a, sender, channelId, sent) && Deliverable(sent, order)
    requires Heard(ReaderOf(c, a, receiver, channelId), es, BytesToHex(sender.signPubKey)) ==
             Delivered(c, a, sender, channelId, sent, order)
    ensures Deliverable(sent, Maxima(order))
    ensures Under(RunMessages(c, a, receiver, channelId, es), BytesToHex(sender.signPubKey)) ==
            MessagesAt(sender, sent, Maxima(order))
  {
    ReceiverAcceptsMaxima(c, a, sender, receiver, channelId, sent, order);
    SendersDoNotInterfere(c, a, receiver, channelId, es, BytesToHex(sender.signPubKey));
  }

  /** In-order delivery, even with losses, is accepted in full: every delivered plaintext comes back, in order. */
  lemma InOrderDeliveryIsAcceptedInFull(c: Crypto, a: Aead, sender: Keys, receiver: Keys, channelId: string,
                                        sent: seq<Message>, order: seq<nat>)
    requires Honest(c, sender) && sender.sharedSecret == receiver.sharedSecret
    requires Sendable(c, a, sender, channelId, sent) && Deliverable(sent, order)
    requires forall i, j :: 0 <= i < j < |order| ==> order[i] < order[j]
    ensures RunMessages(c, a, receiver, channelId, Delivered(c, a, sender, channelId, sent, order))
         == MessagesAt(sender, sent, order)
  {
    ReceiverAcceptsMaxima(c, a, sender, receiver, channelId, sent, order);
    IncreasingOrderIsAllMaxima(order);
  }

  // ------------------------------------------------------------- the formats, spelled out

  /** Exclusive or, bit by bit from the lowest. */
  lemma XorSpelled(a: nat, b: nat)
    ensures XorBits(a, b) % 2 == (a + b) % 2 && XorBits(a, b) / 2 == XorBits(a / 2, b / 2)
  {
  }

  lemma {:induction false} BlocksSpelled(a: Aead, key: Bytes, nonce: Bytes, n: nat, k: nat)
    requires k < 32 * n
    ensures |Blocks(a, key, nonce, n)| == 32 * n
    ensures Blocks(a, key, nonce, n)[k] == a.hmac(key, nonce + U32(k / 32))[k % 32]
  {
    if k < 32 * (n - 1) {
      BlocksSpelled(a, key, nonce, n - 1, k);
    } else {
      assert k / 32 == n - 1 && k % 32 == k - 32 * (n - 1);
    }
  }

  /** Byte k of a keystream is byte k mod 32 of the HMAC over nonce and block number k div 32. */
  lemma KeystreamSpelled(a: Aead, key: Bytes, nonce: Bytes, length: nat, k: nat)
    requires k < length
    ensures |Keystream(a, key, nonce, length)| == length
    ensures Keystream(a, key, nonce, length)[k] == a.hmac(key, nonce + U32(k / 32))[k % 32]
  {
    var n := (length + 31) / 32;
    assert k < 32 * n;
    BlocksSpelled(a, key, nonce, n, k);
  }

  /** What keys and tags are bound to: channel, sender and number. */
  function Bound(prefix: string, channelId: string, sender: string, n: int): string {
    prefix + channelId + ":" + sender + ":" + DecimalText.IntText(n)
  }

  /** The tag of a ciphertext: keyed by the derived MAC key, over context, nonce and ciphertext. */
  function TagOf(c: Crypto, a: Aead, secret: Bytes, channelId: string, sender: string, n: int, nonce: Bytes,
                 cipher: Bytes): Digest {
    var keys := a.hkdf(secret, nonce, c.utf8(Bound("pathos-secure-channel:v1:", channelId, sender, n)));
    a.hmac(keys.1, c.utf8(Bound("pathos-secure-channel-aad:v1:", channelId, sender, n)) + nonce + cipher)
  }

  /** `cipher` is `plain` with the derived keystream mixed in. */
  ghost predicate Mixes(c: Crypto, a: Aead, secret: Bytes, channelId: string, sender: string, n: int, nonce: Bytes,
                        plain: Bytes, cipher: Bytes) {
    var keys := a.hkdf(secret, nonce, c.utf8(Bound("pathos-secure-channel:v1:", channelId, sender, n)));
    && |cipher| == |plain|
    && forall k :: 0 <= k < |plain| ==>
        cipher[k] == XorBits(plain[k], a.hmac(keys.0, nonce + U32(k / 32))[k % 32])
  }

  lemma SealSpelled(c: Crypto, a: Aead, secret: Bytes, channelId: string, sender: string, n: int, nonce: Bytes,
                    plain: Bytes)
    returns (cipher: Bytes)
    ensures Mixes(c, a, secret, channelId, sender, n, nonce, plain, cipher)
    ensures Seal(c, a, secret, channelId, sender, n, nonce, plain) == SealedPayload(
      BytesToHex(nonce), BytesToHex(cipher), BytesToHex(TagOf(c, a, secret, channelId, sender, n, nonce, cipher)))
  {
    var (encKey, macKey) := a.hkdf(secret, nonce, Info(c, channelId, sender, n));
    cipher := XorBytes(plain, Keystream(a, encKey, nonce, |plain|));
    forall k | 0 <= k < |plain|
      ensures cipher[k] == XorBits(plain[k], a.hmac(encKey, nonce + U32(k / 32))[k % 32])
    {
      KeystreamSpelled(a, encKey, nonce, |plain|, k);
    }
  }

  /** A payload opens exactly when nonce and tag have their widths, the ciphertext is hex and the tag is its tag. */
  lemma OpenSpelled(c: Crypto, a: Aead, secret: Bytes, channelId: string, sender: string, n: int, p: SealedPayload)
    ensures
      var nonce, cipher, tag := HexToBytes(p.nonce), HexToBytes(p.ciphertext), HexToBytes(p.tag);
      var plain := Open(c, a, secret, channelId, sender, n, p);
      && (plain.Some? <==>
            && nonce.Some? && |nonce.value| == 24 && cipher.Some? && tag.Some? && |tag.value| == 32
            && tag.value == TagOf(c, a, secret, channelId, sender, n, nonce.value, cipher.value))
      && (plain.Some? ==> Mixes(c, a, secret, channelId, sender, n, nonce.value, cipher.value, plain.value))
  {
    var nonce, cipher := HexToBytes(p.nonce), HexToBytes(p.ciphertext);
    if Open(c, a, secret, channelId, sender, n, p).Some? {
      var (encKey, macKey) := a.hkdf(secret, nonce.value, Info(c, channelId, sender, n));
      forall k | 0 <= k < |cipher.value|
        ensures Keystream(a, encKey, nonce.value, |cipher.value|)[k]
                == a.hmac(encKey, nonce.value + U32(k / 32))[k % 32]
      {
        KeystreamSpelled(a, encKey, nonce.value, |cipher.value|, k);
      }
    }
  }

  /** What an envelope's signature covers: version, channel, sender, number and payload. */
  lemma EnvelopeSays(e: Envelope)
    ensures EnvelopeJson(e) == Obj(map[
      "v" := Str(e.v), "channelId" := Str(e.channelId), "senderPubkey" := Str(e.senderPubkey), "seq" := Num(e.n),
      "payload" := Obj(map["nonce" := Str(e.payload.nonce), "ciphertext" := Str(e.payload.ciphertext),
                           "tag" := Str(e.payload.tag)])])
  {
  }

  /** The sender's own signature over the canonical envelope. */
  predicate IsSigned(c: Crypto, e: Envelope) {
    var key, sig, body := HexToBytes(e.senderPubkey), HexToBytes(e.signature), c.jcs(EnvelopeJson(e));
    && key.Some? && |key.value| == 32 && sig.Some? && |sig.value| == 64 && body.Some?
    && c.verify("dacs-channelmsg:v1:", sig.value, body.value, key.value)
  }

  /**
   * An envelope is accepted exactly when it is of this channel, signed by its sender, numbered beyond the last accepted
   * from that sender (from zero on), and its payload opens; then the message is the payload's text, under its number.
   */
  lemma AcceptedExactlyWhen(c: Crypto, a: Aead, k: Keys, channelId: string, state: Accepted, e: Envelope)
    ensures
      var plain := Open(c, a, k.sharedSecret, channelId, e.senderPubkey, e.n, e.payload);
      Received(c, a, k, channelId, state, e) ==
        if && e.channelId == channelId && IsSigned(c, e) && e.n >= 0
           && (e.senderPubkey in state ==> state[e.senderPubkey] < e.n) && plain.Some?
        then Some(ReceivedMessage(plain.value, e.senderPubkey, e.n))
        else None
    ensures StateAfter(c, a, k, channelId, state, e) ==
      if Received(c, a, k, channelId, state, e).Some? then state[e.senderPubkey := e.n] else state
  {
  }

  /** A sent envelope is of this channel and the sender's key, numbered, sealed, and signed under the channel domain. */
  lemma SentSpelled(c: Crypto, a: Aead, k: Keys, channelId: string, n: int, plain: Bytes, nonce: Bytes)
    ensures
      var sender := BytesToHex(k.signPubKey);
      var unsigned := Envelope("pathos-secure-channel-envelope:0.1", channelId, sender, n,
                               Seal(c, a, k.sharedSecret, channelId, sender, n, nonce, plain), "");
      SentEnvelope(c, a, k, channelId, n, plain, nonce) ==
        if c.jcs(EnvelopeJson(unsigned)).None? then None
        else Some(unsigned.(signature :=
          BytesToHex(c.sign("dacs-channelmsg:v1:", c.jcs(EnvelopeJson(unsigned)).value, k.signPrivKey))))
  {
  }
}
