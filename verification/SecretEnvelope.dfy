/** The envelope of an encrypted secret (section 7.40.2.5 of OPC 10000-4): what is written, what is
  signed and what is read back.
  */
module SecretEnvelope {
  import opened ByteCodec
  import opened Wrappers

  datatype Status = BadInvalidArgument | BadDecodingError | BadSecurityPolicyRejected | Panicked

  /** Times are ticks since 1601.  The last representable one is 9999-12-31 23:59:59. */
  const END_TICKS := 2650467743990000000

  datatype Envelope = Envelope(uri: Bytes, certificate: ByteString, signingTime: int,
                               senderKey: ByteString, receiverKey: ByteString, payload: Bytes, signature: Bytes)

  /** The decoding limits, and which byte strings are UTF-8. */
  datatype Limits = Limits(maxString: nat, maxBytes: nat, utf8: Bytes -> bool)

  function Ascii(s: string): Bytes {
    seq(|s|, i requires 0 <= i < |s| => s[i] as int % 256)
  }

  const P256_URI := Ascii("http://opcfoundation.org/UA/SecurityPolicy#ECC_nistP256")
  const P384_URI := Ascii("http://opcfoundation.org/UA/SecurityPolicy#ECC_nistP384")

  /** The length of a signature under a policy; other policies are not elliptic-curve ones. */
  function SignatureLength(uri: Bytes): Option<nat> {
    if uri == P256_URI then Some(64) else if uri == P384_URI then Some(96) else None
  }

  // ---- Writing -------------------------------------------------------------------------------

  /** The node id 17546 in its four-byte form. */
  const TYPE_ID: Bytes := [0x01, 0x00, 0x8A, 0x44]

  function ToTicks(t: int): int {
    if t < 0 then 0 else if t > END_TICKS then MAX_I64 else t
  }

  function FromTicks(raw: int): int {
    if raw == MAX_I64 then END_TICKS else raw
  }

  function KeyData(e: Envelope): Bytes {
    EncodeByteString(e.senderKey) + EncodeByteString(e.receiverKey)
  }

  /** The length declared for the body.  It counts the signature of the policy, whatever `e` holds. */
  function BodyLength(e: Envelope): nat
    requires SignatureLength(e.uri).Some?
  {
    |e.uri| + |Content(e.certificate)| + |e.payload| + SignatureLength(e.uri).value + |KeyData(e)| + 18
  }

  function Body(e: Envelope, raw: int): Bytes
    requires 0 <= raw <= MAX_I64 || -TWO64 / 2 <= raw < 0
    requires |KeyData(e)| < 0x1_0000
  {
    EncodeByteString(Some(e.uri)) + EncodeByteString(e.certificate) + LeI64(raw)
    + Le16(|KeyData(e)|) + KeyData(e) + e.payload
  }

  /** The buffer is sized before anything is checked, and a signature longer than it would be panics. */
  function Refusal(e: Envelope): Option<Status> {
    if SignatureLength(e.uri).None? then Some(BadSecurityPolicyRejected)
    else if |e.signature| > |TYPE_ID| + 5 + BodyLength(e) then Some(Panicked)
    else if BodyLength(e) > MAX_I32 || |KeyData(e)| >= 0x1_0000 then Some(BadInvalidArgument)
    else None
  }

  function DataToSign(e: Envelope): Result<Bytes, Status> {
    if Refusal(e).Some? then Err(Refusal(e).value)
    else Ok(TYPE_ID + [1] + LeI32(BodyLength(e)) + Body(e, ToTicks(e.signingTime)))
  }

  function Encode(e: Envelope): Result<Bytes, Status> {
    if DataToSign(e).Err? then DataToSign(e) else Ok(DataToSign(e).value + e.signature)
  }

  method EncodeDataToSign(e: Envelope) returns (r: Result<Bytes, Status>)
    ensures r == DataToSign(e)
  {
    hide LeI32, LeI64, Le16, EncodeByteString, SignatureLength;
    var keyData := EncodeByteString(e.senderKey) + EncodeByteString(e.receiverKey);
    if SignatureLength(e.uri).None? {
      return Err(BadSecurityPolicyRejected);
    }
    var bodyLength := |e.uri| + |Content(e.certificate)| + |e.payload| + SignatureLength(e.uri).value + |keyData| + 4 + 4 + 8 + 2;
    if |e.signature| > 4 + 1 + 4 + bodyLength {
      return Err(Panicked);
    }
    var buf := TYPE_ID;
    buf := buf + [1];
    if bodyLength > MAX_I32 {
      return Err(BadInvalidArgument);
    }
    buf := buf + LeI32(bodyLength);
    buf := buf + EncodeByteString(Some(e.uri));
    buf := buf + EncodeByteString(e.certificate);
    buf := buf + LeI64(ToTicks(e.signingTime));
    if |keyData| >= 0x1_0000 {
      return Err(BadInvalidArgument);
    }
    buf := buf + Le16(|keyData|);
    buf := buf + keyData;
    buf := buf + e.payload;
    assert buf == TYPE_ID + [1] + LeI32(BodyLength(e)) + Body(e, ToTicks(e.signingTime));
    r := Ok(buf);
  }

  // ---- Reading -------------------------------------------------------------------------------

  predicate Text(v: ByteString, lim: Limits) {
    Readable(v, lim.maxString) && (v.Some? ==> lim.utf8(v.value))
  }

  function ReadText(s: Bytes, lim: Limits): Read<ByteString> {
    match ReadByteString(s, lim.maxString)
    case Fail => Fail
    case Got(v, rest) => if v.Some? && !lim.utf8(v.value) then Fail else Got(v, rest)
  }

  lemma ReadTextIff(s: Bytes, lim: Limits, v: ByteString, rest: Bytes)
    ensures ReadText(s, lim) == Got(v, rest) <==> Text(v, lim) && s == EncodeByteString(v) + rest
  {
    hide ReadByteString, EncodeByteString, Readable;
    ReadByteStringIff(s, lim.maxString, v, rest);
  }

  /** The bytes of a node id in any of its six forms. */
  function ReadNodeId(s: Bytes, lim: Limits): Read<Bytes> {
    if s == [] then Fail
    else if s[0] == 0 then ReadBytes(s, 2)
    else if s[0] == 1 then ReadBytes(s, 4)
    else if s[0] == 2 then ReadBytes(s, 7)
    else if s[0] == 4 then ReadBytes(s, 19)
    else if (s[0] == 3 || s[0] == 5) && |s| >= 3 then
      match if s[0] == 3 then ReadText(s[3..], lim) else ReadByteString(s[3..], lim.maxBytes)
      case Fail => Fail
      case Got(v, rest) => Got(s[..3] + EncodeByteString(v), rest)
    else Fail
  }

  lemma NodeIdIsPrefix(s: Bytes, lim: Limits)
    requires ReadNodeId(s, lim).Got?
    ensures s == ReadNodeId(s, lim).value + ReadNodeId(s, lim).rest
  {
    hide ReadText, ReadByteString, EncodeByteString, Text, Readable;
    var r := ReadNodeId(s, lim);
    if |s| >= 3 && (s[0] == 3 || s[0] == 5) {
      var v := if s[0] == 3 then ReadText(s[3..], lim) else ReadByteString(s[3..], lim.maxBytes);
      if s[0] == 3 {
        ReadTextIff(s[3..], lim, v.value, v.rest);
      } else {
        ReadByteStringIff(s[3..], lim.maxBytes, v.value, v.rest);
      }
      assert s == s[..3] + s[3..];
    }
  }

  /** The first byte tells the length of a node id: two, four, seven or nineteen bytes, or three and a
    string; any other byte is refused. */
  lemma NodeIdMeaning(s: Bytes, lim: Limits)
    requires s != []
    ensures s[0] in {0, 1, 2, 4} ==>
      var n := if s[0] == 0 then 2 else if s[0] == 1 then 4 else if s[0] == 2 then 7 else 19;
      ReadNodeId(s, lim) == if |s| < n then Fail else Got(s[..n], s[n..])
    ensures s[0] in {3, 5} && ReadNodeId(s, lim).Got? ==> exists v ::
      s == s[..3] + EncodeByteString(v) + ReadNodeId(s, lim).rest && ReadNodeId(s, lim).value == s[..3] + EncodeByteString(v)
    ensures s[0] > 5 ==> ReadNodeId(s, lim) == Fail
  {
    hide ReadText, ReadByteString, EncodeByteString;
    if ReadNodeId(s, lim).Got? {
      NodeIdIsPrefix(s, lim);
    }
  }

  lemma TypeIdIsRead(rest: Bytes, lim: Limits)
    ensures ReadNodeId(TYPE_ID + rest, lim) == Got(TYPE_ID, rest)
  {
    ReadBytesIff(TYPE_ID + rest, 4, TYPE_ID, rest);
  }

  /** An envelope as found: the raw ticks stand beside the time they were read as. */
  datatype Parts = Parts(id: Bytes, raw: int, envelope: Envelope, trailing: Bytes)

  function DecodeParts(s: Bytes, lim: Limits): Result<Parts, Status> {
    match ReadNodeId(s, lim)
    case Fail => Err(BadDecodingError)
    case Got(id, afterId) =>
      if afterId == [] then Err(BadDecodingError)
      else if afterId[0] != 1 then Err(BadInvalidArgument)
      else
        match ReadI32(afterId[1..])
        case Fail => Err(BadDecodingError)
        case Got(n, rest) =>
          if n < 0 || n > |rest| then Err(BadInvalidArgument)
          else
            match DecodeBody(rest[..n], lim)
            case Err(status) => Err(status)
            case Ok(body) => Ok(Parts(id, body.0, body.1, rest[n..]))
  }

  function DecodeBody(s: Bytes, lim: Limits): Result<(int, Envelope), Status> {
    match ReadText(s, lim)
    case Fail => Err(BadDecodingError)
    case Got(uri, s1) =>
      if uri.None? then Err(BadInvalidArgument)
      else
        match ReadByteString(s1, lim.maxBytes)
        case Fail => Err(BadDecodingError)
        case Got(certificate, s2) =>
          match ReadI64(s2)
          case Fail => Err(BadDecodingError)
          case Got(raw, s3) =>
            match DecodeKeys(s3, lim)
            case Err(status) => Err(status)
            case Ok(keys) => DecodeTail(uri.value, certificate, raw, keys.0, keys.1, keys.2)
  }

  /** The two keys, and what follows them. */
  function DecodeKeys(s: Bytes, lim: Limits): Result<(ByteString, ByteString, Bytes), Status> {
    match ReadU16(s)
    case Fail => Err(BadDecodingError)
    case Got(n, rest) =>
      if n < 0 || n > |rest| then Err(BadInvalidArgument)
      else
        match ReadByteString(rest[..n], lim.maxBytes)
        case Fail => Err(BadDecodingError)
        case Got(sender, k1) =>
          match ReadByteString(k1, lim.maxBytes)
          case Fail => Err(BadDecodingError)
          case Got(receiver, k2) =>
            if k2 != [] then Err(BadInvalidArgument) else Ok((sender, receiver, rest[n..]))
  }

  function DecodeTail(uri: Bytes, certificate: ByteString, raw: int, sender: ByteString, receiver: ByteString, s: Bytes)
    : Result<(int, Envelope), Status>
  {
    match SignatureLength(uri)
    case None => Err(BadSecurityPolicyRejected)
    case Some(n) =>
      if |s| < n then Err(BadInvalidArgument)
      else Ok((raw, Envelope(uri, certificate, FromTicks(raw), sender, receiver, s[..|s| - n], s[|s| - n..])))
  }

  function Decode(s: Bytes, lim: Limits): Result<Envelope, Status> {
    match DecodeParts(s, lim)
    case Err(status) => Err(status)
    case Ok(parts) => Ok(parts.envelope)
  }

  // ---- What reading accepts ------------------------------------------------------------------

  /** An envelope whose body can be read: a policy with a signature length, the signature of that length,
    and every string within the limits. */
  predicate Proper(e: Envelope, lim: Limits) {
    && SignatureLength(e.uri) == Some(|e.signature|)
    && Text(Some(e.uri), lim) && Readable(e.certificate, lim.maxBytes)
    && Readable(e.senderKey, lim.maxBytes) && Readable(e.receiverKey, lim.maxBytes)
    && |KeyData(e)| < 0x1_0000
  }

  predicate IsI64(raw: int) {
    -TWO64 / 2 <= raw <= MAX_I64
  }

  function KeyBlock(sender: ByteString, receiver: ByteString): Bytes
    requires |EncodeByteString(sender) + EncodeByteString(receiver)| < 0x1_0000
  {
    var keys := EncodeByteString(sender) + EncodeByteString(receiver);
    Le16(|keys|) + keys
  }

  lemma KeysAreRead(s: Bytes, lim: Limits, sender: ByteString, receiver: ByteString, rest: Bytes)
    ensures DecodeKeys(s, lim) == Ok((sender, receiver, rest)) <==>
      && |EncodeByteString(sender) + EncodeByteString(receiver)| < 0x1_0000
      && Readable(sender, lim.maxBytes) && Readable(receiver, lim.maxBytes)
      && s == KeyBlock(sender, receiver) + rest
  {
    hide ReadU16, ReadByteString, EncodeByteString, Readable, Le16;
    var keys := EncodeByteString(sender) + EncodeByteString(receiver);
    ReadByteStringIff(keys, lim.maxBytes, sender, EncodeByteString(receiver));
    ReadByteStringIff(EncodeByteString(receiver), lim.maxBytes, receiver, []);
    assert EncodeByteString(receiver) + [] == EncodeByteString(receiver);
    if |keys| < 0x1_0000 && s == KeyBlock(sender, receiver) + rest {
      assert s == Le16(|keys|) + (keys + rest);
      ReadU16Iff(s, |keys|, keys + rest);
      assert (keys + rest)[..|keys|] == keys && (keys + rest)[|keys|..] == rest;
    }
    if DecodeKeys(s, lim) == Ok((sender, receiver, rest)) {
      var first := ReadU16(s);
      ReadU16Iff(s, first.value, first.rest);
      var block := first.rest[..first.value];
      var k1 := ReadByteString(block, lim.maxBytes);
      ReadByteStringIff(block, lim.maxBytes, sender, k1.rest);
      ReadByteStringIff(k1.rest, lim.maxBytes, receiver, []);
      assert block == keys;
      assert first.rest == block + rest;
      assert s == KeyBlock(sender, receiver) + rest;
    }
  }

  lemma TailIsRead(uri: Bytes, certificate: ByteString, raw: int, sender: ByteString, receiver: ByteString,
      s: Bytes, r: int, e: Envelope)
    ensures DecodeTail(uri, certificate, raw, sender, receiver, s) == Ok((r, e)) <==>
      && r == raw && SignatureLength(uri) == Some(|e.signature|) && s == e.payload + e.signature
      && e == Envelope(uri, certificate, FromTicks(raw), sender, receiver, e.payload, e.signature)
  {
    hide SignatureLength;
    match SignatureLength(uri) {
      case None =>
      case Some(n) =>
        if |s| >= n {
          assert s == s[..|s| - n] + s[|s| - n..];
        }
        if s == e.payload + e.signature && |e.signature| == n {
          assert s[..|s| - n] == e.payload && s[|s| - n..] == e.signature;
        }
    }
  }

  /** The body with its pieces grouped as they are read. */
  lemma BodyGroups(e: Envelope, raw: int)
    requires IsI64(raw) && |KeyData(e)| < 0x1_0000
    ensures Body(e, raw) + e.signature
      == EncodeByteString(Some(e.uri)) + (EncodeByteString(e.certificate)
         + (LeI64(raw) + (KeyBlock(e.senderKey, e.receiverKey) + (e.payload + e.signature))))
  {
    hide EncodeByteString, LeI64, Le16;
  }

  lemma BodyIsRead(s: Bytes, lim: Limits, raw: int, e: Envelope)
    ensures DecodeBody(s, lim) == Ok((raw, e)) <==>
      Proper(e, lim) && IsI64(raw) && e.signingTime == FromTicks(raw) && s == Body(e, raw) + e.signature
  {
    hide ReadText, Text, ReadByteString, EncodeByteString, Readable, ReadI64, LeI64, DecodeKeys, KeyBlock, DecodeTail, SignatureLength, Body;
    if Proper(e, lim) && IsI64(raw) && e.signingTime == FromTicks(raw) && s == Body(e, raw) + e.signature {
      BodyGroups(e, raw);
      var s4 := e.payload + e.signature;
      var s3 := KeyBlock(e.senderKey, e.receiverKey) + s4;
      var s2 := LeI64(raw) + s3;
      var s1 := EncodeByteString(e.certificate) + s2;
      ReadTextIff(s, lim, Some(e.uri), s1);
      ReadByteStringIff(s1, lim.maxBytes, e.certificate, s2);
      ReadI64Iff(s2, raw, s3);
      KeysAreRead(s3, lim, e.senderKey, e.receiverKey, s4);
      TailIsRead(e.uri, e.certificate, raw, e.senderKey, e.receiverKey, s4, raw, e);
    }
    if DecodeBody(s, lim) == Ok((raw, e)) {
      BodyWasWritten(s, lim, raw, e);
    }
  }

  lemma BodyWasWritten(s: Bytes, lim: Limits, raw: int, e: Envelope)
    requires DecodeBody(s, lim) == Ok((raw, e))
    ensures Proper(e, lim) && IsI64(raw) && e.signingTime == FromTicks(raw) && s == Body(e, raw) + e.signature
  {
    hide ReadText, Text, ReadByteString, EncodeByteString, Readable, ReadI64, LeI64, DecodeKeys, KeyBlock, DecodeTail, SignatureLength, Body;
    var r0 := ReadText(s, lim);
    ReadTextIff(s, lim, r0.value, r0.rest);
    var r1 := ReadByteString(r0.rest, lim.maxBytes);
    ReadByteStringIff(r0.rest, lim.maxBytes, r1.value, r1.rest);
    var r2 := ReadI64(r1.rest);
    ReadI64Iff(r1.rest, r2.value, r2.rest);
    var keys := DecodeKeys(r2.rest, lim).value;
    KeysAreRead(r2.rest, lim, keys.0, keys.1, keys.2);
    TailIsRead(r0.value.value, r1.value, r2.value, keys.0, keys.1, keys.2, raw, e);
    BodyGroups(e, raw);
  }

  /** What is accepted, and as what: a node id, the mask, the length of the body and the body.  Neither
    the value of the node id nor anything after the body matters. */
  lemma PartsAreRead(s: Bytes, lim: Limits, p: Parts)
    ensures DecodeParts(s, lim) == Ok(p) <==>
      var e := p.envelope;
      && ReadNodeId(s, lim).Got? && ReadNodeId(s, lim).value == p.id
      && Proper(e, lim) && IsI64(p.raw) && e.signingTime == FromTicks(p.raw)
      && var body := Body(e, p.raw) + e.signature;
      && |body| <= MAX_I32 && s == p.id + ([1] + (LeI32(|body|) + (body + p.trailing)))
  {
    hide ReadNodeId, DecodeBody, Body, ReadI32, LeI32, Proper, SignatureLength;
    var e := p.envelope;
    if ReadNodeId(s, lim).Got? {
      NodeIdIsPrefix(s, lim);
    }
    if && ReadNodeId(s, lim).Got? && ReadNodeId(s, lim).value == p.id
       && Proper(e, lim) && IsI64(p.raw) && e.signingTime == FromTicks(p.raw) {
      ProperKeys(e, lim);
      var body := Body(e, p.raw) + e.signature;
      BodyIsRead(body, lim, p.raw, e);
      if |body| <= MAX_I32 && s == p.id + ([1] + (LeI32(|body|) + (body + p.trailing))) {
        var rest := [1] + (LeI32(|body|) + (body + p.trailing));
        SamePrefix(p.id, ReadNodeId(s, lim).rest, rest);
        assert rest[1..] == LeI32(|body|) + (body + p.trailing);
        ReadI32Iff(rest[1..], |body|, body + p.trailing);
        assert (body + p.trailing)[..|body|] == body && (body + p.trailing)[|body|..] == p.trailing;
      }
    }
    if DecodeParts(s, lim) == Ok(p) {
      PartsWereWritten(s, lim, p);
    }
  }

  lemma SamePrefix(a: Bytes, b: Bytes, c: Bytes)
    requires a + b == a + c
    ensures b == c
  {
    assert (a + b)[|a|..] == b && (a + c)[|a|..] == c;
  }

  lemma ProperKeys(e: Envelope, lim: Limits)
    requires Proper(e, lim)
    ensures |KeyData(e)| < 0x1_0000
  {
  }

  lemma PartsWereWritten(s: Bytes, lim: Limits, p: Parts)
    requires DecodeParts(s, lim) == Ok(p)
    ensures
      var e := p.envelope;
      && ReadNodeId(s, lim).Got? && ReadNodeId(s, lim).value == p.id
      && Proper(e, lim) && IsI64(p.raw) && e.signingTime == FromTicks(p.raw)
      && var body := Body(e, p.raw) + e.signature;
      && |body| <= MAX_I32 && s == p.id + ([1] + (LeI32(|body|) + (body + p.trailing)))
  {
    hide ReadNodeId, DecodeBody, Body, ReadI32, LeI32, Proper, SignatureLength;
    NodeIdIsPrefix(s, lim);
    var after := ReadNodeId(s, lim).rest;
    var n := ReadI32(after[1..]);
    ReadI32Iff(after[1..], n.value, n.rest);
    var body := n.rest[..n.value];
    BodyIsRead(body, lim, p.raw, p.envelope);
    ProperKeys(p.envelope, lim);
    assert after == [1] + after[1..] && n.rest == body + p.trailing;
  }

  // ---- Main results --------------------------------------------------------------------------

  lemma BodySize(e: Envelope, raw: int)
    requires IsI64(raw) && |KeyData(e)| < 0x1_0000 && SignatureLength(e.uri).Some?
    ensures |Body(e, raw)| + SignatureLength(e.uri).value == BodyLength(e)
  {
    hide LeI32, LeI64, Le16, KeyData, SignatureLength;
  }

  lemma TicksFit(t: int)
    ensures IsI64(ToTicks(t))
    ensures FromTicks(ToTicks(t)) == t <==> 0 <= t <= END_TICKS
    ensures ToTicks(FromTicks(ToTicks(t))) == ToTicks(t) <==> t <= END_TICKS
  {
  }

  /** The declared length is the number of bytes after it, with a signature of the policy's length
    counted in the place of the one the envelope holds. */
  lemma DeclaredLength(e: Envelope)
    requires DataToSign(e).Ok?
    ensures
      var b := DataToSign(e).value;
      && |b| >= 9 && I32(b[5..9]) == |b| - 9 + SignatureLength(e.uri).value
      && (I32(b[5..9]) == |Encode(e).value| - 9 <==> |e.signature| == SignatureLength(e.uri).value)
  {
    hide LeI32, I32, Body, SignatureLength;
    TicksFit(e.signingTime);
    BodySize(e, ToTicks(e.signingTime));
    var b := DataToSign(e).value;
    assert b[5..9] == LeI32(BodyLength(e));
    LeI32Inverse(BodyLength(e), b[5..9]);
  }

  /** An encoded envelope, in the shape in which it is read. */
  lemma EncodedShape(e: Envelope, lim: Limits)
    requires Encode(e).Ok? && Proper(e, lim)
    ensures
      var raw := ToTicks(e.signingTime);
      DecodeParts(Encode(e).value, lim) == Ok(Parts(TYPE_ID, raw, e.(signingTime := FromTicks(raw)), []))
  {
    hide LeI32, Body, SignatureLength, Proper, DecodeParts, ReadNodeId;
    var raw := ToTicks(e.signingTime);
    var f := e.(signingTime := FromTicks(raw));
    TicksFit(e.signingTime);
    BodySize(e, raw);
    ProperSignature(e, lim);
    SameButTime(e, lim, f.signingTime);
    BodyIgnoresTime(e, raw, f.signingTime);
    var body := Body(e, raw) + e.signature;
    var b := Encode(e).value;
    assert b == TYPE_ID + ([1] + (LeI32(|body|) + (body + [])));
    TypeIdIsRead([1] + (LeI32(|body|) + (body + [])), lim);
    PartsAreRead(b, lim, Parts(TYPE_ID, raw, f, []));
  }

  lemma ProperSignature(e: Envelope, lim: Limits)
    requires Proper(e, lim)
    ensures SignatureLength(e.uri) == Some(|e.signature|)
  {
  }

  lemma SameButTime(e: Envelope, lim: Limits, t: int)
    ensures Proper(e.(signingTime := t), lim) <==> Proper(e, lim)
  {
    hide EncodeByteString, Readable, Text, SignatureLength;
  }

  lemma BodyIgnoresTime(e: Envelope, raw: int, t: int)
    requires IsI64(raw) && |KeyData(e)| < 0x1_0000
    ensures |KeyData(e.(signingTime := t))| < 0x1_0000 && Body(e.(signingTime := t), raw) == Body(e, raw)
  {
    hide EncodeByteString, LeI64, Le16;
  }

  /** Reading back what was written gives the envelope exactly when the signature has the length of the
    policy, the time lies in the representable range and the strings are within the limits. */
  lemma RoundTripIff(e: Envelope, lim: Limits)
    requires Encode(e).Ok?
    ensures Decode(Encode(e).value, lim) == Ok(e) <==> Proper(e, lim) && 0 <= e.signingTime <= END_TICKS
  {
    hide Encode, Proper, DecodeParts;
    TicksFit(e.signingTime);
    if Proper(e, lim) {
      EncodedShape(e, lim);
    }
    if Decode(Encode(e).value, lim) == Ok(e) {
      var p := DecodeParts(Encode(e).value, lim).value;
      DecodedIsProper(Encode(e).value, lim);
    }
  }

  lemma DecodedIsProper(s: Bytes, lim: Limits)
    requires DecodeParts(s, lim).Ok?
    ensures Proper(DecodeParts(s, lim).value.envelope, lim)
  {
    hide DecodeParts, Body, LeI32, ReadNodeId, Proper;
    PartsAreRead(s, lim, DecodeParts(s, lim).value);
  }

  /** Filling in a signature of the policy's length changes neither what is signed nor its acceptance. */
  lemma SignerSignsWhatIsSent(e: Envelope, signature: Bytes)
    requires DataToSign(e.(signature := [])).Ok? && SignatureLength(e.uri) == Some(|signature|)
    ensures DataToSign(e.(signature := signature)) == DataToSign(e.(signature := []))
    ensures Encode(e.(signature := signature)) == Ok(DataToSign(e.(signature := [])).value + signature)
  {
    hide LeI32, LeI64, Le16, EncodeByteString, SignatureLength;
  }

  /** The verifier recomputes the bytes to sign from what it read.  They are the bytes that were signed
    exactly when the time does not lie past the last representable one. */
  lemma VerifierChecksWhatWasSigned(e: Envelope, lim: Limits)
    requires Encode(e).Ok? && Proper(e, lim)
    ensures
      var read := Decode(Encode(e).value, lim);
      && read.Ok? && read.value.signature == e.signature
      && (DataToSign(read.value) == DataToSign(e) <==> e.signingTime <= END_TICKS)
  {
    hide DecodeParts, Proper;
    EncodedShape(e, lim);
    TicksFit(e.signingTime);
    var t := FromTicks(ToTicks(e.signingTime));
    SigningTimeShows(e, t);
  }

  /** Two times give the same bytes to sign exactly when they are written alike. */
  lemma SigningTimeShows(e: Envelope, t: int)
    requires DataToSign(e).Ok?
    ensures DataToSign(e.(signingTime := t)).Ok?
    ensures DataToSign(e.(signingTime := t)) == DataToSign(e) <==> ToTicks(t) == ToTicks(e.signingTime)
  {
    var a, b := ToTicks(e.signingTime), ToTicks(t);
    TicksFit(e.signingTime);
    TicksFit(t);
    hide LeI32, LeI64, Le16, EncodeByteString, ToTicks, SignatureLength;
    if DataToSign(e.(signingTime := t)) == DataToSign(e) {
      var before := TYPE_ID + [1] + LeI32(BodyLength(e)) + (EncodeByteString(Some(e.uri)) + EncodeByteString(e.certificate));
      var after := Le16(|KeyData(e)|) + KeyData(e) + e.payload;
      assert DataToSign(e).value == before + (LeI64(a) + after);
      assert DataToSign(e.(signingTime := t)).value == before + (LeI64(b) + after);
      SamePrefix(before, LeI64(a) + after, LeI64(b) + after);
      assert (LeI64(a) + after)[..8] == LeI64(a) && (LeI64(b) + after)[..8] == LeI64(b);
      LeI64Inverse(a, LeI64(a));
      LeI64Inverse(b, LeI64(a));
    }
  }

  /** Writing out what was read gives the input back exactly when the input is canonical: the type id
    of the envelope in its short form, a time within the range, and nothing after the body. */
  lemma RewritingIff(s: Bytes, lim: Limits)
    requires DecodeParts(s, lim).Ok?
    ensures
      var p := DecodeParts(s, lim).value;
      Encode(p.envelope) == Ok(s) <==> p.id == TYPE_ID && 0 <= p.raw <= END_TICKS && p.trailing == []
  {
    hide DecodeParts, Proper, LeI32, Body, SignatureLength, ReadNodeId, Encode;
    var p := DecodeParts(s, lim).value;
    var e := p.envelope;
    PartsAreRead(s, lim, p);
    ProperSignature(e, lim);
    ProperKeys(e, lim);
    BodySize(e, p.raw);
    TicksFit(e.signingTime);
    if p.id == TYPE_ID && 0 <= p.raw <= END_TICKS && p.trailing == [] {
      Written(e, p.raw);
      assert s == TYPE_ID + [1] + LeI32(BodyLength(e)) + Body(e, p.raw) + e.signature;
    }
    if Encode(e) == Ok(s) {
      EncodedShape(e, lim);
      assert p.raw == ToTicks(e.signingTime);
    }
  }

  lemma Written(e: Envelope, raw: int)
    requires 0 <= raw <= END_TICKS && e.signingTime == raw && SignatureLength(e.uri) == Some(|e.signature|)
    requires |KeyData(e)| < 0x1_0000 && BodyLength(e) <= MAX_I32
    ensures Encode(e) == Ok(TYPE_ID + [1] + LeI32(BodyLength(e)) + Body(e, raw) + e.signature)
  {
    hide LeI32, Body, SignatureLength, KeyData;
  }

  // ---- Byte for byte ---------------------------------------------------------------------------

  /** A length, lowest byte first, and the bytes; all ones for the null string. */
  ghost predicate WrittenAs(v: ByteString, s: Bytes) {
    match v
    case None => s == [0xFF, 0xFF, 0xFF, 0xFF]
    case Some(bytes) => |s| == 4 + |bytes| && MakesU32(s[..4], |bytes|) && s[4..] == bytes
  }

  lemma StringIsWritten(v: ByteString)
    requires v.Some? ==> |v.value| <= MAX_I32
    ensures WrittenAs(v, EncodeByteString(v))
  {
    hide LeI32, MakesU32;
    NullIsWritten();
    LengthIsWritten(if v.Some? then |v.value| else 0);
  }

  /** The bytes to sign, piece by piece: node id 17546, the mask, the length of what follows, policy,
    certificate, ticks, length of the keys, the keys and the payload. */
  lemma SignedLayout(e: Envelope)
    returns (n: Bytes, uri: Bytes, certificate: Bytes, time: Bytes, k: Bytes, sender: Bytes, receiver: Bytes)
    requires DataToSign(e).Ok?
    ensures DataToSign(e).value
      == [0x01, 0x00, 0x8A, 0x44] + [0x01] + n + (uri + certificate + time + k + (sender + receiver) + e.payload)
    ensures MakesU32(n, |DataToSign(e).value| - 9 + SignatureLength(e.uri).value)
    ensures WrittenAs(Some(e.uri), uri) && WrittenAs(e.certificate, certificate)
    ensures WrittenAs(e.senderKey, sender) && WrittenAs(e.receiverKey, receiver) && MakesU16(k, |sender + receiver|)
    ensures
      var t := e.signingTime;
      IsTicks(time, if t < 0 then 0 else if t > 2650467743990000000 then 0x7FFF_FFFF_FFFF_FFFF else t)
  {
    hide LeI32, LeI64, Le16, EncodeByteString, SignatureLength, WrittenAs;
    n, uri, certificate := LeI32(BodyLength(e)), EncodeByteString(Some(e.uri)), EncodeByteString(e.certificate);
    time, k := LeI64(ToTicks(e.signingTime)), Le16(|KeyData(e)|);
    sender, receiver := EncodeByteString(e.senderKey), EncodeByteString(e.receiverKey);
    LengthsFit(e);
    StringIsWritten(Some(e.uri));
    StringIsWritten(e.certificate);
    StringIsWritten(e.senderKey);
    StringIsWritten(e.receiverKey);
    LengthIsWritten(BodyLength(e));
    TwoBytes(|KeyData(e)|);
    BodySize(e, ToTicks(e.signingTime));
    TicksAreWritten(ToTicks(e.signingTime));
  }

  ghost predicate IsTicks(s: Bytes, t: int) {
    |s| == 8 && exists low: nat, high: nat :: MakesU32(s[..4], low) && MakesU32(s[4..], high) && t == low + TWO32 * high
  }

  lemma NullIsWritten()
    ensures LeI32(-1) == [0xFF, 0xFF, 0xFF, 0xFF]
  {
    hide Le;
    var s: Bytes := [0xFF, 0xFF, 0xFF, 0xFF];
    var n := FourAreUnsigned(s);
    assert Unsigned(s[4..]) == 0 && s[..4] == s;
    LeI32Inverse(-1, s);
  }

  lemma LengthIsWritten(n: nat)
    requires n <= MAX_I32
    ensures MakesU32(LeI32(n), n)
  {
    FourBytes(n);
  }

  lemma TicksAreWritten(t: int)
    requires 0 <= t <= MAX_I64
    ensures IsTicks(LeI64(t), t)
  {
    var low, high := EightBytes(t);
  }

  lemma LengthsFit(e: Envelope)
    requires DataToSign(e).Ok?
    ensures |e.uri| <= MAX_I32 && (e.certificate.Some? ==> |e.certificate.value| <= MAX_I32)
    ensures e.senderKey.Some? ==> |e.senderKey.value| <= MAX_I32
    ensures e.receiverKey.Some? ==> |e.receiverKey.value| <= MAX_I32
  {
    hide LeI32, SignatureLength;
  }

  /** The policy decides the length of the signature, for P-256 and P-384; there are no others. */
  lemma PolicyDecidesSignature(s: Bytes, lim: Limits, e: Envelope)
    ensures Decode(s, lim) == Ok(e) ==>
      || (e.uri == Ascii("http://opcfoundation.org/UA/SecurityPolicy#ECC_nistP256") && |e.signature| == 64)
      || (e.uri == Ascii("http://opcfoundation.org/UA/SecurityPolicy#ECC_nistP384") && |e.signature| == 96)
    ensures Encode(e) == Err(BadSecurityPolicyRejected) <==>
      && e.uri != Ascii("http://opcfoundation.org/UA/SecurityPolicy#ECC_nistP256")
      && e.uri != Ascii("http://opcfoundation.org/UA/SecurityPolicy#ECC_nistP384")
  {
    hide DecodeParts, Ascii, LeI32, Body;
    if Decode(s, lim) == Ok(e) {
      DecodedIsProper(s, lim);
    }
  }

  function Size(v: ByteString): nat {
    if v.Some? then |v.value| else 0
  }

  /** What is refused for its lengths: a signature longer than everything else together makes it panic; a body
    past i32 or key data past u16 is an invalid argument. */
  lemma LengthsRefused(e: Envelope, n: nat)
    requires SignatureLength(e.uri) == Some(n)
    ensures
      var keys := 8 + Size(e.senderKey) + Size(e.receiverKey);
      var body := |e.uri| + Size(e.certificate) + keys + |e.payload| + n + 18;
      Encode(e) == (if |e.signature| > 9 + body then Err(Panicked)
                    else if body > 0x7FFF_FFFF || keys > 0xFFFF then Err(BadInvalidArgument)
                    else Ok(DataToSign(e).value + e.signature))
  {
    hide LeI32, SignatureLength, Body;
  }

  // ---- Two inputs on which reading and writing part ----------------------------------------------

  function Sample(time: int): Envelope {
    Envelope(P256_URI, None, time, None, None, [], seq(64, _ => 0))
  }

  const SAMPLE_LIMITS := Limits(100, 100, _ => true)

  lemma SampleIsProper(time: int)
    ensures Encode(Sample(time)).Ok? && Proper(Sample(time), SAMPLE_LIMITS)
  {
    hide LeI32, LeI64, Le16, Body;
    assert |P256_URI| == 55;
    assert |KeyData(Sample(time))| == 8;
  }

  /** A time one tick past the end is read as the end, and other bytes are checked than were signed. */
  lemma LateTimeIsNotVerified()
    ensures
      var e := Sample(END_TICKS + 1);
      var read := Decode(Encode(e).value, SAMPLE_LIMITS);
      Encode(e).Ok? && read == Ok(Sample(END_TICKS)) && DataToSign(read.value) != DataToSign(e)
  {
    hide Encode, Proper, DecodeParts, DataToSign;
    var e := Sample(END_TICKS + 1);
    SampleIsProper(END_TICKS + 1);
    EncodedShape(e, SAMPLE_LIMITS);
    VerifierChecksWhatWasSigned(e, SAMPLE_LIMITS);
  }

  /** Another type id and a byte after the body: the envelope is read all the same. */
  lemma ForeignFrameIsRead()
    ensures
      var e := Sample(0);
      Encode(e).Ok? && |Encode(e).value| >= 4
      && var s := [0x00, 0x07] + Encode(e).value[4..] + [0xFF];
      Decode(s, SAMPLE_LIMITS) == Ok(e) && Encode(e) != Ok(s)
  {
    hide LeI32, Body, SignatureLength, Proper, DecodeParts, ReadNodeId;
    var e, raw := Sample(0), 0;
    SampleIsProper(0);
    TicksFit(0);
    BodySize(e, raw);
    ProperSignature(e, SAMPLE_LIMITS);
    ProperKeys(e, SAMPLE_LIMITS);
    var body := Body(e, raw) + e.signature;
    var rest := [1] + (LeI32(|body|) + (body + [0xFF]));
    assert Encode(e).value[4..] + [0xFF] == rest;
    var s := [0x00, 0x07] + Encode(e).value[4..] + [0xFF];
    assert s == [0x00, 0x07] + rest;
    ShortIdIsRead(0x07, rest, SAMPLE_LIMITS);
    PartsAreRead(s, SAMPLE_LIMITS, Parts([0x00, 0x07], raw, e, [0xFF]));
    assert s[0] == 0x00 && Encode(e).value[0] == 0x01;
  }

  lemma ShortIdIsRead(value: Byte, rest: Bytes, lim: Limits)
    ensures ReadNodeId([0x00, value] + rest, lim) == Got([0x00, value], rest)
  {
    ReadBytesIff([0x00, value] + rest, 2, [0x00, value], rest);
  }
}
