/** What the handshake and the signatures promise in plain bytes and hashes: whom the server lets in, what the
    client sends and refuses, which keys a session gets, and what a signature covers. ([MS-NLMP] sections
    2.2.2.7, 2.2.2.9, 3.3.2 and 3.4.4.) */
module NtlmLaws {
  import opened Bytes
  import opened Utf16
  import opened AvPairs
  import opened NtlmSession
  import opened NtlmSpec
  import opened NtlmAgreement
  import NtlmHandshake

  // ----- exclusive or -----

  /** Bit by bit. */
  lemma XorByteBits(a: byte, b: byte, k: nat)
    ensures Bit(XorByte(a, b), k) <==> Bit(a, k) != Bit(b, k)
  {
    BitXor(a, b, k);
  }

  lemma StreamInjective(c: Primitives, h: Rc4, x: Bytes, y: Bytes)
    requires XorStream(c, h, x) == XorStream(c, h, y)
    ensures x == y
  {
    XorStreamTwice(c, h, x);
    XorStreamTwice(c, h, y);
  }

  // ----- signatures -----

  /** The cipher and the key of the messages that a side sends. */
  function OwnHandle(s: SessionState): Rc4 { if s.isClientSide then s.clientHandle else s.serverHandle }
  function OwnKey(s: SessionState): Bytes { if s.isClientSide then s.clientSigningKey else s.serverSigningKey }

  /** The session with its own cipher n bytes further. */
  function Used(s: SessionState, n: nat): SessionState {
    var h := OwnHandle(s);
    if s.isClientSide then s.(clientHandle := Rc4(h.key, h.used + n)) else s.(serverHandle := Rc4(h.key, h.used + n))
  }

  /** With extended session security (bit 19): 1, the first 8 bytes of the keyed hash over sequence number and
      message, encrypted if keys were exchanged (bit 30), and the sequence number. */
  lemma ExtendedSignature(c: Primitives, s: SessionState, msg: Bytes, n: nat)
    requires Bit(s.negotiateFlags, 4) && Bit(s.negotiateFlags, 19)
    ensures var (sum, next, s') := SumOf(c, s, msg, n);
            var (h, hash) := (OwnHandle(s), c.hmac(OwnKey(s), LE32(n) + msg));
            && sum.Some? && |sum.value| == 16 && sum.value[..4] == [1, 0, 0, 0] && sum.value[12..] == LE32(n)
            && (forall i :: 0 <= i < 8 ==>
                  sum.value[4 + i] == if Bit(s.negotiateFlags, 30) then XorByte(hash[i], c.stream(h.key, h.used + i)) else hash[i])
            && next == (n + 1) % 0x1_0000_0000
            && s' == if Bit(s.negotiateFlags, 30) then Used(s, 8) else Used(s, 0)
  {
    hide LE32, Bit;
    OneIs();
  }

  /** Without it: 1, four zeros, the encrypted checksum of the message, and the encrypted sequence number. */
  lemma PlainSignature(c: Primitives, s: SessionState, msg: Bytes, n: nat)
    requires Bit(s.negotiateFlags, 4) && !Bit(s.negotiateFlags, 19)
    ensures var (sum, next, s') := SumOf(c, s, msg, n);
            var h := OwnHandle(s);
            && sum.Some? && |sum.value| == 16 && sum.value[..4] == [1, 0, 0, 0] && sum.value[4..8] == [0, 0, 0, 0]
            && (forall i :: 0 <= i < 4 ==> sum.value[8 + i] == XorByte(LE32(c.crc32(msg))[i], c.stream(h.key, h.used + 4 + i)))
            && (forall i :: 0 <= i < 4 ==> sum.value[12 + i] == XorByte(XorByte(0, c.stream(h.key, h.used + 8 + i)), LE32(n)[i]))
            && next == (if Bit(s.negotiateFlags, 6) then n else (n + 1) % 0x1_0000_0000)
            && s' == Used(s, 12)
  {
    hide LE32, Bit, XorByte;
    OneIs();
  }

  /** The receiver's side: whatever the verdict the peer's cipher moves on as it does for the sender; a refusal
      answers sequence number 0. */
  lemma CheckMovesOn(c: Primitives, s: SessionState, sum: Option<Bytes>, msg: Bytes, n: nat)
    requires Bit(s.negotiateFlags, 4)
    ensures var (ok, next, s') := CheckOf(c, s, sum, msg, n);
            var steps := if !Bit(s.negotiateFlags, 19) then 12 else if Bit(s.negotiateFlags, 30) then 8 else 0;
            var still := !Bit(s.negotiateFlags, 19) && Bit(s.negotiateFlags, 6);
            && next == (if !ok then 0 else if still then n else (n + 1) % 0x1_0000_0000)
            && s' == (if s.isClientSide then s.(serverHandle := Rc4(s.serverHandle.key, s.serverHandle.used + steps))
                      else s.(clientHandle := Rc4(s.clientHandle.key, s.clientHandle.used + steps)))
            && (sum.None? ==> !ok)
  {
    hide Bit, Tag;
  }

  lemma OneIs()
    ensures LE32(1) == [1, 0, 0, 0] && Zeros(4) == [0, 0, 0, 0]
  {
  }

  /** Without signing there is no signature, and nothing moves on. */
  lemma NoSignature(c: Primitives, s: SessionState, msg: Bytes, n: nat, sum: Option<Bytes>)
    requires !Bit(s.negotiateFlags, 4)
    ensures SumOf(c, s, msg, n) == (None, 0, s)
    ensures CheckOf(c, s, sum, msg, n) == (sum.None?, 0, s)
    ensures |msg| >= 16 ==> UnsealOf(c, s, msg, n) == if msg[..16] == Zeros(16) then (Some(msg[16..]), n, s) else (None, 0, s)
  {
  }

  /** A signature covers the message: the peer of the sender, in the same state, accepts it for another message if
      and only if the two have the same truncated hash, or without extended session security the same checksum. */
  lemma SignatureCovers(c: Primitives, a: SessionState, b: SessionState, msg: Bytes, msg': Bytes, n: nat, fromClient: bool)
    requires SameLine(a, b, fromClient) && Bit(a.negotiateFlags, 4)
    ensures var (from, to) := if fromClient then (a, b) else (b, a);
            CheckOf(c, to, SumOf(c, from, msg, n).0, msg', n).0 <==>
              if Bit(a.negotiateFlags, 19) then
                c.hmac(OwnKey(from), LE32(n) + msg)[..8] == c.hmac(OwnKey(from), LE32(n) + msg')[..8]
              else LE32(c.crc32(msg)) == LE32(c.crc32(msg'))
  {
    hide Bit, LE32, Tag;
    var (from, to) := if fromClient then (a, b) else (b, a);
    var l := Line(OwnHandle(from), n);
    if Bit(a.negotiateFlags, 19) {
      ExtendedTags(c, a.negotiateFlags, OwnKey(from), l, msg, msg');
    } else {
      PlainTags(c, a.negotiateFlags, OwnKey(from), l, msg, msg');
    }
  }

  lemma ExtendedTags(c: Primitives, flags: nat, key: Bytes, l: Line, x: Bytes, y: Bytes)
    requires Bit(flags, 19)
    ensures Tag(c, flags, key, l, x) == Tag(c, flags, key, l, y) <==>
            c.hmac(key, LE32(l.seqNum) + x)[..8] == c.hmac(key, LE32(l.seqNum) + y)[..8]
  {
    hide Bit, LE32, XorStream;
    var s, t := c.hmac(key, LE32(l.seqNum) + x)[..8], c.hmac(key, LE32(l.seqNum) + y)[..8];
    Middle(LE32(1), s, t, LE32(l.seqNum));
    Middle(LE32(1), XorStream(c, l.cipher, s), XorStream(c, l.cipher, t), LE32(l.seqNum));
    if XorStream(c, l.cipher, s) == XorStream(c, l.cipher, t) { StreamInjective(c, l.cipher, s, t); }
  }

  lemma PlainTags(c: Primitives, flags: nat, key: Bytes, l: Line, x: Bytes, y: Bytes)
    requires !Bit(flags, 19)
    ensures Tag(c, flags, key, l, x) == Tag(c, flags, key, l, y) <==> LE32(c.crc32(x)) == LE32(c.crc32(y))
  {
    hide Bit, LE32, XorStream, XorBytes, Zeros;
    var h := Advance(l.cipher, 4);
    var s, t := LE32(c.crc32(x)), LE32(c.crc32(y));
    Middle(LE32(1) + Zeros(4), XorStream(c, h, s), XorStream(c, h, t), XorBytes(XorStream(c, Advance(l.cipher, 8), Zeros(4)), LE32(l.seqNum)));
    if XorStream(c, h, s) == XorStream(c, h, t) { StreamInjective(c, h, s, t); }
  }

  lemma Middle(p: Bytes, x: Bytes, y: Bytes, q: Bytes)
    requires |x| == |y|
    ensures p + x + q == p + y + q <==> x == y
  {
    assert (p + x + q)[|p|..|p| + |x|] == x && (p + y + q)[|p|..|p| + |y|] == y;
  }

  /** Sign-only sealing sends the signature and the message itself. */
  lemma SealedBytes(c: Primitives, s: SessionState, msg: Bytes, n: nat)
    requires Bit(s.negotiateFlags, 4)
    ensures var sum := SumOf(c, s, msg, n).0;
            sum.Some? && SealOf(c, s, msg, n).0 == sum.value + msg
  {
  }

  /** So a sealed message whose body was altered is opened only if the hashes collide. */
  lemma AlteredMessageIsRefused(c: Primitives, a: SessionState, b: SessionState, msg: Bytes, msg': Bytes, n: nat, fromClient: bool)
    requires SameLine(a, b, fromClient) && Bit(a.negotiateFlags, 4) && Bit(a.negotiateFlags, 19)
    ensures var (from, to) := if fromClient then (a, b) else (b, a);
            var sealed := SealOf(c, from, msg, n).0;
            && |sealed| == 16 + |msg|
            && (UnsealOf(c, to, sealed[..16] + msg', n).0.Some? <==>
                c.hmac(OwnKey(from), LE32(n) + msg)[..8] == c.hmac(OwnKey(from), LE32(n) + msg')[..8])
  {
    hide Bit, LE32;
    var (from, to) := if fromClient then (a, b) else (b, a);
    var sum := SumOf(c, from, msg, n).0;
    ExtendedSignature(c, from, msg, n);
    SealedBytes(c, from, msg, n);
    SignatureCovers(c, a, b, msg, msg', n, fromClient);
    hide SumOf, CheckOf;
    var sealed := SealOf(c, from, msg, n).0;
    assert sealed[..16] == sum.value;
    var altered := sealed[..16] + msg';
    assert altered[..16] == sum.value && altered[16..] == msg';
  }

  // ----- keys -----

  lemma AsciiCodes(s: string)
    ensures |Ascii(s)| == |s| && forall i :: 0 <= i < |s| && s[i] < 256 as char ==> Ascii(s)[i] == s[i] as int
  {
  }

  /** Signing and sealing keys by the negotiated flags: extended session security is bit 19, 128-bit keys are bit
      29, 56-bit keys bit 31, the old LM key bit 7. Each direction has its own. */
  lemma SessionKeys(c: Primitives, isClientSide: bool, flags: nat, user: Str, key: Digest)
    ensures var s := SessionFor(c, isClientSide, flags, user, key);
            && s.isClientSide == isClientSide && s.negotiateFlags == flags && s.user == user && s.exportedSessionKey == key
            && s.clientHandle.used == 0 && s.serverHandle.used == 0
            && (Bit(flags, 19) ==>
                  && s.clientSigningKey == c.md5(key + Ascii("session key to client-to-server signing key magic constant\0"))
                  && s.serverSigningKey == c.md5(key + Ascii("session key to server-to-client signing key magic constant\0"))
                  && var k := if Bit(flags, 29) then key[..16] else if Bit(flags, 31) then key[..7] else key[..5];
                     && s.clientHandle.key == c.md5(k + Ascii("session key to client-to-server sealing key magic constant\0"))
                     && s.serverHandle.key == c.md5(k + Ascii("session key to server-to-client sealing key magic constant\0")))
            && (!Bit(flags, 19) ==>
                  && s.clientSigningKey == [] && s.serverSigningKey == []
                  && s.clientHandle.key == s.serverHandle.key
                  && s.clientHandle.key == if !Bit(flags, 7) then key
                                           else if Bit(flags, 31) then key[..7] + [0xa0] else key[..5] + [0xe5, 0x38, 0xb0])
  {
    assert key[..16] == key;
    hide Bit, Ascii;
  }

  // ----- message fields -----

  /** A field is read if and only if its length is within its maximum and its end, a uint32, within the message;
      it panics if that end has wrapped to before its start. */
  lemma FieldIff(m: Bytes, at: nat)
    requires at + 8 <= |m|
    ensures var len, max, lo := U16(m, at), U16(m, at + 2), U32(m, at + 4);
            var hi := (lo + len) % 0x1_0000_0000;
            && (Field(m, at).Done? <==> len <= max && lo <= hi <= |m|)
            && (Field(m, at).Done? ==> Field(m, at).value == m[lo..hi])
            && (Field(m, at).Panics? <==> len <= max && hi <= |m| && hi < lo)
  {
  }

  // ----- whom the server lets in -----

  /** The response proves the password: the first 16 bytes are the keyed hash, under the key made of password,
      user and domain, over the server's challenge and the rest, whose fixed parts are as the protocol has them. */
  ghost predicate Proves(c: Primitives, password: Str, user: Str, domain: Bytes, cmsg: Bytes, nt: Bytes) {
    && |nt| >= 44 && |cmsg| >= 32
    && nt[16..24] == [1, 1, 0, 0, 0, 0, 0, 0] && nt[40..44] == [0, 0, 0, 0]
    && nt[..16] == c.hmac(c.hmac(c.md4(Encode(password)), Encode(c.upper(user)) + domain), cmsg[24..32] + nt[16..])
  }

  lemma ResponseChecked(c: Primitives, password: Str, user: Str, domain: Bytes, cmsg: Bytes, nt: Bytes)
    requires |nt| >= 16
    ensures var key := c.hmac(c.md4(Encode(password)), Encode(c.upper(user)) + domain);
            var r := CheckResponse(c, key, cmsg, nt);
            && (r.Panics? <==> |nt| < 44 || |cmsg| < 32)
            && (r.Done? <==> Proves(c, password, user, domain, cmsg, nt))
            && (r.Done? ==> r.value == c.hmac(key, nt[..16]))
  {
    hide Encode;
    var key := c.hmac(c.md4(Encode(password)), Encode(c.upper(user)) + domain);
    if |nt| >= 44 && |cmsg| >= 32 {
      var blob := Blob(nt[24..32], nt[32..40], nt[44..]);
      BlobIs(nt);
      var proof := c.hmac(key, cmsg[24..32] + blob);
      SplitAt16(nt, proof, blob);
    }
  }

  /** The rest of a response is the blob of its own parts exactly when its fixed parts are right. */
  lemma BlobIs(nt: Bytes)
    requires |nt| >= 44
    ensures nt[16..] == Blob(nt[24..32], nt[32..40], nt[44..]) <==>
            nt[16..24] == [1, 1, 0, 0, 0, 0, 0, 0] && nt[40..44] == [0, 0, 0, 0]
  {
    var b := Blob(nt[24..32], nt[32..40], nt[44..]);
    assert [1, 1] + Zeros(6) == [1, 1, 0, 0, 0, 0, 0, 0] && Zeros(4) == [0, 0, 0, 0];
    assert b[..8] == [1, 1, 0, 0, 0, 0, 0, 0] && b[24..28] == [0, 0, 0, 0];
    assert nt[16..][..8] == nt[16..24] && nt[16..][24..28] == nt[40..44];
    if nt[16..24] == [1, 1, 0, 0, 0, 0, 0, 0] && nt[40..44] == [0, 0, 0, 0] {
      assert nt[16..] == nt[16..24] + nt[24..32] + nt[32..40] + nt[40..44] + nt[44..];
    }
  }

  lemma SplitAt16(nt: Bytes, proof: Bytes, blob: Bytes)
    requires |nt| >= 16 && |proof| == 16
    ensures nt == proof + blob <==> nt[..16] == proof && nt[16..] == blob
  {
    assert nt == nt[..16] + nt[16..];
  }

  /** What the target information says of a MIC: its flags value (id 6), if it has one. */
  ghost function MicFlags(info: Bytes): Option<Bytes> {
    if Parsed(info).None? then None else LastValue(Parsed(info).value, 6)
  }

  /** There is a MIC: bit 1 of the flags. It stands behind the version if the message has one (bit 25). */
  ghost predicate HasMic(info: Bytes) {
    var v := MicFlags(info);
    v.Some? && |v.value| >= 4 && Bit(U32(v.value, 0), 1)
  }

  /** Looking at the MIC reads beyond the flags value or the message. */
  ghost predicate MicOutside(flags: nat, m: Bytes, info: Bytes) {
    || (MicFlags(info).Some? && |MicFlags(info).value| < 4)
    || (HasMic(info) && |m| < (if Bit(flags, 25) then 88 else 80))
  }

  /** The MIC is the keyed hash over the three messages, its own field zero. */
  ghost predicate MicRight(c: Primitives, flags: nat, key: Bytes, nmsg: Bytes, cmsg: Bytes, m: Bytes, info: Bytes)
    requires !MicOutside(flags, m, info)
  {
    HasMic(info) ==>
      var at := if Bit(flags, 25) then 72 else 64;
      m[at..at + 16] == c.hmac(key, nmsg + cmsg + (m[..at] + Zeros(16) + m[at + 16..]))
  }

  lemma MicChecked(c: Primitives, flags: nat, key: Bytes, nmsg: Bytes, cmsg: Bytes, m: Bytes, info: Bytes)
    ensures var r := CheckMic(c, flags, key, nmsg, cmsg, m, info);
            && (r.Panics? <==> MicOutside(flags, m, info))
            && (r.Done? <==> !MicOutside(flags, m, info) && MicRight(c, flags, key, nmsg, cmsg, m, info))
  {
    hide Parsed, LastValue, Bit, U32;
  }

  /** The exported key: exchanged keys (bit 30) are decrypted under the base key. */
  function Exported(c: Primitives, flags: nat, base: Digest, encrypted: Bytes): Digest
    requires Bit(flags, 30) ==> |encrypted| <= 16
  {
    if Bit(flags, 30) then XorStream(c, Rc4(base, 0), encrypted) + Zeros(16 - |encrypted|) else base
  }

  /** The fields of an authenticate message that the server looks at. */
  ghost predicate Carries(m: Bytes, flags: nat, nt: Bytes, domain: Bytes, name: Bytes, encrypted: Bytes) {
    && |m| >= 64 && m[..8] == [78, 84, 76, 77, 83, 83, 80, 0] && U32(m, 8) == 3 && U32(m, 60) == flags
    && Field(m, 20) == Done(nt) && Field(m, 28) == Done(domain) && Field(m, 36) == Done(name) && Field(m, 52) == Done(encrypted)
  }

  /** Why a message with a name and a response is let in: the account exists or guests are allowed (then with an
      empty password), the response proves the password, the key and the MIC are there, and the MIC is right. */
  ghost predicate LetIn(c: Primitives, accounts: map<Str, Str>, guest: bool, nmsg: Bytes, cmsg: Bytes, m: Bytes,
                        flags: nat, nt: Bytes, domain: Bytes, user: Str, encrypted: Bytes)
  {
    var password := if user in accounts then accounts[user] else [];
    && (user in accounts || guest) && Proves(c, password, user, domain, cmsg, nt)
    && (Bit(flags, 30) ==> |encrypted| <= 16)
    && !MicOutside(flags, m, nt[44..])
    && MicRight(c, flags, Exported(c, flags, Base(c, password, user, domain, nt), encrypted), nmsg, cmsg, m, nt[44..])
  }

  /** The session base key. */
  function Base(c: Primitives, password: Str, user: Str, domain: Bytes, nt: Bytes): Digest
    requires |nt| >= 16
  {
    c.hmac(c.hmac(c.md4(Encode(password)), Encode(c.upper(user)) + domain), nt[..16])
  }

  /** Where the server panics on a message with a name and a response, once the user may log on: on a response too
      short for its parts, and, behind a right one, on a key too long or a MIC outside the message. */
  ghost predicate Breaks(c: Primitives, accounts: map<Str, Str>, guest: bool, cmsg: Bytes, m: Bytes,
                         flags: nat, nt: Bytes, domain: Bytes, user: Str, encrypted: Bytes)
  {
    var password := if user in accounts then accounts[user] else [];
    && (user in accounts || guest)
    && (|nt| < 44 || |cmsg| < 32 ||
        (Proves(c, password, user, domain, cmsg, nt) &&
         ((Bit(flags, 30) && |encrypted| > 16) || MicOutside(flags, m, nt[44..]))))
  }

  lemma UserDecided(c: Primitives, accounts: map<Str, Str>, guest: bool, nmsg: Bytes, cmsg: Bytes, m: Bytes,
                    flags: nat, nt: Bytes, domain: Bytes, user: Str, encrypted: Bytes)
    requires |nt| >= 16
    ensures var v := VerifyUser(c, accounts, guest, nmsg, cmsg, m, flags, nt, domain, user, encrypted);
            && (v.Done? <==> LetIn(c, accounts, guest, nmsg, cmsg, m, flags, nt, domain, user, encrypted))
            && (v.Panics? <==> Breaks(c, accounts, guest, cmsg, m, flags, nt, domain, user, encrypted))
            && (v.Done? ==>
                  var password := if user in accounts then accounts[user] else [];
                  v.value == SessionFor(c, false, flags, user, Exported(c, flags, Base(c, password, user, domain, nt), encrypted)))
  {
    hide Bit, Encode, Proves, MicOutside, MicRight, CheckResponse, CheckMic, SessionFor, XorStream;
    var password := if user in accounts then accounts[user] else [];
    ResponseChecked(c, password, user, domain, cmsg, nt);
    var key := c.hmac(c.md4(Encode(password)), Encode(c.upper(user)) + domain);
    var base := CheckResponse(c, key, cmsg, nt);
    if base.Done? {
      ProofLong(c, password, user, domain, cmsg, nt);
      if Bit(flags, 30) ==> |encrypted| <= 16 {
        MicChecked(c, flags, Exported(c, flags, base.value, encrypted), nmsg, cmsg, m, nt[44..]);
      }
    }
  }

  lemma ProofLong(c: Primitives, password: Str, user: Str, domain: Bytes, cmsg: Bytes, nt: Bytes)
    requires Proves(c, password, user, domain, cmsg, nt)
    ensures |nt| >= 44 && |cmsg| >= 32
  {
  }

  /** For every message whose fields can be read: with a name and a response of at least 16 bytes it is let in,
      panics or is refused as LetIn and Breaks say, and the session is the user's; otherwise it is a guest's if
      guests are allowed, and refused if not. */
  lemma ServerDecides(c: Primitives, accounts: map<Str, Str>, guest: bool, nmsg: Bytes, cmsg: Bytes, m: Bytes,
                      flags: nat, nt: Bytes, domain: Bytes, name: Bytes, encrypted: Bytes)
    requires Carries(m, flags, nt, domain, name, encrypted)
    ensures var v := Verify(c, accounts, guest, nmsg, cmsg, m);
            var user := Decode(name);
            if name != [] && |nt| >= 16 then
              && (v.Done? <==> LetIn(c, accounts, guest, nmsg, cmsg, m, flags, nt, domain, user, encrypted))
              && (v.Panics? <==> Breaks(c, accounts, guest, cmsg, m, flags, nt, domain, user, encrypted))
              && (v.Done? ==>
                    var password := if user in accounts then accounts[user] else [];
                    v.value == SessionFor(c, false, flags, user, Exported(c, flags, Base(c, password, user, domain, nt), encrypted)))
            else
              && (v.Done? <==> guest) && !v.Panics?
              && (v.Done? ==> v.value.user == [103, 117, 101, 115, 116] && !v.value.isClientSide && v.value.negotiateFlags == flags
                              && v.value.exportedSessionKey == Zeros(16) && v.value.clientSigningKey == [] && v.value.serverSigningKey == [])
  {
    hide VerifyUser, LetIn, Breaks, Decode, SessionFor, Exported, Base, Field, U32;
    if |nt| >= 16 { UserDecided(c, accounts, guest, nmsg, cmsg, m, flags, nt, domain, Decode(name), encrypted); }
  }

  /** Nothing else is let in, and what is no authenticate message is refused. */
  lemma OnlyAuthenticateMessages(c: Primitives, accounts: map<Str, Str>, guest: bool, nmsg: Bytes, cmsg: Bytes, m: Bytes)
    ensures Verify(c, accounts, guest, nmsg, cmsg, m).Done? ==>
              exists flags: nat, nt, domain, name, encrypted :: Carries(m, flags, nt, domain, name, encrypted)
    ensures |m| < 64 || m[..8] != [78, 84, 76, 77, 83, 83, 80, 0] || U32(m, 8) != 3 ==> Verify(c, accounts, guest, nmsg, cmsg, m).Failed?
  {
    hide VerifyUser, Field, U32, Decode;
    if Verify(c, accounts, guest, nmsg, cmsg, m).Done? {
      var nt, domain, name, encrypted := Field(m, 20), Field(m, 28), Field(m, 36), Field(m, 52);
      assert Carries(m, U32(m, 60), nt.value, domain.value, name.value, encrypted.value);
    }
  }

  // ----- the client -----

  /** The client goes on with a challenge if and only if it is one, both sides set the bits for a target name (2)
      and for target information (23), and name, information and its pairs can be read. */
  lemma ClientGoesOnIff(nmsg: Bytes, cmsg: Bytes)
    requires |nmsg| >= 16
    ensures ParseChallenge(nmsg, cmsg).Done? <==>
              && |cmsg| >= 48 && cmsg[..8] == [78, 84, 76, 77, 83, 83, 80, 0] && U32(cmsg, 8) == 2
              && Bit(U32(nmsg, 12), 2) && Bit(U32(cmsg, 20), 2) && Bit(U32(nmsg, 12), 23) && Bit(U32(cmsg, 20), 23)
              && Field(cmsg, 12).Done? && Field(cmsg, 40).Done? && Parsed(Field(cmsg, 40).value).Some?
    ensures ParseChallenge(nmsg, cmsg).Done? ==>
              var p := ParseChallenge(nmsg, cmsg).value;
              && p.name == Field(cmsg, 12).value && Some(p.list) == Parsed(Field(cmsg, 40).value)
              && cmsg[p.info.lo..p.info.hi] == Field(cmsg, 40).value
              && forall k: nat :: Bit(p.flags, k) <==> Bit(U32(nmsg, 12), k) && Bit(U32(cmsg, 20), k)
  {
    if |cmsg| >= 48 {
      forall k: nat ensures Bit(And(U32(nmsg, 12), U32(cmsg, 20)), k) <==> Bit(U32(nmsg, 12), k) && Bit(U32(cmsg, 20), k) {
        BitAnd(U32(nmsg, 12), U32(cmsg, 20), k);
      }
      hide Bit, And, U32, Parsed, U16;
    }
  }

  /** What the client sends proves its password, or the hash it has instead, for its user and its domain, or the
      challenge's name when it has none; with its own challenge, the server's time if there is one (id 7), and a
      key that decrypts to the one it exports. */
  lemma ClientProves(c: Primitives, f: ClientConfig, cmsg: Bytes, p: ParsedChallenge, rnd: ClientRandom)
    requires Answerable(cmsg, p)
    ensures var a := ClientAuth(c, f, cmsg, p, rnd);
            var secret := if f.hash.Some? then f.hash.value else c.md4(Encode(f.password));
            var domain := if f.domain == [] then p.name else Encode(f.domain);
            var key := c.hmac(secret, Encode(c.upper(f.user)) + domain);
            && a.flags == p.flags && a.domain == domain && a.user == Encode(f.user) && a.workstation == Encode(f.workstation)
            && |a.nt| >= 44 && a.nt[..16] == c.hmac(key, MarkedChallenge(cmsg, p)[24..32] + a.nt[16..])
            && a.nt[16..24] == [1, 1, 0, 0, 0, 0, 0, 0] && a.nt[32..40] == rnd.challenge && a.nt[40..44] == [0, 0, 0, 0]
            && |EncodePairs(p.list)| >= 4 && a.nt[44..] == Extended(p.list, Encode(f.spn), Zeros(16)) + Zeros(4)
            && (LastValue(p.list, 7).None? ==> a.nt[24..32] == rnd.now)
            && (LastValue(p.list, 7).Some? && |LastValue(p.list, 7).value| == 8 ==> a.nt[24..32] == LastValue(p.list, 7).value)
            && var base := c.hmac(key, a.nt[..16]);
               && (Bit(p.flags, 30) ==> ClientKey(c, f, cmsg, p, rnd) == rnd.sessionKey && a.encrypted == XorStream(c, Rc4(base, 0), rnd.sessionKey))
               && (!Bit(p.flags, 30) ==> ClientKey(c, f, cmsg, p, rnd) == base && a.encrypted == [])
  {
    InfoBytes(cmsg[p.info.lo..p.info.hi]);
    hide Encode, Extended, EncodePairs, Parsed, LastValue, MarkedChallenge, XorStream, Bit, FlagsUsable, Marked;
    var secret := if f.hash.Some? then f.hash.value else c.md4(Encode(f.password));
    var domain := if f.domain == [] then p.name else Encode(f.domain);
    var info, time := Extended(p.list, Encode(f.spn), Zeros(16)) + Zeros(4), ClientTime(p.list, rnd);
    ResponseLayout(c, c.hmac(secret, Encode(c.upper(f.user)) + domain), MarkedChallenge(cmsg, p)[24..32], time, rnd.challenge, info);
    TimeIs(p.list, rnd);
  }

  lemma TimeIs(list: seq<AvPair>, rnd: ClientRandom)
    ensures LastValue(list, 7).None? ==> ClientTime(list, rnd) == rnd.now
    ensures LastValue(list, 7).Some? && |LastValue(list, 7).value| == 8 ==> ClientTime(list, rnd) == LastValue(list, 7).value
  {
    hide LastValue;
  }

  lemma ResponseLayout(c: Primitives, key: Digest, challenge: Bytes, time: Bytes8, own: Bytes8, info: Bytes)
    ensures var nt := NtResponse(c, key, challenge, time, own, info);
            && |nt| == 44 + |info| && nt[..16] == c.hmac(key, challenge + nt[16..]) && nt[16..24] == [1, 1, 0, 0, 0, 0, 0, 0]
            && nt[24..32] == time && nt[32..40] == own && nt[40..44] == [0, 0, 0, 0] && nt[44..] == info
  {
    var nt, blob := NtResponse(c, key, challenge, time, own, info), Blob(time, own, info);
    assert [1, 1] + Zeros(6) == [1, 1, 0, 0, 0, 0, 0, 0] && Zeros(4) == [0, 0, 0, 0];
    assert nt[16..] == blob && nt[..16] == c.hmac(key, challenge + blob);
    assert blob[..8] == nt[16..24] && blob[8..16] == nt[24..32] && blob[16..24] == nt[32..40] && blob[24..28] == nt[40..44] && blob[28..] == nt[44..];
  }

  /** Without a user, password or hash the client sends its names alone; the server takes that for a guest, or
      refuses it. */
  lemma WithoutCredentials(c: Primitives, accounts: map<Str, Str>, guest: bool, nmsg: Bytes, cmsg: Bytes, f: ClientConfig, p: ParsedChallenge)
    requires !HasCredentials(f) && p.info.lo <= p.info.hi
    requires |DomainOf(f, p.name)| < 0x1_0000 && |AnonymousMessage(f, p)| < 0x1_0000_0000
    ensures var v := Verify(c, accounts, guest, nmsg, cmsg, AnonymousMessage(f, p));
            (v.Done? <==> guest) && !v.Panics? && (v.Done? ==> v.value.user == [103, 117, 101, 115, 116] && v.value.negotiateFlags == 0)
  {
    hide Encode, DomainOf, AnonymousMessage, Field, U32, VerifyUser;
    var n := AnonymousNt(f, p);
    AnonymousReads(AnonymousMessage(f, p), DomainOf(f, p.name), Encode(f.workstation), n);
  }

  lemma AnonymousNt(f: ClientConfig, p: ParsedChallenge) returns (n: nat)
    requires !HasCredentials(f) && p.info.lo <= p.info.hi
    ensures AnonymousMessage(f, p) == Segments.Concat(AnonymousSegments(DomainOf(f, p.name), [], Encode(f.workstation), n))
  {
    assert Encode(f.user) == [];
    hide Encode, LastIndex, Segments.Concat, AnonymousSegments;
    n := 48 + (p.info.hi - p.info.lo) + (if LastIndex(p.list, FLAGS).Some? then 0 else 8) + 20 + (if f.spn == [] then 0 else 4 + 2 * |f.spn|);
  }

  lemma AnonymousReads(m: Bytes, domain: Bytes, workstation: Bytes, n: nat)
    requires m == Segments.Concat(AnonymousSegments(domain, [], workstation, n)) && |domain| < 0x1_0000 && |m| < 0x1_0000_0000
    ensures |m| >= 128 && m[..8] == SIGNATURE && U32(m, 8) == 3 && U32(m, 60) == 0
    ensures Field(m, 20) == Done([]) && Field(m, 28) == Done(domain) && Field(m, 36) == Done([]) && Field(m, 52) == Done([])
  {
    var lens, ws := AuthLens(|domain|, 0, |workstation|, n), AnonymousSegments(domain, [], workstation, n);
    assert ws[8] == LE32(0);
    AnonymousShape(domain, workstation, n);
    hide Segments.Seg, Segments.Concat, LE32, Desc, Zeros, Field, U32, Segments.Off, At, FieldRange;
    AuthOffsets(|domain|, 0, |workstation|, n);
    Segments.SegLength(m, lens, ws);
    Segments.SegAt(m, lens, ws, 0);
    Segments.SegAt(m, lens, ws, 1);
    Segments.SegAt(m, lens, ws, 3);
    Segments.SegAt(m, lens, ws, 4);
    Segments.SegAt(m, lens, ws, 5);
    Segments.SegAt(m, lens, ws, 7);
    Segments.SegAt(m, lens, ws, 8);
    Segments.SegAt(m, lens, ws, 11);
    AtFront(m, SIGNATURE);
    ReadWord32(m, 8, 3);
    ReadWord32(m, 60, 0);
    EmptyField(m, 20);
    EmptyField(m, 36);
    EmptyField(m, 52);
    FieldRead(m, 28, domain, 88);
    WholeField(domain);
  }

  lemma AtFront(m: Bytes, t: Bytes)
    requires At(m, 0, t)
    ensures |t| <= |m| && m[..|t|] == t
  {
  }

  lemma AnonymousShape(domain: Bytes, workstation: Bytes, n: nat)
    ensures var ws := AnonymousSegments(domain, [], workstation, n);
            && |ws| == 17 && ws[0] == SIGNATURE && ws[1] == LE32(3) && ws[3] == Zeros(8) && ws[4] == Desc(|domain|, 88)
            && ws[5] == Zeros(8) && ws[7] == Zeros(8) && ws[11] == domain
            && Segments.Seg(Segments.Concat(ws), AuthLens(|domain|, 0, |workstation|, n), ws)
  {
    hide LE32, Desc, Zeros, Segments.Concat;
  }

  /** The negotiate message, byte by byte. */
  lemma NegotiateBytes()
    ensures NegotiateMessage() == [78, 84, 76, 77, 83, 83, 80, 0, 1, 0, 0, 0, 0x15, 0x82, 0x88, 0xe2,
                                   0, 0, 0, 0, 0, 0, 0, 0, 0, 0, 0, 0, 0, 0, 0, 0, 10, 0, 0, 0, 0, 0, 0, 15]
  {
    var ws := NegotiateSegments();
    assert LE32(1) == [1, 0, 0, 0] && LE32(DEFAULT_FLAGS) == [0x15, 0x82, 0x88, 0xe2];
    assert Zeros(16) == [0, 0, 0, 0, 0, 0, 0, 0, 0, 0, 0, 0, 0, 0, 0, 0];
    hide LE32, Zeros;
    FiveConcat(ws);
  }

  lemma FiveConcat(ws: seq<Bytes>)
    requires |ws| == 5
    ensures Segments.Concat(ws) == ws[0] + ws[1] + ws[2] + ws[3] + ws[4]
  {
    assert ws[..4][..3] == ws[..3] && ws[..3][..2] == ws[..2] && ws[..2][..1] == ws[..1] && ws[..1][..0] == [];
    hide *;
    Segments.ConcatSnoc(ws, 4);
    Segments.ConcatSnoc(ws, 3);
    Segments.ConcatSnoc(ws, 2);
    Segments.ConcatSnoc(ws, 1);
    Segments.ConcatOne(ws[0]);
    assert ws[..5] == ws && ws[..1] == [ws[0]];
  }

  /** The server answers negotiate messages only, with the bits that both the client's flags and its own default
      have, and bit 23 for the target information. */
  lemma ServerChallengesIff(nmsg: Bytes, k: nat)
    ensures NtlmHandshake.NegotiateAccepted(nmsg) <==>
            |nmsg| >= 32 && nmsg[..8] == [78, 84, 76, 77, 83, 83, 80, 0] && U32(nmsg, 8) == 1
    ensures |nmsg| >= 16 ==>
              (Bit(NtlmHandshake.ChallengeFlags(nmsg), k) <==> k == 23 || (Bit(U32(nmsg, 12), k) && Bit(0xe288_8215, k)))
  {
    if |nmsg| >= 16 {
      hide Or, And, U32;
      BitOr(And(U32(nmsg, 12), DEFAULT_FLAGS), 0x80_0000, k);
      BitAnd(U32(nmsg, 12), DEFAULT_FLAGS, k);
      OnlyBit23(k);
    }
  }

  lemma OnlyBit23(k: nat)
    ensures Bit(0x80_0000, k) <==> k == 23
  {
    if k > 23 {
      Widths();
      Pow2Add(16, 8);
      NoHighBits(0x80_0000, 24, k);
    } else if k == 23 {
      NtlmHandshake.TargetInfoBit(0);
      BitOr(0, 0x80_0000, 23);
      BitZero(23);
    } else {
      Widths();
      Pow2Add(16, 7);
      assert Pow2(7) == 128;
      LowBits(1, 23, k);
    }
  }

  // ----- target information -----

  /** The server's target information: each name under its own number if it is set, the time, nothing else but
      the end. */
  lemma TargetInfoValues(nbName: Str, nbDomain: Str, dnsName: Str, dnsDomain: Str, time: Bytes, id: nat)
    ensures var l := TargetInfoList(nbName, nbDomain, dnsName, dnsDomain, time);
            && l != [] && l[|l| - 1] == AvPair(0, [])
            && LastValue(l, id) ==
               if id == 0 then Some([])
               else if id == 1 && nbName != [] then Some(Encode(nbName))
               else if id == 2 && nbDomain != [] then Some(Encode(nbDomain))
               else if id == 3 && dnsName != [] then Some(Encode(dnsName))
               else if id == 4 && dnsDomain != [] then Some(Encode(dnsDomain))
               else if id == 7 then Some(time)
               else None
  {
    hide Encode, LastIndex;
    var a := [AvPair(7, time)];
    var b := a + if dnsName != [] then [AvPair(3, Encode(dnsName))] else [];
    var d := b + if dnsDomain != [] then [AvPair(4, Encode(dnsDomain))] else [];
    var e := d + if nbName != [] then [AvPair(1, Encode(nbName))] else [];
    var f := e + if nbDomain != [] then [AvPair(2, Encode(nbDomain))] else [];
    FirstOnly(AvPair(7, time), id);
    OneOrNone(a, AvPair(3, Encode(dnsName)), dnsName != [], id);
    OneOrNone(b, AvPair(4, Encode(dnsDomain)), dnsDomain != [], id);
    OneOrNone(d, AvPair(1, Encode(nbName)), nbName != [], id);
    OneOrNone(e, AvPair(2, Encode(nbDomain)), nbDomain != [], id);
    OneOrNone(f, AvPair(0, []), true, id);
    assert TargetInfoList(nbName, nbDomain, dnsName, dnsDomain, time) == f + [AvPair(0, [])];
  }

  lemma FirstOnly(p: AvPair, id: nat)
    ensures LastValue([p], id) == if p.id == id then Some(p.value) else None
  {
    LastIndexSnoc([], p, id);
    assert [] + [p] == [p];
  }

  lemma OneOrNone(l: seq<AvPair>, p: AvPair, present: bool, id: nat)
    ensures LastValue(l + if present then [p] else [], id) == if present && p.id == id then Some(p.value) else LastValue(l, id)
  {
    if present { LastIndexSnoc(l, p, id); } else { assert l + [] == l; }
  }

  /** What the client adds to the server's information: the target name (9) if it has one, 16 zero bytes of channel
      bindings (10), and the MIC bit in the flags (6); everything else is the server's. */
  lemma AnswerValues(l: seq<AvPair>, spn: Bytes, id: nat)
    requires Fit(l) && l != [] && l[|l| - 1] == AvPair(0, []) && FlagsUsable(l) && |spn| < 0x1_0000 && id != 0
    ensures |EncodePairs(l)| >= 4 && Parsed(Extended(l, spn, Zeros(16))).Some?
    ensures var v := LastValue(Parsed(Extended(l, spn, Zeros(16))).value, id);
            && (id == 10 ==> v == Some(Zeros(16)))
            && (id == 9 && spn != [] ==> v == Some(spn))
            && (id == 6 ==> v.Some? && |v.value| >= 4 && Bit(U32(v.value, 0), 1))
            && (id == 6 && LastValue(l, 6).None? ==> v == Some([2, 0, 0, 0]))
            && (id != 6 && id != 10 && (id != 9 || spn == []) ==> v == LastValue(l, id))
  {
    assert LE32(2) == [2, 0, 0, 0];
    ExtendedValue(l, spn, Zeros(16), id);
    if id == 6 { FlagsValue(l, spn); }
    hide Extended, Parsed, EncodePairs, U32, Bit, LE32, SetMic;
  }
}
