/** Client and Server of internal/ntlm: messages built in buffers at running offsets, sessions stored in the
    two objects. Random bytes and the time are parameters. */
module NtlmHandshake {
  import opened Bytes
  import opened Utf16
  import opened Segments
  import opened AvPairs
  import opened NtlmSession
  import opened NtlmSpec
  import opened NtlmAgreement

  // ----- encodeNtlmv2Response -----

  /** The part in front of the information: response type, time and client challenge, on zeros. */
  method PutBlobHeader(dst: array<byte>, lo: nat, time: Bytes8, challenge: Bytes8)
    requires lo + 44 <= dst.Length && dst[..][lo + 16..lo + 44] == Zeros(28)
    modifies dst
    ensures dst[..] == Splice(old(dst[..]), lo + 16, Blob(time, challenge, []))
  {
    hide Splice;
    ghost var b0 := dst[..];
    HeaderZeros(b0, lo);
    Put(dst, lo + 16, [1, 1]);
    SpliceKept(b0, lo + 16, [1, 1], Zeros(6));
    Put(dst, lo + 24, time);
    SpliceMore(b0, lo + 16, [1, 1] + Zeros(6), time);
    Put(dst, lo + 32, challenge);
    SpliceMore(b0, lo + 16, [1, 1] + Zeros(6) + time, challenge);
    SpliceKept(b0, lo + 16, [1, 1] + Zeros(6) + time + challenge, Zeros(4));
    assert [1, 1] + Zeros(6) + time + challenge + Zeros(4) + [] == [1, 1] + Zeros(6) + time + challenge + Zeros(4);
  }

  lemma HeaderZeros(b: Bytes, lo: nat)
    requires lo + 44 <= |b| && b[lo + 16..lo + 44] == Zeros(28)
    ensures b[lo + 18..lo + 24] == Zeros(6) && b[lo + 40..lo + 44] == Zeros(4)
  {
    forall i | lo + 16 <= i < lo + 44 ensures b[i] == 0 { assert b[i] == b[lo + 16..lo + 44][i - lo - 16]; }
  }

  /** The hash over the challenge and the rest, in front. */
  method PutProof(c: Primitives, dst: array<byte>, lo: nat, hi: nat, key: Digest, serverChallenge: Bytes, ghost b0: Bytes, ghost blob: Bytes)
    requires lo + 16 <= hi <= dst.Length == |b0| && |blob| == hi - lo - 16
    requires dst[..] == Splice(b0, lo + 16, blob)
    modifies dst
    ensures dst[..] == Splice(b0, lo, c.hmac(key, serverChallenge + blob) + blob)
  {
    SpliceThere(b0, lo + 16, hi, blob, dst[..]);
    hide Splice;
    var proof := c.hmac(key, serverChallenge + dst[..][lo + 16..hi]);
    Put(dst, lo, proof);
    SpliceBefore(b0, lo, proof, blob);
  }

  /** encodeNtlmv2Response with a bytesEncoder, as the server calls it. */
  method EncodeExpected(c: Primitives, dst: array<byte>, key: Digest, serverChallenge: Bytes, challenge: Bytes8, time: Bytes8, info: Bytes)
    requires dst.Length == 44 + |info| && dst[..] == Zeros(dst.Length)
    modifies dst
    ensures dst[..] == NtResponse(c, key, serverChallenge, time, challenge, info)
  {
    ghost var b0 := dst[..];
    BlobMore(time, challenge, info);
    hide Splice, Blob;
    PutBlobHeader(dst, 0, time, challenge);
    Put(dst, 44, info);
    SpliceMore(b0, 16, Blob(time, challenge, []), info);
    PutProof(c, dst, 0, dst.Length, key, serverChallenge, b0, Blob(time, challenge, info));
    WholeSplice(b0, dst[..]);
  }

  lemma BlobMore(time: Bytes8, challenge: Bytes8, info: Bytes)
    ensures Blob(time, challenge, info) == Blob(time, challenge, []) + info
    ensures |Blob(time, challenge, info)| == 28 + |info|
  {
  }

  lemma WholeSplice(b: Bytes, t: Bytes)
    ensures forall u: Bytes :: |u| == |b| ==> Splice(b, 0, u) == u
  {
  }

  /** encodeNtlmv2Response with a targetInfoEncoder, as the client calls it. The server challenge is read
      after the information is encoded, which may have changed the challenge message. */
  method EncodeResponse(c: Primitives, dst: array<byte>, lo: nat, hi: nat, key: Digest, challenge: Bytes8, time: Bytes8, e: TargetInfoEncoder, ghost f: ClientConfig)
    requires e.Valid() && FlagsUsable(e.list) && e.buf != dst && e.spn == Encode(f.spn) && e.buf.Length >= 48
    requires hi == lo + 44 + e.Size() + 4 <= dst.Length && dst[..][lo..hi] == Zeros(hi - lo)
    modifies dst, e.buf
    ensures e.lo <= e.hi && |EncodePairs(e.list)| == |EncodePairs(Marked(e.list))| == e.hi - e.lo >= 4 && e.hi <= e.buf.Length
    ensures e.buf[..] == Splice(old(e.buf[..]), e.lo, EncodePairs(Marked(e.list)))
    ensures var nt := NtResponse(c, key, e.buf[..][24..32], time, challenge, InfoField(f, e.list));
            |nt| == hi - lo && dst[..] == Splice(old(dst[..]), lo, nt)
  {
    hide Splice, Blob, Extended, FlagsUsable, EncodePairs, Marked, Zeros, TargetInfoEncoder.Valid, Describes;
    ghost var b0 := dst[..];
    e.Bounds();
    ghost var at := e.BindingsAt(lo + 44);
    e.SizeIsLength(Zeros(16));
    MarkedLength(e.list);
    BlobMore(time, challenge, InfoField(f, e.list));
    BlobMore(time, challenge, []);
    ResponseZeros(b0, lo, hi, at);
    PutBlobHeader(dst, lo, time, challenge);
    SpliceKeepsSlice(b0, lo + 16, Blob(time, challenge, []), at, at + 16);
    e.Encode(dst, lo + 44);
    ResponseBytes(b0, lo, hi, time, challenge, Extended(e.list, e.spn, Zeros(16)), dst[..]);
    PutProof(c, dst, lo, hi, key, e.buf[..][24..32], b0, Blob(time, challenge, InfoField(f, e.list)));
  }

  /** Header, information and four bytes left zero make the blob. */
  lemma ResponseBytes(b0: Bytes, lo: nat, hi: nat, time: Bytes8, challenge: Bytes8, info: Bytes, b: Bytes)
    requires hi == lo + 48 + |info| <= |b0| && b0[hi - 4..hi] == Zeros(4)
    requires |Blob(time, challenge, [])| == 28
    requires b == Splice(Splice(b0, lo + 16, Blob(time, challenge, [])), lo + 44, info)
    ensures |Blob(time, challenge, info + Zeros(4))| == hi - lo - 16
    ensures b == Splice(b0, lo + 16, Blob(time, challenge, info + Zeros(4)))
  {
    BlobMore(time, challenge, info + Zeros(4));
    hide Splice, Blob;
    var h := Blob(time, challenge, []);
    SpliceMore(b0, lo + 16, h, info);
    SpliceKept(b0, lo + 16, h + info, Zeros(4));
    assert h + info + Zeros(4) == h + (info + Zeros(4));
  }

  lemma ResponseZeros(b: Bytes, lo: nat, hi: nat, at: nat)
    requires lo + 48 <= hi <= |b| && b[lo..hi] == Zeros(hi - lo) && lo + 44 <= at && at + 16 <= hi
    ensures b[lo + 16..lo + 44] == Zeros(28) && b[at..at + 16] == Zeros(16) && b[hi - 4..hi] == Zeros(4)
  {
    forall i | lo <= i < hi ensures b[i] == 0 { assert b[i] == b[lo..hi][i - lo]; }
  }

  lemma SpliceKeepsSlice(b: Bytes, off: nat, t: Bytes, i: nat, j: nat)
    requires off + |t| <= i <= j <= |b|
    ensures Splice(b, off, t)[i..j] == b[i..j]
  {
  }

  // ----- the authenticate message -----

  /** A name field: the bytes and their descriptor, unless the name is nil. */
  method PutName(amsg: array<byte>, off: nat, desc: nat, t: Bytes, ghost lens: seq<nat>, ghost ws: seq<Bytes>, ghost i: nat, ghost j: nat)
    requires Seg(amsg[..], lens, ws) && i < |lens| == |ws| && j < |lens| && i != j
    requires desc == Off(lens, i) && lens[i] == 8 && off == Off(lens, j) && lens[j] == |t|
    modifies amsg
    ensures Seg(amsg[..], lens, ws[j := t][i := Desc(|t|, off)])
  {
    hide Seg, Desc;
    PutSegment(amsg, off, t, lens, ws, j);
    PutSegment(amsg, desc, LE16(|t|) + LE16(|t|) + LE32(off), lens, ws[j := t], i);
    assert LE16(|t|) + LE16(|t|) + LE32(off) == Desc(|t|, off) by { DescIs(|t|, off); }
  }

  /** A name that may be nil: then nothing is written. */
  method PutOptionalName(amsg: array<byte>, off: nat, desc: nat, t: Bytes, ghost lens: seq<nat>, ghost ws: seq<Bytes>, ghost i: nat, ghost j: nat)
    returns (off': nat)
    requires Seg(amsg[..], lens, ws) && i < |lens| == |ws| && j < |lens| && i != j
    requires desc == Off(lens, i) && lens[i] == 8 && off == Off(lens, j) && lens[j] == |t|
    requires ws[i] == Zeros(8) && ws[j] == Zeros(|t|)
    modifies amsg
    ensures Seg(amsg[..], lens, ws[j := t][i := OptionalDesc(t, off)])
    ensures off' == off + |t|
  {
    if t != [] {
      PutName(amsg, off, desc, t, lens, ws, i, j);
    } else {
      assert ws[j := t][i := OptionalDesc(t, off)] == ws;
    }
    off' := off + |t|;
  }

  lemma DescIs(len: nat, off: nat)
    ensures LE16(len) + LE16(len) + LE32(off) == Desc(len, off)
  {
  }

  /** Signature, type and the three names. */
  method WriteNames(amsg: array<byte>, domain: Bytes, user: Bytes, workstation: Bytes, ghost nt: nat) returns (off: nat)
    requires amsg.Length == 128 + |domain| + |user| + |workstation| + nt
    requires forall i :: 0 <= i < amsg.Length ==> amsg[i] == 0
    modifies amsg
    ensures Seg(amsg[..], AuthLens(|domain|, |user|, |workstation|, nt), AnonymousSegments(domain, user, workstation, nt))
    ensures off == 88 + |domain| + |user| + |workstation|
  {
    ghost var lens := AuthLens(|domain|, |user|, |workstation|, nt);
    AuthOffsets(|domain|, |user|, |workstation|, nt);
    AuthLengths(|domain|, |user|, |workstation|, nt);
    BlankSeg(amsg[..], lens);
    ghost var ws := Blank(lens);
    hide Seg, Desc, LE32, Zeros, Blank, OptionalDesc, Off, AuthLens;
    PutSegment(amsg, 0, SIGNATURE, lens, ws, 0);
    ws := ws[0 := SIGNATURE];
    PutSegment(amsg, 8, LE32(3), lens, ws, 1);
    ws := ws[1 := LE32(3)];
    off := 88;
    PutName(amsg, off, 28, domain, lens, ws, 4, 11);
    ws := ws[11 := domain][4 := Desc(|domain|, off)];
    off := off + |domain|;
    off := PutOptionalName(amsg, off, 36, user, lens, ws, 5, 12);
    ws := ws[12 := user][5 := OptionalDesc(user, 88 + |domain|)];
    off := PutOptionalName(amsg, off, 44, workstation, lens, ws, 6, 13);
    ws := ws[13 := workstation][6 := OptionalDesc(workstation, 88 + |domain| + |user|)];
    NamesDone(ws, domain, user, workstation, nt);
  }

  lemma AuthLengths(d: nat, u: nat, w: nat, n: nat)
    ensures var l := AuthLens(d, u, w, n);
            && |l| == 17 && l[0] == 8 && l[1] == 4 && l[2] == 8 && l[3] == 8 && l[4] == 8 && l[5] == 8 && l[6] == 8 && l[7] == 8
            && l[8] == 4 && l[9] == 8 && l[10] == 16 && l[11] == d && l[12] == u && l[13] == w && l[14] == 24 && l[15] == n
            && l[16] == 16
    ensures var b := Blank(AuthLens(d, u, w, n));
            && |b| == 17 && b[2] == Zeros(8) && b[3] == Zeros(8) && b[5] == Zeros(8) && b[6] == Zeros(8) && b[7] == Zeros(8)
            && b[8] == Zeros(4) && b[9] == Zeros(8) && b[10] == Zeros(16) && b[12] == Zeros(u) && b[13] == Zeros(w)
            && b[14] == Zeros(24) && b[15] == Zeros(n) && b[16] == Zeros(16)
  {
  }

  lemma NamesDone(ws: seq<Bytes>, domain: Bytes, user: Bytes, workstation: Bytes, nt: nat)
    requires |ws| == 17 && ws[0] == SIGNATURE && ws[1] == LE32(3) && ws[2] == Zeros(8) && ws[3] == Zeros(8)
    requires ws[4] == Desc(|domain|, 88) && ws[5] == OptionalDesc(user, 88 + |domain|)
    requires ws[6] == OptionalDesc(workstation, 88 + |domain| + |user|) && ws[7] == Zeros(8) && ws[8] == Zeros(4)
    requires ws[9] == Zeros(8) && ws[10] == Zeros(16) && ws[11] == domain && ws[12] == user && ws[13] == workstation
    requires ws[14] == Zeros(24) && ws[15] == Zeros(nt) && ws[16] == Zeros(16)
    ensures ws == AnonymousSegments(domain, user, workstation, nt)
  {
  }

  // ----- the client -----

  /** The length of the response: response, header, information and four bytes. */
  function ResponseSize(e: TargetInfoEncoder): nat
    requires e.lo <= e.hi
  {
    16 + (28 + e.Size() + 4)
  }

  /** The message with its names in, and the offset behind them. */
  ghost predicate Named(amsg: Bytes, f: ClientConfig, p: ParsedChallenge, info: TargetInfoEncoder, off: nat) {
    var d, u, w := DomainOf(f, p.name), Encode(f.user), Encode(f.workstation);
    && info.lo <= info.hi
    && Seg(amsg, AuthLens(|d|, |u|, |w|, ResponseSize(info)), AnonymousSegments(d, u, w, ResponseSize(info)))
    && off == 88 + |d| + |u| + |w|
  }

  class Client {
    const c: Primitives
    const f: ClientConfig
    var nmsg: Bytes
    var session: Session?

    constructor (c: Primitives, f: ClientConfig)
      ensures this.c == c && this.f == f && nmsg == [] && session == null
    {
      this.c, this.f, nmsg, session := c, f, [], null;
    }

    method Negotiate() returns (m: Bytes)
      modifies this`nmsg
      ensures m == NegotiateMessage() && nmsg == m
    {
      ghost var lens := [8, 4, 4, 16, 8];
      var b := new byte[40](_ => 0);
      NegotiateOffsets();
      BlankSeg(b[..], lens);
      ghost var ws := Blank(lens);
      assert ws[3] == Zeros(16);
      hide Seg, LE32, Zeros, Off, Blank;
      PutSegment(b, 0, SIGNATURE, lens, ws, 0);
      ws := ws[0 := SIGNATURE];
      PutSegment(b, 8, LE32(1), lens, ws, 1);
      ws := ws[1 := LE32(1)];
      PutSegment(b, 12, LE32(DEFAULT_FLAGS), lens, ws, 2);
      ws := ws[2 := LE32(DEFAULT_FLAGS)];
      PutSegment(b, 32, VERSION, lens, ws, 4);
      ws := ws[4 := VERSION];
      assert ws == NegotiateSegments();
      SegConcat(b[..], lens, ws);
      m := b[..];
      nmsg := m;
    }

    /** Authenticate: what ParseChallenge refuses fails; everything else is answered as Responded says. s is
        the new session, if there is one. */
    method Authenticate(cmsg: array<byte>, rnd: ClientRandom) returns (r: Outcome<Bytes>, ghost s: Option<SessionState>)
      requires |nmsg| >= 16
      modifies this`session, cmsg
      ensures var p := ParseChallenge(nmsg, old(cmsg[..]));
              if p.IsFailure() then r == p.PropagateFailure() && s.None?
              else Responded(c, f, nmsg, old(cmsg[..]), p.value, rnd, r, cmsg[..], s)
      ensures s.None? ==> session == old(session)
      ensures s.Some? ==> session != null && fresh(session) && session.c == c && session.State() == s.value
    {
      hide Bit, And, U32, U16, FieldRange, Parsed, Responded;
      s := None;
      if cmsg.Length < 48 || cmsg[..][..8] != SIGNATURE || U32(cmsg[..], 8) != 2 { return Failed, s; }
      var flags := And(U32(nmsg, 12), U32(cmsg[..], 20));
      if !Bit(flags, REQUEST_TARGET) { return Failed, s; }
      var name :- Field(cmsg[..], 12);
      if !Bit(flags, NEGOTIATE_TARGET_INFO) { return Failed, s; }
      var range :- FieldRange(cmsg[..], 40);
      var info := NewTargetInfoEncoder(cmsg, range.lo, range.hi, Encode(f.spn));
      if info == null { return Failed, s; }
      var p := ParsedChallenge(flags, name, range, Parsed(cmsg[..][range.lo..range.hi]).value);
      assert ParseChallenge(nmsg, cmsg[..]) == Done(p);
      r, s := Respond(cmsg, info, p, rnd);
    }

    /** Authenticate once the challenge is parsed. */
    method Respond(cmsg: array<byte>, info: TargetInfoEncoder, p: ParsedChallenge, rnd: ClientRandom)
      returns (r: Outcome<Bytes>, ghost s: Option<SessionState>)
      requires Encoding(cmsg, info, p)
      modifies this`session, cmsg
      ensures Responded(c, f, nmsg, old(cmsg[..]), p, rnd, r, cmsg[..], s)
      ensures s.None? ==> session == old(session)
      ensures s.Some? ==> session != null && fresh(session) && session.c == c && session.State() == s.value
    {
      hide Encode, AnonymousSegments, AuthLens, Seg, AnonymousMessage, Responded, Encoding, Describes, FlagsUsable, EncodePairs;
      EncodingSlice(cmsg, info, p);
      var domain := if f.domain == [] then p.name else Encode(f.domain);
      var user := Encode(f.user);
      var workstation := Encode(f.workstation);
      var size := ResponseSize(info);
      var amsg := new byte[88 + |domain| + |user| + |workstation| + 24 + size + 16](_ => 0);
      var off := WriteNames(amsg, domain, user, workstation, size);
      if f.user == [] && f.password == [] && f.hash.None? {
        SegConcat(amsg[..], AuthLens(|domain|, |user|, |workstation|, size), AnonymousSegments(domain, user, workstation, size));
        RespondedAnonymous(c, f, nmsg, cmsg[..], p, rnd, amsg[..], cmsg[..]);
        s := None;
        return Done(amsg[..]), s;
      }
      r, s := RespondWithCredentials(cmsg, amsg, off, info, p, rnd);
    }

    /** The part of Authenticate for a client with credentials, after the names. */
    method RespondWithCredentials(cmsg: array<byte>, amsg: array<byte>, off: nat, info: TargetInfoEncoder, p: ParsedChallenge, rnd: ClientRandom)
      returns (r: Outcome<Bytes>, ghost s: Option<SessionState>)
      requires Encoding(cmsg, info, p) && cmsg != amsg && Named(amsg[..], f, p, info, off) && HasCredentials(f)
      modifies this`session, cmsg, amsg
      ensures Responded(c, f, nmsg, old(cmsg[..]), p, rnd, r, cmsg[..], s)
      ensures s.None? ==> session == old(session)
      ensures s.Some? ==> session != null && fresh(session) && session.c == c && session.State() == s.value
    {
      hide FlagsUsable, SessionFor, Encode, ResponseKey, Answered, Responded, Encoding, Named, DomainOf, Describes, LastIndex, SecretHash,
           HasCredentials;
      ghost var cmsg0 := cmsg[..];
      EncodingSlice(cmsg, info, p);
      var hash := if f.hash.Some? then f.hash.value else c.md4(Encode(f.password));
      var key := c.hmac(hash, Encode(c.upper(f.user)) + DomainOf(f, p.name));
      if FLAGS in info.infoMap && info.infoMap[FLAGS].hi - info.infoMap[FLAGS].lo < 4 {
        s := None;
        RespondedPanics(c, f, nmsg, cmsg0, p, rnd, cmsg[..]);
        return Panics, s;
      }
      ResponseKeyIs(c, f, hash, DomainOf(f, p.name));
      var exported := Answer(cmsg, amsg, off, key, info, rnd, p);
      s := Some(SessionFor(c, true, p.flags, f.user, exported));
      RespondedAnswered(c, f, nmsg, cmsg0, p, rnd, cmsg[..], amsg[..], exported);
      session := new Session(c, SessionFor(c, true, p.flags, f.user, exported));
      r := Done(amsg[..]);
    }

    ghost predicate Encoding(cmsg: array<byte>, info: TargetInfoEncoder, p: ParsedChallenge)
      reads cmsg
    {
      && cmsg.Length >= 48 && info.buf == cmsg && info.Valid() && info.spn == Encode(f.spn)
      && p.info == Range(info.lo, info.hi) && p.list == info.list
      && Parsed(cmsg[..][info.lo..info.hi]) == Some(info.list)
    }

    lemma EncodingSlice(cmsg: array<byte>, info: TargetInfoEncoder, p: ParsedChallenge)
      requires Encoding(cmsg, info, p)
      ensures info.lo + 4 <= info.hi <= cmsg.Length && info.buf == cmsg && p.list == info.list
      ensures FlagsUsable(info.list) <==> !(FLAGS in info.infoMap && info.infoMap[FLAGS].hi - info.infoMap[FLAGS].lo < 4)
      ensures AnonymousMessage(f, p) == Concat(AnonymousSegments(DomainOf(f, p.name), Encode(f.user), Encode(f.workstation), 48 + info.Size()))
    {
      InfoSlice(info, f, p);
    }

    /** The responses, the session key and the MIC. */
    method Answer(cmsg: array<byte>, amsg: array<byte>, off: nat, key: Digest, info: TargetInfoEncoder, rnd: ClientRandom, p: ParsedChallenge)
      returns (exported: Digest)
      requires Encoding(cmsg, info, p) && cmsg != amsg && Named(amsg[..], f, p, info, off) && FlagsUsable(info.list)
      requires key == ResponseKey(c, f.user, SecretHash(c, f), DomainOf(f, p.name))
      modifies cmsg, amsg
      ensures Answered(c, f, nmsg, old(cmsg[..]), p, rnd, cmsg[..], amsg[..], exported)
    {
      ghost var cmsg0 := cmsg[..];
      ghost var nt;
      EncodingAnswerable(cmsg, info, p);
      hide Encoding, Named, Answerable, ClientResponse, WithResponse, AuthMessage, ClientKeys, Answered;
      var base;
      base, nt := PutResponse(cmsg, amsg, off, key, info, rnd, p);
      var encrypted: Bytes;
      exported, encrypted := base, [];
      if Bit(p.flags, KEY_EXCH) {
        exported, encrypted := rnd.sessionKey, XorStream(c, Rc4(base, 0), rnd.sessionKey);
      }
      ghost var a := Auth(p.flags, DomainOf(f, p.name), Encode(f.user), Encode(f.workstation), nt, encrypted);
      PutKeys(c, amsg, off + 24 + ResponseSize(info), p.flags, exported, encrypted, nmsg, cmsg[..], a);
      AnswerDone(c, f, nmsg, cmsg0, p, rnd, key, nt, base, exported, encrypted, cmsg[..], amsg[..]);
    }

    lemma EncodingAnswerable(cmsg: array<byte>, info: TargetInfoEncoder, p: ParsedChallenge)
      requires Encoding(cmsg, info, p)
      ensures FlagsUsable(info.list) ==> Answerable(cmsg[..], p)
      ensures info.lo <= info.hi
    {
      DescribedBytes(info.buf[..], info.lo, info.hi, info.infoMap, info.list);
    }

    /** The LM response stays zero; the NTLMv2 response. */
    method PutResponse(cmsg: array<byte>, amsg: array<byte>, off: nat, key: Digest, info: TargetInfoEncoder, rnd: ClientRandom, p: ParsedChallenge)
      returns (base: Digest, ghost nt: Bytes)
      requires Encoding(cmsg, info, p) && cmsg != amsg && Named(amsg[..], f, p, info, off) && FlagsUsable(info.list)
      requires key == ResponseKey(c, f.user, SecretHash(c, f), DomainOf(f, p.name))
      modifies cmsg, amsg
      ensures Answerable(old(cmsg[..]), p) && cmsg[..] == MarkedChallenge(old(cmsg[..]), p)
      ensures nt == ClientResponse(c, f, old(cmsg[..]), p, rnd) && base == c.hmac(key, nt[..16])
      ensures WithResponse(amsg[..], DomainOf(f, p.name), Encode(f.user), Encode(f.workstation), nt, off)
      ensures info.lo <= info.hi && |nt| == ResponseSize(info)
    {
      ghost var cmsg0 := cmsg[..];
      EncodingAnswerable(cmsg, info, p);
      ghost var d, u, w := DomainOf(f, p.name), Encode(f.user), Encode(f.workstation);
      var size := ResponseSize(info);
      ghost var lens, ws := AuthLens(|d|, |u|, |w|, size), AnonymousSegments(d, u, w, size);
      ResponseStart(d, u, w, size, off);
      var time := ResponseTime(cmsg, info, rnd);
      hide Seg, AuthLens, Off, AnonymousSegments, ResponseSegments, Desc, NtResponse, Splice, Zeros, Answerable, ClientTime,
           InfoField, ResponseKey, LE32, Encode, DomainOf, SecretHash, ClientResponse, MarkedChallenge, Parsed, EncodePairs, Marked,
           FlagsUsable, TargetInfoEncoder.Valid;
      assert Seg(amsg[..], lens, ws) && info.Valid();
      hide Encoding, Named;
      PutSegment(amsg, 12, LE16(24) + LE16(24) + LE32(off), lens, ws, 2);
      ws := ws[2 := Desc(24, off)];
      base, nt := PutNt(cmsg, amsg, off + 24, key, info, rnd, time, lens, ws);
      ws := ws[15 := nt];
      PutSegment(amsg, 20, LE16(size) + LE16(size) + LE32(off + 24), lens, ws, 3);
      ResponseDone(d, u, w, nt, off);
      MarkedChallengeIs(cmsg0, p);
      ClientResponseIs(c, f, cmsg0, p, rnd, time);
    }

    /** encodeNtlmv2Response into its segment, and the session base key. */
    method PutNt(cmsg: array<byte>, amsg: array<byte>, off: nat, key: Digest, info: TargetInfoEncoder, rnd: ClientRandom, time: Bytes8,
                 ghost lens: seq<nat>, ghost ws: seq<Bytes>)
      returns (base: Digest, ghost nt: Bytes)
      requires info.Valid() && FlagsUsable(info.list) && info.buf == cmsg != amsg && info.spn == Encode(f.spn) && cmsg.Length >= 48
      requires |lens| == |ws| == 17 && Seg(amsg[..], lens, ws) && off == Off(lens, 15)
      requires info.lo <= info.hi && lens[15] == ResponseSize(info) && ws[15] == Zeros(lens[15])
      modifies cmsg, amsg
      ensures info.lo <= info.hi <= cmsg.Length && |EncodePairs(info.list)| == |EncodePairs(Marked(info.list))| == info.hi - info.lo >= 4
      ensures cmsg[..] == Splice(old(cmsg[..]), info.lo, EncodePairs(Marked(info.list)))
      ensures nt == NtResponse(c, key, cmsg[..][24..32], time, rnd.challenge, InfoField(f, info.list))
      ensures |nt| == ResponseSize(info) && Seg(amsg[..], lens, ws[15 := nt]) && base == c.hmac(key, nt[..16])
    {
      hide Seg, Off, NtResponse, Splice, Zeros, InfoField, Encode, FlagsUsable, EncodePairs, Marked, TargetInfoEncoder.Valid;
      var size := ResponseSize(info);
      SegAt(amsg[..], lens, ws, 15);
      SegWidth(amsg[..], lens, ws, 15);
      ghost var m := amsg[..];
      EncodeResponse(c, amsg, off, off + size, key, rnd.challenge, time, info, f);
      nt := NtResponse(c, key, cmsg[..][24..32], time, rnd.challenge, InfoField(f, info.list));
      SegSplice(m, lens, ws, 15, 0, nt);
      SpliceAll(ws[15], nt);
      SegAt(amsg[..], lens, ws[15 := nt], 15);
      PrefixSlice(amsg[..], off, nt, 16);
      base := c.hmac(key, amsg[..][off..off + 16]);
    }

    /** The server's time stamp if it sent one. */
    method ResponseTime(cmsg: array<byte>, info: TargetInfoEncoder, rnd: ClientRandom) returns (time: Bytes8)
      requires info.Valid() && info.buf == cmsg
      ensures time == ClientTime(info.list, rnd)
    {
      time := rnd.now;
      StoredValue(cmsg[..], info.lo, info.hi, info.infoMap, info.list, TIMESTAMP);
      if TIMESTAMP in info.infoMap {
        var r := info.infoMap[TIMESTAMP];
        time := TimeField(cmsg[..][info.lo + r.lo..info.lo + r.hi]);
      }
    }
  }

  /** What the map of an encoder says about an id. */
  lemma StoredValue(b: Bytes, lo: nat, hi: nat, m: map<nat, Range>, l: seq<AvPair>, id: nat)
    requires Describes(b, lo, hi, m, l)
    ensures id in m <==> LastValue(l, id).Some?
    ensures id in m ==> lo + m[id].lo <= lo + m[id].hi <= |b| && b[lo + m[id].lo..lo + m[id].hi] == LastValue(l, id).value
  {
    hide Describes, EncodePairs, LastIndex, ValueRange, Fit;
    DescribedBytes(b, lo, hi, m, l);
    DescribedAt(b, lo, hi, m, l, id);
    if id in m {
      RangeInside(l, LastIndex(l, id).value);
      SubSlice(b, lo, hi, m[id].lo, m[id].hi);
    }
  }

  /** The segments once the responses are in. */
  function ResponseSegments(d: Bytes, u: Bytes, w: Bytes, nt: Bytes): seq<Bytes> {
    var lm := 88 + |d| + |u| + |w|;
    AnonymousSegments(d, u, w, |nt|)[2 := Desc(24, lm)][15 := nt][3 := Desc(|nt|, lm + 24)]
  }

  /** The message with the responses in. */
  ghost predicate WithResponse(amsg: Bytes, d: Bytes, u: Bytes, w: Bytes, nt: Bytes, off: nat) {
    && off == 88 + |d| + |u| + |w|
    && Seg(amsg, AuthLens(|d|, |u|, |w|, |nt|), ResponseSegments(d, u, w, nt))
  }

  lemma ResponseStart(d: Bytes, u: Bytes, w: Bytes, n: nat, off: nat)
    ensures var lens, ws := AuthLens(|d|, |u|, |w|, n), AnonymousSegments(d, u, w, n);
            && |lens| == |ws| == 17 && lens[2] == 8 && lens[3] == 8 && lens[15] == n && ws[15] == Zeros(n)
            && Off(lens, 2) == 12 && Off(lens, 3) == 20 && Off(lens, 15) == 112 + |d| + |u| + |w|
    ensures LE16(24) + LE16(24) + LE32(off) == Desc(24, off) && LE16(n) + LE16(n) + LE32(off + 24) == Desc(n, off + 24)
  {
    AuthOffsets(|d|, |u|, |w|, n);
    DescIs(24, off);
    DescIs(n, off + 24);
  }

  lemma ResponseDone(d: Bytes, u: Bytes, w: Bytes, nt: Bytes, off: nat)
    requires off == 88 + |d| + |u| + |w|
    ensures |AnonymousSegments(d, u, w, |nt|)| == 17
    ensures AnonymousSegments(d, u, w, |nt|)[2 := Desc(24, off)][15 := nt][3 := Desc(|nt|, off + 24)] == ResponseSegments(d, u, w, nt)
  {
  }

  lemma MarkedChallengeIs(cmsg: Bytes, p: ParsedChallenge)
    requires Answerable(cmsg, p) && |EncodePairs(Marked(p.list))| == p.info.hi - p.info.lo
    ensures MarkedChallenge(cmsg, p) == Splice(cmsg, p.info.lo, EncodePairs(Marked(p.list)))
  {
  }

  lemma ClientResponseIs(c: Primitives, f: ClientConfig, cmsg: Bytes, p: ParsedChallenge, rnd: ClientRandom, time: Bytes8)
    requires Answerable(cmsg, p) && time == ClientTime(p.list, rnd)
    ensures |EncodePairs(p.list)| >= 4
    ensures ClientResponse(c, f, cmsg, p, rnd) ==
            NtResponse(c, ResponseKey(c, f.user, SecretHash(c, f), DomainOf(f, p.name)), MarkedChallenge(cmsg, p)[24..32], time,
                       rnd.challenge, InfoField(f, p.list))
  {
    InfoBytes(cmsg[p.info.lo..p.info.hi]);
  }

  /** Session key, flags, version and MIC. */
  method PutKeys(c: Primitives, amsg: array<byte>, off: nat, flags: nat, exported: Digest, encrypted: Bytes, nmsg: Bytes, cmsg: Bytes, ghost a: Auth)
    requires off >= 24 + |a.nt| && WithResponse(amsg[..], a.domain, a.user, a.workstation, a.nt, off - 24 - |a.nt|)
    requires a.flags == flags && a.encrypted == encrypted && (encrypted == [] || |encrypted| == 16)
    modifies amsg
    ensures amsg[..] == AuthMessage(c, exported, nmsg, cmsg, a)
  {
    ghost var lens := AuthLens(|a.domain|, |a.user|, |a.workstation|, |a.nt|);
    ghost var ws := ResponseSegments(a.domain, a.user, a.workstation, a.nt);
    KeyPlaces(a);
    ResponseParts(a);
    hide Seg, AuthLens, Off, Desc, Zeros, LE32, OptionalDesc, ResponseSegments, AuthSegments, Blank, Concat, WithoutKeys, Mic;
    KeysDone(ws, a, Mic(c, exported, nmsg, cmsg, a));
    PutEncrypted(amsg, off, encrypted, lens, ws);
    ws := ws[16 := if encrypted == [] then Zeros(16) else encrypted][7 := OptionalDesc(encrypted, off)];
    PutSegment(amsg, 60, LE32(flags), lens, ws, 8);
    ws := ws[8 := LE32(flags)];
    PutSegment(amsg, 64, VERSION, lens, ws, 9);
    ws := ws[9 := VERSION];
    PutMic(c, amsg, exported, nmsg, cmsg, a, lens, ws);
  }

  /** The MIC, over the messages with its field zero. */
  method PutMic(c: Primitives, amsg: array<byte>, exported: Digest, nmsg: Bytes, cmsg: Bytes, ghost a: Auth, ghost lens: seq<nat>, ghost ws: seq<Bytes>)
    requires |lens| == |ws| == 17 && Seg(amsg[..], lens, ws) && Off(lens, 10) == 72 && lens[10] == 16
    requires ws == AuthSegments(a, Zeros(16))
    requires var mic := Mic(c, exported, nmsg, cmsg, a); ws[10 := mic] == AuthSegments(a, mic)
    modifies amsg
    ensures amsg[..] == AuthMessage(c, exported, nmsg, cmsg, a)
  {
    hide Seg, Off, AuthSegments, Concat, Zeros;
    SegConcat(amsg[..], lens, ws);
    var mic := c.hmac(exported, nmsg + cmsg + amsg[..]);
    PutSegment(amsg, 72, mic, lens, ws, 10);
    SegConcat(amsg[..], lens, ws[10 := mic]);
  }

  /** The segments that PutKeys finds and keeps. */
  ghost predicate WithoutKeys(ws: seq<Bytes>, a: Auth) {
    var off := 88 + |a.domain| + |a.user| + |a.workstation|;
    && |ws| == 17 && ws[0] == SIGNATURE && ws[1] == LE32(3) && ws[2] == Desc(24, off) && ws[3] == Desc(|a.nt|, off + 24)
    && ws[4] == Desc(|a.domain|, 88) && ws[5] == OptionalDesc(a.user, 88 + |a.domain|)
    && ws[6] == OptionalDesc(a.workstation, 88 + |a.domain| + |a.user|)
    && ws[11] == a.domain && ws[12] == a.user && ws[13] == a.workstation && ws[14] == Zeros(24) && ws[15] == a.nt
  }

  lemma KeyPlaces(a: Auth)
    ensures var lens := AuthLens(|a.domain|, |a.user|, |a.workstation|, |a.nt|);
            && |lens| == 17 && Off(lens, 16) == 112 + |a.domain| + |a.user| + |a.workstation| + |a.nt| && lens[16] == 16
            && Off(lens, 7) == 52 && Off(lens, 8) == 60 && Off(lens, 9) == 64 && Off(lens, 10) == 72
            && lens[7] == 8 && lens[8] == 4 && lens[9] == 8 && lens[10] == 16
  {
    AuthOffsets(|a.domain|, |a.user|, |a.workstation|, |a.nt|);
    hide Off;
  }

  lemma ResponseParts(a: Auth)
    ensures var ws := ResponseSegments(a.domain, a.user, a.workstation, a.nt);
            WithoutKeys(ws, a) && ws[7] == Zeros(8) && ws[10] == Zeros(16) && ws[16] == Zeros(16)
  {
    hide Desc, OptionalDesc, Zeros, LE32;
  }

  lemma KeysDone(ws: seq<Bytes>, a: Auth, mic: Bytes)
    requires WithoutKeys(ws, a) && ws[10] == Zeros(16)
    ensures var off := 112 + |a.domain| + |a.user| + |a.workstation| + |a.nt|;
            var vs := ws[16 := if a.encrypted == [] then Zeros(16) else a.encrypted][7 := OptionalDesc(a.encrypted, off)]
                      [8 := LE32(a.flags)][9 := VERSION];
            vs == AuthSegments(a, Zeros(16)) && vs[10 := mic] == AuthSegments(a, mic)
  {
    hide Desc, OptionalDesc, Zeros, LE32;
  }

  /** The encrypted session key, if keys are exchanged. */
  method PutEncrypted(amsg: array<byte>, off: nat, encrypted: Bytes, ghost lens: seq<nat>, ghost ws: seq<Bytes>)
    requires Seg(amsg[..], lens, ws) && |ws| == 17 == |lens| && off == Off(lens, 16) && Off(lens, 7) == 52
    requires lens[16] == 16 && lens[7] == 8 && ws[7] == Zeros(8) && ws[16] == Zeros(16)
    requires encrypted == [] || |encrypted| == 16
    modifies amsg
    ensures Seg(amsg[..], lens, ws[16 := if encrypted == [] then Zeros(16) else encrypted][7 := OptionalDesc(encrypted, off)])
  {
    hide Seg, Desc, Zeros, Off;
    if encrypted != [] {
      PutName(amsg, off, 52, encrypted, lens, ws, 7, 16);
    } else {
      assert ws[16 := Zeros(16)][7 := Zeros(8)] == ws;
    }
  }

  lemma AnswerDone(c: Primitives, f: ClientConfig, nmsg: Bytes, cmsg0: Bytes, p: ParsedChallenge, rnd: ClientRandom, key: Digest,
                   nt: Bytes, base: Digest, exported: Digest, encrypted: Bytes, cmsg: Bytes, amsg: Bytes)
    requires Answerable(cmsg0, p) && cmsg == MarkedChallenge(cmsg0, p)
    requires key == ResponseKey(c, f.user, SecretHash(c, f), DomainOf(f, p.name))
    requires nt == ClientResponse(c, f, cmsg0, p, rnd) && base == c.hmac(key, nt[..16])
    requires if Bit(p.flags, KEY_EXCH) then exported == rnd.sessionKey && encrypted == XorStream(c, Rc4(base, 0), rnd.sessionKey)
             else exported == base && encrypted == []
    requires amsg == AuthMessage(c, exported, nmsg, cmsg, Auth(p.flags, DomainOf(f, p.name), Encode(f.user), Encode(f.workstation), nt, encrypted))
    ensures Answered(c, f, nmsg, cmsg0, p, rnd, cmsg, amsg, exported)
  {
    hide ClientResponse, MarkedChallenge, AuthMessage, Answerable, ResponseKey, Encode, XorStream, Bit;
  }

  /** What Answer leaves: the marked challenge, the message and the exported key. */
  ghost predicate Answered(c: Primitives, f: ClientConfig, nmsg: Bytes, cmsg0: Bytes, p: ParsedChallenge, rnd: ClientRandom, cmsg: Bytes, amsg: Bytes, exported: Digest) {
    && Answerable(cmsg0, p)
    && cmsg == MarkedChallenge(cmsg0, p)
    && exported == ClientKey(c, f, cmsg0, p, rnd)
    && amsg == ClientMessage(c, f, nmsg, cmsg0, p, rnd)
  }

  /** How the client answers a challenge it parsed; s is its new session. */
  ghost predicate Responded(c: Primitives, f: ClientConfig, nmsg: Bytes, cmsg0: Bytes, p: ParsedChallenge, rnd: ClientRandom,
                            r: Outcome<Bytes>, cmsg: Bytes, s: Option<SessionState>) {
    if !HasCredentials(f) then r == Done(AnonymousMessage(f, p)) && s.None?
    else if !FlagsUsable(p.list) then r == Panics && s.None?
    else
      && Answerable(cmsg0, p)
      && cmsg == MarkedChallenge(cmsg0, p)
      && r == Done(ClientMessage(c, f, nmsg, cmsg0, p, rnd))
      && s == Some(SessionFor(c, true, p.flags, f.user, ClientKey(c, f, cmsg0, p, rnd)))
  }

  lemma RespondedAnonymous(c: Primitives, f: ClientConfig, nmsg: Bytes, cmsg0: Bytes, p: ParsedChallenge, rnd: ClientRandom, amsg: Bytes, cmsg: Bytes)
    requires !HasCredentials(f) && amsg == AnonymousMessage(f, p)
    ensures Responded(c, f, nmsg, cmsg0, p, rnd, Done(amsg), cmsg, None)
  {
  }

  lemma RespondedPanics(c: Primitives, f: ClientConfig, nmsg: Bytes, cmsg0: Bytes, p: ParsedChallenge, rnd: ClientRandom, cmsg: Bytes)
    requires HasCredentials(f) && !FlagsUsable(p.list)
    ensures Responded(c, f, nmsg, cmsg0, p, rnd, Panics, cmsg, None)
  {
  }

  lemma RespondedAnswered(c: Primitives, f: ClientConfig, nmsg: Bytes, cmsg0: Bytes, p: ParsedChallenge, rnd: ClientRandom, cmsg: Bytes, amsg: Bytes, exported: Digest)
    requires HasCredentials(f) && Answered(c, f, nmsg, cmsg0, p, rnd, cmsg, amsg, exported)
    ensures Responded(c, f, nmsg, cmsg0, p, rnd, Done(amsg), cmsg, Some(SessionFor(c, true, p.flags, f.user, exported)))
  {
  }

  lemma ResponseKeyIs(c: Primitives, f: ClientConfig, hash: Bytes, domain: Bytes)
    requires hash == if f.hash.Some? then f.hash.value else c.md4(Encode(f.password))
    ensures c.hmac(hash, Encode(c.upper(f.user)) + domain) == ResponseKey(c, f.user, SecretHash(c, f), domain)
  {
  }

  /** What the encoder knows of the information, in terms of its list. */
  lemma InfoSlice(e: TargetInfoEncoder, f: ClientConfig, p: ParsedChallenge)
    requires e.Valid() && e.spn == Encode(f.spn)
    requires p.info == Range(e.lo, e.hi) && p.list == e.list
    ensures e.lo + 4 <= e.hi <= e.buf.Length
    ensures FlagsUsable(e.list) <==> !(FLAGS in e.infoMap && e.infoMap[FLAGS].hi - e.infoMap[FLAGS].lo < 4)
    ensures AnonymousMessage(f, p) == Concat(AnonymousSegments(DomainOf(f, p.name), Encode(f.user), Encode(f.workstation), 48 + e.Size()))
  {
    DescribedBytes(e.buf[..], e.lo, e.hi, e.infoMap, e.list);
    hide Parsed, Locates, EncodePairs;
    if FLAGS in e.infoMap { RangeInside(e.list, LastIndex(e.list, FLAGS).value); }
  }

  lemma NegotiateOffsets()
    ensures var l := [8, 4, 4, 16, 8]; Off(l, 0) == 0 && Off(l, 1) == 8 && Off(l, 2) == 12 && Off(l, 3) == 16 && Off(l, 4) == 32 && Off(l, 5) == 40
  {
  }

  // ----- the server -----

  /** The flags a server answers with. */
  function ChallengeFlags(nmsg: Bytes): nat
    requires |nmsg| >= 16
  {
    Or(And(U32(nmsg, 12), DEFAULT_FLAGS), 0x80_0000)
  }

  /** The checks of Server.Challenge. */
  predicate NegotiateAccepted(nmsg: Bytes) {
    |nmsg| >= 32 && nmsg[..8] == SIGNATURE && U32(nmsg, 8) == 1
  }

  lemma TargetInfoBit(a: nat)
    ensures Bit(Or(a, 0x80_0000), NEGOTIATE_TARGET_INFO)
  {
    BitOr(a, 0x80_0000, NEGOTIATE_TARGET_INFO);
    assert Bit(0x80_0000, 23) by {
      assert Shift(0x80_0000, 8) == 0x8000 && Shift(0x8000, 8) == 0x80;
      BitShift(0x80_0000, 8, 15);
      BitShift(0x8000, 8, 7);
      assert Bit(0x80, 7);
    }
  }

  class Server {
    const c: Primitives
    const targetName: Str
    const nbName: Str
    const nbDomain: Str
    const dnsName: Str
    const dnsDomain: Str
    var accounts: map<Str, Str>
    var allowGuest: bool
    var nmsg: Bytes
    var cmsg: Bytes
    var session: Session?

    constructor (c: Primitives, targetName: Str, nbName: Str, nbDomain: Str, dnsName: Str, dnsDomain: Str)
      ensures this.c == c && this.targetName == targetName && this.nbName == nbName && this.nbDomain == nbDomain
      ensures this.dnsName == dnsName && this.dnsDomain == dnsDomain
      ensures accounts == map[] && !allowGuest && nmsg == [] && cmsg == [] && session == null
    {
      this.c, this.targetName, this.nbName, this.nbDomain := c, targetName, nbName, nbDomain;
      this.dnsName, this.dnsDomain := dnsName, dnsDomain;
      accounts, allowGuest, nmsg, cmsg, session := map[], false, [], [], null;
    }

    method AddAccount(user: Str, password: Str)
      modifies this`accounts
      ensures accounts == old(accounts)[user := password]
    {
      accounts := accounts[user := password];
    }

    function Info(time: Bytes8): seq<AvPair> {
      TargetInfoList(nbName, nbDomain, dnsName, dnsDomain, time)
    }

    /** Challenge. The time and the random challenge are parameters. */
    method Challenge(nmsg: Bytes, time: Bytes8, random: Bytes8) returns (r: Outcome<Bytes>)
      modifies this`nmsg, this`cmsg
      ensures this.nmsg == nmsg
      ensures !NegotiateAccepted(nmsg) ==> r == Failed && cmsg == old(cmsg)
      ensures NegotiateAccepted(nmsg) ==>
                r == Done(ChallengeMessage(ChallengeFlags(nmsg), Encode(targetName), EncodePairs(Info(time)), random)) && r == Done(cmsg)
    {
      hide U32, Or, And, Encode, EncodePairs;
      this.nmsg := nmsg;
      if |nmsg| < 32 || nmsg[..8] != SIGNATURE || U32(nmsg, 8) != 1 { return Failed; }
      var flags := Or(And(U32(nmsg, 12), DEFAULT_FLAGS), 0x80_0000);
      TargetInfoBit(And(U32(nmsg, 12), DEFAULT_FLAGS));
      var ti := BuildInfo(time);
      var m := WriteChallenge(flags, Encode(targetName), ti, random);
      cmsg := m;
      r := Done(m);
    }

    /** The target information, built back to front. */
    method BuildInfo(time: Bytes8) returns (ti: seq<AvPair>)
      ensures ti == Info(time)
    {
      hide Encode;
      ti := [AvPair(EOL, [])];
      if |nbDomain| > 0 { ti := [AvPair(NB_DOMAIN_NAME, Encode(nbDomain))] + ti; }
      if |nbName| > 0 { ti := [AvPair(NB_COMPUTER_NAME, Encode(nbName))] + ti; }
      if |dnsDomain| > 0 { ti := [AvPair(DNS_DOMAIN_NAME, Encode(dnsDomain))] + ti; }
      if |dnsName| > 0 { ti := [AvPair(DNS_COMPUTER_NAME, Encode(dnsName))] + ti; }
      ti := [AvPair(TIMESTAMP, time)] + ti;
    }

    /** Authenticate. */
    method Authenticate(amsg: array<byte>) returns (r: Outcome<()>)
      modifies this`session, amsg
      ensures var v := Verify(c, accounts, allowGuest, nmsg, cmsg, old(amsg[..]));
              && (if v.Done? then r == Done(()) else r == v.PropagateFailure())
              && (v.Done? ==> session != null && fresh(session) && session.c == c && session.State() == v.value)
              && (!v.Done? ==> session == old(session))
      ensures amsg[..] == AfterVerify(c, accounts, allowGuest, cmsg, old(amsg[..]))
    {
      hide U32, U16, Field, VerifyUser, Decode, AfterUser;
      ghost var m := amsg[..];
      if amsg.Length < 64 || amsg[..][..8] != SIGNATURE || U32(amsg[..], 8) != 3 { return Failed; }
      var flags := U32(amsg[..], 60);
      var nt :- Field(amsg[..], 20);
      var domain :- Field(amsg[..], 28);
      var userName :- Field(amsg[..], 36);
      var encrypted :- Field(amsg[..], 52);
      if |userName| != 0 && |nt| >= 16 {
        r := AuthenticateUser(amsg, flags, nt, domain, Decode(userName), encrypted);
        return r;
      }
      if allowGuest {
        session := new Session(c, GuestSession(flags));
        return Done(());
      }
      return Failed;
    }

    /** The part of Authenticate for a message with credentials. */
    method AuthenticateUser(amsg: array<byte>, flags: nat, nt: Bytes, domain: Bytes, user: Str, encrypted: Bytes) returns (r: Outcome<()>)
      requires |nt| >= 16
      modifies this`session, amsg
      ensures var v := VerifyUser(c, accounts, allowGuest, nmsg, cmsg, old(amsg[..]), flags, nt, domain, user, encrypted);
              && (if v.Done? then r == Done(()) else r == v.PropagateFailure())
              && (v.Done? ==> session != null && fresh(session) && session.c == c && session.State() == v.value)
              && (!v.Done? ==> session == old(session))
      ensures amsg[..] == AfterUser(c, accounts, allowGuest, cmsg, old(amsg[..]), flags, nt, domain, user, encrypted)
    {
      hide MicZeroed, NtResponse, Bit, SessionFor, CheckMic, ServerKey, CheckResponse, XorStream, Parsed;
      if user !in accounts && !allowGuest { return Failed; }
      var password := if user in accounts then accounts[user] else [];
      var key := ResponseKey(c, user, PasswordHash(c, password), domain);
      var base := CompareResponse(key, nt);
      if base.IsFailure() { return base.PropagateFailure(); }
      var exported :- ServerKey(c, flags, base.value, encrypted);
      var ok := CompareMic(amsg, flags, exported, nt[44..]);
      if ok.IsFailure() { return ok; }
      session := new Session(c, SessionFor(c, false, flags, user, exported));
      return Done(());
    }

    /** Recompute the response and compare; the session base key. */
    method CompareResponse(key: Digest, nt: Bytes) returns (r: Outcome<Digest>)
      requires |nt| >= 16
      ensures r == CheckResponse(c, key, cmsg, nt)
    {
      hide NtResponse;
      if |nt| < 44 || |cmsg| < 32 { return Panics; }
      var expected := new byte[|nt|](_ => 0);
      assert expected[..] == Zeros(|nt|);
      EncodeExpected(c, expected, key, cmsg[24..32], nt[32..40], nt[24..32], nt[44..]);
      if nt != expected[..] { return Failed; }
      return Done(c.hmac(key, nt[..16]));
    }

    /** The MIC check, which zeroes the field in place. */
    method CompareMic(amsg: array<byte>, flags: nat, key: Digest, info: Bytes) returns (r: Outcome<()>)
      modifies amsg
      ensures r == CheckMic(c, flags, key, nmsg, cmsg, old(amsg[..]), info)
      ensures amsg[..] == MicZeroed(flags, old(amsg[..]), info)
    {
      var infoMap := ParseAvPairs(info);
      if infoMap.None? || FLAGS !in infoMap.value {
        assert Parsed(info).None? || LastIndex(Parsed(info).value, FLAGS).None?;
        return Done(());
      }
      var range := infoMap.value[FLAGS];
      ParsedValue(info, infoMap.value, FLAGS);
      hide Parsed, LastValue, Splice, Bit, U32;
      var avFlags := info[range.lo..range.hi];
      if |avFlags| < 4 { return Panics; }
      if !Bit(U32(avFlags, 0), 1) { return Done(()); }
      var at := if Bit(flags, NEGOTIATE_VERSION) then 72 else 64;
      if amsg.Length < at + 16 { return Panics; }
      var mic := amsg[..][at..at + 16];
      Put(amsg, at, Zeros(16));
      if mic != c.hmac(key, nmsg + cmsg + amsg[..]) { return Failed; }
      return Done(());
    }
  }

  lemma ParsedValue(bs: Bytes, m: map<nat, Range>, id: nat)
    requires Parsed(bs).Some? && Locates(m, Parsed(bs).value) && id in m
    ensures m[id].lo <= m[id].hi <= |bs| && LastValue(Parsed(bs).value, id) == Some(bs[m[id].lo..m[id].hi])
  {
    EncodeOfPairs(bs);
    RangeInside(Parsed(bs).value, LastIndex(Parsed(bs).value, id).value);
  }

  /** The challenge message. */
  method WriteChallenge(flags: nat, name: Bytes, ti: seq<AvPair>, random: Bytes8) returns (m: Bytes)
    requires Bit(flags, NEGOTIATE_TARGET_INFO)
    ensures m == ChallengeMessage(flags, name, EncodePairs(ti), random)
  {
    hide EncodePairs, Seg, Blank, Zeros, Splice, LE32, Desc, ChallengeLens, Off, NameShift, NameField, NamePayload, VersionBytes,
         Concat, ChallengeSegments;
    ghost var info := EncodePairs(ti);
    ghost var lens := ChallengeLens(flags, name, info);
    ChallengeOffsets(flags, name, info);
    ChallengeBlank(flags, name, info);
    var size := TargetInfoSize(ti);
    var version := VersionBytes(flags);
    var b := new byte[48 + size + |version| + |name| + 4](_ => 0);
    BlankSeg(b[..], lens);
    ghost var ws := Blank(lens);
    PutChallengeHeader(b, flags, random, version, lens, ws);
    ws := ws[0 := SIGNATURE][1 := LE32(2)][3 := LE32(flags)][4 := random][7 := version];
    PutTargetName(b, 48 + |version| + size, flags, name, size, lens, ws);
    ws := ws[2 := NameField(flags, name, 48 + |version| + size)][8 := NamePayload(flags, name, size, ws[8])];
    var shift := NameShift(flags, name);
    PutTargetInfo(b, 48 + |version| + shift, ti, size, lens, ws, shift);
    ws := ws[8 := Splice(ws[8], shift, info)][6 := Desc(size, 48 + |version| + shift)];
    ChallengeDone(flags, name, info, random, ws);
    SegConcat(b[..], lens, ws);
    m := b[..];
  }

  /** The fields of fixed place. */
  method PutChallengeHeader(b: array<byte>, flags: nat, random: Bytes8, version: Bytes, ghost lens: seq<nat>, ghost ws: seq<Bytes>)
    requires |lens| == |ws| == 9 && Seg(b[..], lens, ws)
    requires Off(lens, 0) == 0 && Off(lens, 1) == 8 && Off(lens, 3) == 20 && Off(lens, 4) == 24 && Off(lens, 7) == 48
    requires lens[0] == 8 && lens[1] == 4 && lens[3] == 4 && lens[4] == 8 && lens[7] == |version|
    modifies b
    ensures Seg(b[..], lens, ws[0 := SIGNATURE][1 := LE32(2)][3 := LE32(flags)][4 := random][7 := version])
  {
    hide Seg, LE32, Off;
    ghost var s := ws;
    PutSegment(b, 0, SIGNATURE, lens, s, 0);
    s := s[0 := SIGNATURE];
    PutSegment(b, 8, LE32(2), lens, s, 1);
    s := s[1 := LE32(2)];
    PutSegment(b, 20, LE32(flags), lens, s, 3);
    s := s[3 := LE32(flags)];
    PutSegment(b, 24, random, lens, s, 4);
    s := s[4 := random];
    PutSegment(b, 48, version, lens, s, 7);
  }

  lemma ChallengeBlank(flags: nat, name: Bytes, info: Bytes)
    ensures var l := ChallengeLens(flags, name, info);
            && |l| == 9 && l[0] == 8 && l[1] == 4 && l[2] == 8 && l[3] == 4 && l[4] == 8 && l[5] == 8 && l[6] == 8
            && l[7] == |VersionBytes(flags)| && l[8] == |info| + |name| + 4
            && |Blank(l)| == 9 && Blank(l)[2] == Zeros(8) && Blank(l)[5] == Zeros(8) && Blank(l)[8] == Zeros(|info| + |name| + 4)
  {
  }

  /** The target name's field in the header. */
  function NameField(flags: nat, name: Bytes, off: nat): Bytes {
    if NameShift(flags, name) > 0 then Desc(|name|, off) else Zeros(8)
  }

  /** The payload once the target name is in. */
  function NamePayload(flags: nat, name: Bytes, size: nat, p: Bytes): Bytes {
    if NameShift(flags, name) > 0 && size + |name| <= |p| then Splice(p, size, name) else p
  }

  /** The target name behind the room for the target information, if the client asked for it. */
  method PutTargetName(b: array<byte>, off: nat, flags: nat, name: Bytes, ghost size: nat, ghost lens: seq<nat>, ghost ws: seq<Bytes>)
    requires |lens| == |ws| == 9 && Seg(b[..], lens, ws) && Off(lens, 2) == 12 && lens[2] == 8 && ws[2] == Zeros(8)
    requires off == Off(lens, 8) + size && size + |name| <= lens[8]
    modifies b
    ensures |ws[8]| == lens[8]
    ensures Seg(b[..], lens, ws[2 := NameField(flags, name, off)][8 := NamePayload(flags, name, size, ws[8])])
  {
    hide Bit, Seg, Zeros, Splice, Desc, Off;
    SegWidth(b[..], lens, ws, 8);
    if name != [] && Bit(flags, REQUEST_TARGET) {
      PutInside(b, off, name, lens, ws, 8, size);
      DescIs(|name|, off);
      PutSegment(b, 12, LE16(|name|) + LE16(|name|) + LE32(off), lens, ws[8 := Splice(ws[8], size, name)], 2);
      assert ws[8 := Splice(ws[8], size, name)][2 := Desc(|name|, off)] == ws[2 := Desc(|name|, off)][8 := Splice(ws[8], size, name)];
    } else {
      assert ws[2 := Zeros(8)][8 := ws[8]] == ws;
    }
  }

  /** The target information and its field. */
  method PutTargetInfo(b: array<byte>, off: nat, ti: seq<AvPair>, size: nat, ghost lens: seq<nat>, ghost ws: seq<Bytes>, ghost rel: nat)
    requires |lens| == |ws| == 9 && Seg(b[..], lens, ws) && Off(lens, 6) == 40 && lens[6] == 8
    requires size == |EncodePairs(ti)| && off == Off(lens, 8) + rel && rel + size <= lens[8]
    modifies b
    ensures |ws[8]| == lens[8]
    ensures Seg(b[..], lens, ws[8 := Splice(ws[8], rel, EncodePairs(ti))][6 := Desc(size, off)])
  {
    hide Seg, Splice, Desc, Off, EncodePairs;
    SegWidth(b[..], lens, ws, 8);
    SegSplice(b[..], lens, ws, 8, rel, EncodePairs(ti));
    EncodeTargetInfo(b, off, ti);
    DescIs(size, off);
    PutSegment(b, 40, LE16(size) + LE16(size) + LE32(off), lens, ws[8 := Splice(ws[8], rel, EncodePairs(ti))], 6);
  }

  lemma ChallengeDone(flags: nat, name: Bytes, info: Bytes, random: Bytes8, ws: seq<Bytes>)
    requires var payload := 48 + |VersionBytes(flags)|;
             var blank := Zeros(|info| + |name| + 4);
             && |ws| == 9 && ws[0] == SIGNATURE && ws[1] == LE32(2) && ws[2] == NameField(flags, name, payload + |info|)
             && ws[3] == LE32(flags) && ws[4] == random && ws[5] == Zeros(8)
             && ws[6] == Desc(|info|, payload + NameShift(flags, name)) && ws[7] == VersionBytes(flags)
             && ws[8] == Splice(NamePayload(flags, name, |info|, blank), NameShift(flags, name), info)
    ensures ws == ChallengeSegments(flags, name, info, random)
  {
    hide Splice, Zeros, Desc, LE32;
  }

  method TargetInfoSize(t: seq<AvPair>) returns (s: nat)
    ensures s == |EncodePairs(t)|
  {
    s := 0;
    assert t[..|t|] == t;
    for i := 0 to |t|
      invariant s == |EncodePairs(t[..i])|
    {
      assert t[..i + 1] == t[..i] + [t[i]];
      EncodeSnoc(t[..i], t[i]);
      s := s + 4 + |t[i].value|;
    }
  }

  // ----- the whole exchange -----

  lemma {:induction false} BitOfPow2(n: nat, k: nat)
    ensures Bit(Pow2(n), k) <==> k == n
  {
    if n == 0 {
      if k > 0 { BitZero(k - 1); }
    } else if k > 0 {
      BitOfPow2(n - 1, k - 1);
    }
  }

  /** The server echoes the flags that this client offers. */
  lemma DefaultFlagsAnswered()
    ensures |NegotiateMessage()| == 40 && ChallengeFlags(NegotiateMessage()) == DEFAULT_FLAGS && NegotiateAccepted(NegotiateMessage())
  {
    hide U32, NegotiateMessage, And, Or;
    NegotiateReads();
    AndSelf(DEFAULT_FLAGS);
    assert Pow2(23) == 0x80_0000 by {
      Widths();
      Pow2Add(16, 7);
      assert Pow2(7) == 128;
    }
    forall k: nat ensures Bit(0x80_0000, k) ==> Bit(DEFAULT_FLAGS, k) {
      BitOfPow2(23, k);
      DefaultBits();
    }
    OrSubset(DEFAULT_FLAGS, 0x80_0000);
  }

  lemma InfoFits(f: ClientConfig, name: Bytes, list: seq<AvPair>)
    requires SizesFit(f, name, list)
    ensures |EncodePairs(list)| < TWO16
  {
  }

  /** Negotiate, Challenge, Authenticate and Authenticate, each message copied over the network: all four
      succeed, and both objects hold sessions with the same keys and cipher states. */
  method Handshake(client: Client, server: Server, time: Bytes8, random: Bytes8, rnd: ClientRandom) returns (ok: bool)
    requires client.c == server.c
    requires SizesFit(client.f, Encode(server.targetName), server.Info(time))
    requires SameSecret(client.c, client.f, server.accounts) && NameSurvives(client.f.user)
    modifies client, server
    ensures ok && client.session != null && server.session != null
    ensures client.session.c == server.session.c == client.c && client.session.user == client.f.user
    ensures Agree(client.session.State(), server.session.State())
  {
    hide NegotiateMessage, ChallengeMessage, EncodePairs, ServerList, SizesFit, SameSecret, Encode, Verify, ParseChallenge, Answerable,
         MarkedChallenge, ClientMessage, ClientKey, SessionFor, NegotiateAccepted, ChallengeFlags, Agree, NameSurvives;
    ghost var c, f, list := client.c, client.f, server.Info(time);
    ghost var name := Encode(server.targetName);
    InfoFits(client.f, name, list);
    ServerBuildsServerList(server.nbName, server.nbDomain, server.dnsName, server.dnsDomain, time);
    DefaultFlagsAnswered();
    HonestRun(c, f, server.accounts, server.allowGuest, name, list, random, rnd);
    var nmsg := client.Negotiate();
    var challenge := server.Challenge(nmsg, time, random);
    ghost var p := ParseChallenge(nmsg, challenge.value).value;
    var amsg := ClientReplies(client, challenge.value, p, rnd);
    ghost var s := client.session.State();
    ok := ServerAccepts(server, amsg, s);
  }

  /** The client's part of a run. */
  method ClientReplies(client: Client, challenge: Bytes, ghost p: ParsedChallenge, rnd: ClientRandom) returns (amsg: Bytes)
    requires |client.nmsg| >= 16 && HasCredentials(client.f)
    requires ParseChallenge(client.nmsg, challenge) == Done(p) && Answerable(challenge, p)
    modifies client`session
    ensures amsg == ClientMessage(client.c, client.f, client.nmsg, challenge, p, rnd)
    ensures client.session != null && fresh(client.session) && client.session.c == client.c
    ensures client.session.State() == SessionFor(client.c, true, p.flags, client.f.user, ClientKey(client.c, client.f, challenge, p, rnd))
  {
    hide Answerable, ParseChallenge, ClientMessage, ClientKey, SessionFor, Responded;
    var cmsg := ArrayOf(challenge);
    var answer;
    ghost var s;
    answer, s := client.Authenticate(cmsg, rnd);
    RespondedHonestly(client.c, client.f, client.nmsg, challenge, p, rnd, answer, cmsg[..], s);
    amsg := answer.value;
  }

  /** The server's part. */
  method ServerAccepts(server: Server, m: Bytes, ghost s: SessionState) returns (ok: bool)
    requires Verify(server.c, server.accounts, server.allowGuest, server.nmsg, server.cmsg, m).Done?
    requires Agree(s, Verify(server.c, server.accounts, server.allowGuest, server.nmsg, server.cmsg, m).value)
    modifies server`session
    ensures ok && server.session != null && fresh(server.session) && server.session.c == server.c
    ensures Agree(s, server.session.State())
  {
    hide Verify, Agree;
    var amsg := ArrayOf(m);
    var verdict := server.Authenticate(amsg);
    ok := verdict.Done?;
  }

  /** The messages of a run, on values. */
  lemma HonestRun(c: Primitives, f: ClientConfig, accounts: map<Str, Str>, guest: bool, name: Bytes, list: seq<AvPair>, random: Bytes8, rnd: ClientRandom)
    requires ServerList(list) && SizesFit(f, name, list) && SameSecret(c, f, accounts) && NameSurvives(f.user)
    ensures HasCredentials(f)
    ensures var nmsg, cmsg := NegotiateMessage(), ChallengeMessage(DEFAULT_FLAGS, name, EncodePairs(list), random);
            && |nmsg| >= 16 && ParseChallenge(nmsg, cmsg).Done?
            && var p := ParseChallenge(nmsg, cmsg).value;
               && Answerable(cmsg, p)
               && var s := SessionFor(c, true, p.flags, f.user, ClientKey(c, f, cmsg, p, rnd));
                  var v := Verify(c, accounts, guest, nmsg, cmsg, ClientMessage(c, f, nmsg, cmsg, p, rnd));
                  v.Done? && Agree(s, v.value) && s.user == f.user
  {
    hide NegotiateMessage, ChallengeMessage, EncodePairs, Verify, ParseChallenge, ClientMessage, ClientKey, Agree, Answerable, ServerList;
    ChallengeAnswerable(f, name, list, random);
    Agreement(c, f, accounts, guest, name, list, random, rnd);
  }

  lemma RespondedHonestly(c: Primitives, f: ClientConfig, nmsg: Bytes, cmsg0: Bytes, p: ParsedChallenge, rnd: ClientRandom,
                          r: Outcome<Bytes>, cmsg: Bytes, s: Option<SessionState>)
    requires Responded(c, f, nmsg, cmsg0, p, rnd, r, cmsg, s) && HasCredentials(f) && Answerable(cmsg0, p)
    ensures r == Done(ClientMessage(c, f, nmsg, cmsg0, p, rnd))
    ensures s == Some(SessionFor(c, true, p.flags, f.user, ClientKey(c, f, cmsg0, p, rnd)))
  {
  }

  /** A message as the other side receives it. */
  method ArrayOf(m: Bytes) returns (b: array<byte>)
    ensures fresh(b) && b[..] == m
  {
    b := new byte[|m|](i requires 0 <= i < |m| => m[i]);
  }
}
