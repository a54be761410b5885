/** The attribute-value pairs of NTLM target information ([MS-NLMP] section 2.2.2.1): TargetInfo.Encode,
    parseAvPairs and targetInfoEncoder of internal/ntlm/ntlm.go. */
module AvPairs {
  import opened Bytes

  const EOL := 0
  const NB_COMPUTER_NAME := 1
  const NB_DOMAIN_NAME := 2
  const DNS_COMPUTER_NAME := 3
  const DNS_DOMAIN_NAME := 4
  const FLAGS := 6
  const TIMESTAMP := 7
  const TARGET_NAME := 9
  const CHANNEL_BINDINGS := 10

  datatype AvPair = AvPair(id: nat, value: Bytes)

  /** Ids are 16-bit. */
  predicate IdsFit(l: seq<AvPair>) { forall i :: 0 <= i < |l| ==> l[i].id < TWO16 }

  /** Values whose length fits the 16-bit length field. */
  predicate ValuesFit(l: seq<AvPair>) { forall i :: 0 <= i < |l| ==> |l[i].value| < TWO16 }

  predicate Fit(l: seq<AvPair>) { IdsFit(l) && ValuesFit(l) }

  // ----- the wire form -----

  function EncodePair(p: AvPair): (b: Bytes)
    ensures |b| == 4 + |p.value|
  {
    LE16(p.id) + LE16(|p.value|) + p.value
  }

  function EncodePairs(l: seq<AvPair>): Bytes {
    if l == [] then [] else EncodePairs(l[..|l| - 1]) + EncodePair(l[|l| - 1])
  }

  lemma EncodeSnoc(l: seq<AvPair>, p: AvPair)
    ensures EncodePairs(l + [p]) == EncodePairs(l) + EncodePair(p)
  {
    assert (l + [p])[..|l|] == l;
  }

  lemma {:induction false} EncodeConcat(l: seq<AvPair>, m: seq<AvPair>)
    ensures EncodePairs(l + m) == EncodePairs(l) + EncodePairs(m)
    decreases |m|
  {
    if m == [] {
      assert l + m == l;
    } else {
      var m0, p := m[..|m| - 1], m[|m| - 1];
      assert l + m == l + m0 + [p] && m == m0 + [p];
      EncodeConcat(l, m0);
      EncodeSnoc(l + m0, p);
      EncodeSnoc(m0, p);
    }
  }

  lemma EncodeCons(p: AvPair, l: seq<AvPair>)
    ensures EncodePairs([p] + l) == EncodePair(p) + EncodePairs(l)
  {
    EncodeConcat([p], l);
    EncodeSnoc([], p);
    assert [] + [p] == [p];
  }

  /** The pair at the front of bs, if all of it is there. */
  function FirstPair(bs: Bytes): (p: Option<AvPair>)
    ensures p.Some? ==> 4 + |p.value.value| <= |bs|
  {
    if |bs| < 4 || |bs| < 4 + U16(bs, 2) then None else Some(AvPair(U16(bs, 0), bs[4..4 + U16(bs, 2)]))
  }

  /** The pairs that bs is the concatenation of. */
  function Pairs(bs: Bytes): (r: Option<seq<AvPair>>)
    ensures r.Some? ==> Fit(r.value)
    decreases |bs|
  {
    if bs == [] then Some([])
    else
      var p := FirstPair(bs);
      if p.None? then None
      else
        var rest := Pairs(bs[4 + |p.value.value|..]);
        if rest.None? then None else Some([p.value] + rest.value)
  }

  lemma FirstPairOf(p: AvPair, rest: Bytes)
    requires p.id < TWO16 && |p.value| < TWO16
    ensures FirstPair(EncodePair(p) + rest) == Some(p)
    ensures (EncodePair(p) + rest)[4 + |p.value|..] == rest
  {
    var bs := EncodePair(p) + rest;
    assert At(bs, 0, LE16(p.id)) && At(bs, 2, LE16(|p.value|));
    ReadLE16(bs, 0, p.id);
    ReadLE16(bs, 2, |p.value|);
  }

  lemma PairsCons(p: AvPair, rest: Bytes)
    requires p.id < TWO16 && |p.value| < TWO16
    ensures Pairs(EncodePair(p) + rest) == if Pairs(rest).None? then None else Some([p] + Pairs(rest).value)
  {
    FirstPairOf(p, rest);
  }

  /** Parsing undoes encoding. */
  lemma {:induction false} PairsOfEncode(l: seq<AvPair>)
    requires Fit(l)
    ensures Pairs(EncodePairs(l)) == Some(l)
    decreases |l|
  {
    if l != [] {
      hide EncodePairs, EncodePair, Pairs;
      var p, rest := l[0], l[1..];
      assert l == [p] + rest;
      EncodeCons(p, rest);
      PairsOfEncode(rest);
      PairsCons(p, EncodePairs(rest));
    }
  }

  lemma EncodeFirstPair(bs: Bytes)
    requires FirstPair(bs).Some?
    ensures bs == EncodePair(FirstPair(bs).value) + bs[4 + |FirstPair(bs).value.value|..]
  {
    var p := FirstPair(bs).value;
    assert bs[..2] == LE16(p.id) && bs[2..4] == LE16(|p.value|);
  }

  /** And encoding undoes parsing: there is one way to read the bytes. */
  lemma {:induction false} EncodeOfPairs(bs: Bytes)
    requires Pairs(bs).Some?
    ensures EncodePairs(Pairs(bs).value) == bs
    decreases |bs|
  {
    if bs != [] {
      var p := FirstPair(bs).value;
      var tail := bs[4 + |p.value|..];
      EncodeOfPairs(tail);
      EncodeFirstPair(bs);
      EncodeCons(p, Pairs(tail).value);
    }
  }

  // ----- last value per id -----

  function LastIndex(l: seq<AvPair>, id: nat): (k: Option<nat>)
    ensures k.Some? ==> k.value < |l| && l[k.value].id == id && forall j :: k.value < j < |l| ==> l[j].id != id
    ensures k.None? ==> forall j :: 0 <= j < |l| ==> l[j].id != id
  {
    if l == [] then None
    else if l[|l| - 1].id == id then Some(|l| - 1)
    else LastIndex(l[..|l| - 1], id)
  }

  /** A value stored for an id is replaced by a later one. */
  function LastValue(l: seq<AvPair>, id: nat): Option<Bytes> {
    var k := LastIndex(l, id);
    if k.None? then None else Some(l[k.value].value)
  }

  lemma LastIndexSnoc(l: seq<AvPair>, p: AvPair, id: nat)
    ensures LastIndex(l + [p], id) == if p.id == id then Some(|l|) else LastIndex(l, id)
  {
    assert (l + [p])[..|l|] == l;
  }

  lemma LastValueConcat(l: seq<AvPair>, m: seq<AvPair>, id: nat)
    ensures LastValue(l + m, id) == if LastValue(m, id).Some? then LastValue(m, id) else LastValue(l, id)
  {
    var a, b, c := LastIndex(l + m, id), LastIndex(m, id), LastIndex(l, id);
    if b.Some? { assert (l + m)[|l| + b.value] == m[b.value]; }
    if c.Some? { assert (l + m)[c.value] == l[c.value]; }
  }

  // ----- parseAvPairs -----

  /** A slice of the buffer that was parsed. */
  datatype Range = Range(lo: nat, hi: nat)

  /** The last four bytes are zero. */
  predicate Terminated(bs: Bytes) {
    |bs| >= 4 && bs[|bs| - 4..] == Zeros(4)
  }

  /** What parseAvPairs accepts, as a list. */
  function Parsed(bs: Bytes): (r: Option<seq<AvPair>>)
    ensures r.Some? ==> Fit(r.value)
  {
    if Terminated(bs) then Pairs(bs) else None
  }

  /** A pair is its number, the length of its value, and the value. */
  lemma PairOnTheWire(p: AvPair)
    requires p.id < 0x1_0000 && |p.value| < 0x1_0000
    ensures EncodePair(p) == [p.id % 256, p.id / 256, |p.value| % 256, |p.value| / 256] + p.value
  {
  }

  /** parseAvPairs accepts exactly the encodings of lists, not empty, that end in four zero bytes. */
  lemma ParsedIff(bs: Bytes, l: seq<AvPair>)
    ensures Parsed(bs) == Some(l) <==> Fit(l) && EncodePairs(l) == bs && |bs| >= 4 && bs[|bs| - 4..] == [0, 0, 0, 0]
  {
    assert Zeros(4) == [0, 0, 0, 0];
    hide EncodePairs, Pairs, Zeros, Fit;
    if Pairs(bs) == Some(l) { EncodeOfPairs(bs); }
    if Fit(l) { PairsOfEncode(l); }
  }

  /** Where the value of pair k of the list stands in its encoding. */
  function ValueRange(l: seq<AvPair>, k: nat): Range
    requires k < |l|
  {
    var at := |EncodePairs(l[..k])| + 4;
    Range(at, at + |l[k].value|)
  }

  /** The map holds, for each id, the slice of its last value. */
  ghost predicate Locates(m: map<nat, Range>, l: seq<AvPair>) {
    forall id :: (id in m <==> LastIndex(l, id).Some?) &&
                 (id in m ==> m[id] == ValueRange(l, LastIndex(l, id).value))
  }

  lemma {:induction false} RangeInside(l: seq<AvPair>, k: nat)
    requires k < |l|
    ensures var b, r := EncodePairs(l), ValueRange(l, k); r.lo <= r.hi <= |b| && b[r.lo..r.hi] == l[k].value
  {
    var pre, p, post := l[..k], l[k], l[k + 1..];
    assert l == pre + [p] + post;
    EncodeConcat(pre + [p], post);
    EncodeSnoc(pre, p);
    var b := EncodePairs(l);
    assert b == EncodePairs(pre) + EncodePair(p) + EncodePairs(post);
    var r := ValueRange(l, k);
    assert b[r.lo..r.hi] == EncodePair(p)[4..] == p.value;
  }

  lemma LocatesNone()
    ensures Locates(map[], [])
  {
  }

  lemma SameRange(l: seq<AvPair>, p: AvPair, k: nat)
    requires k <= |l|
    ensures ValueRange(l + [p], k) ==
            if k < |l| then ValueRange(l, k)
            else Range(|EncodePairs(l)| + 4, |EncodePairs(l)| + 4 + |p.value|)
  {
    assert (l + [p])[..k] == l[..k] && l[..|l|] == l;
  }

  lemma LocatesMore(m: map<nat, Range>, l: seq<AvPair>, p: AvPair)
    requires Locates(m, l)
    ensures var at := |EncodePairs(l)| + 4; Locates(m[p.id := Range(at, at + |p.value|)], l + [p])
  {
    hide LastIndex, ValueRange;
    var at := |EncodePairs(l)| + 4;
    var m', l' := m[p.id := Range(at, at + |p.value|)], l + [p];
    forall id ensures (id in m' <==> LastIndex(l', id).Some?) &&
                      (id in m' ==> m'[id] == ValueRange(l', LastIndex(l', id).value)) {
      LastIndexSnoc(l, p, id);
      if LastIndex(l, id).Some? { SameRange(l, p, LastIndex(l, id).value); }
      SameRange(l, p, |l|);
    }
  }

  lemma PairsAfter(bs: Bytes, off: nat, done: seq<AvPair>)
    requires off < |bs| && Fit(done) && bs[..off] == EncodePairs(done)
    ensures var p := FirstPair(bs[off..]);
            if p.None? then Pairs(bs[off..]).None?
            else Fit(done + [p.value]) && var next := off + 4 + |p.value.value|;
                 next <= |bs| && bs[..next] == EncodePairs(done + [p.value]) &&
                 bs[off..][4 + |p.value.value|..] == bs[next..]
  {
    hide EncodePairs, EncodePair, Fit;
    var left := bs[off..];
    PairsStuck(left);
    hide Pairs, FirstPair;
    var p := FirstPair(left);
    if p.Some? {
      FirstPairFits(left, done);
      EncodeFirstPair(left);
      EncodeSnoc(done, p.value);
      PrefixGrows(bs, off, EncodePair(p.value), left[4 + |p.value.value|..]);
    }
  }

  lemma PairsStuck(left: Bytes)
    requires left != []
    ensures FirstPair(left).None? ==> Pairs(left).None?
    ensures FirstPair(left).Some? ==> 4 + |FirstPair(left).value.value| <= |left|
  {
  }

  lemma FirstPairFits(left: Bytes, done: seq<AvPair>)
    requires FirstPair(left).Some? && Fit(done)
    ensures Fit(done + [FirstPair(left).value])
  {
  }

  lemma PrefixGrows(bs: Bytes, off: nat, t: Bytes, rest: Bytes)
    requires off <= |bs| && bs[off..] == t + rest
    ensures off + |t| <= |bs| && bs[..off + |t|] == bs[..off] + t && bs[off + |t|..] == rest
  {
    assert bs == bs[..off] + (t + rest);
    assert bs == (bs[..off] + t) + rest;
  }

  /** The pairs of what is left, put behind the pairs done, are the pairs of the whole. */
  ghost predicate Continues(bs: Bytes, off: nat, done: seq<AvPair>) {
    off <= |bs| && Pairs(bs) == (if Pairs(bs[off..]).None? then None else Some(done + Pairs(bs[off..]).value))
  }

  lemma ContinuesStart(bs: Bytes)
    ensures Continues(bs, 0, []) && bs[..0] == EncodePairs([]) && Fit([])
  {
    assert bs[0..] == bs;
    if Pairs(bs).Some? { assert [] + Pairs(bs).value == Pairs(bs).value; }
  }

  lemma ContinuesEnd(bs: Bytes, off: nat, done: seq<AvPair>)
    requires Continues(bs, off, done)
    ensures off == |bs| ==> Pairs(bs) == Some(done)
    ensures off < |bs| && FirstPair(bs[off..]).None? ==> Pairs(bs).None?
  {
    if off == |bs| { assert bs[off..] == []; assert done + [] == done; }
  }

  /** What parseAvPairs tests before it takes a pair. */
  lemma FirstPairIs(left: Bytes)
    ensures FirstPair(left).Some? <==> |left| >= 4 && |left| >= 4 + U16(left, 2)
    ensures FirstPair(left).Some? ==> FirstPair(left).value == AvPair(U16(left, 0), left[4..4 + U16(left, 2)])
  {
  }

  lemma ContinuesMore(bs: Bytes, off: nat, done: seq<AvPair>)
    requires off < |bs| && Continues(bs, off, done) && FirstPair(bs[off..]).Some?
    ensures var p := FirstPair(bs[off..]).value; Continues(bs, off + 4 + |p.value|, done + [p])
  {
    var p := FirstPair(bs[off..]).value;
    assert bs[off..][4 + |p.value|..] == bs[off + 4 + |p.value|..];
    var rest := Pairs(bs[off + 4 + |p.value|..]);
    if rest.Some? { assert done + ([p] + rest.value) == done + [p] + rest.value; }
  }

  /** parseAvPairs: stops on every input; a map exactly when the bytes end in four zeros and split into
      pairs, and then for each id the slice of its last value. */
  method ParseAvPairs(bs: Bytes) returns (r: Option<map<nat, Range>>)
    ensures if Parsed(bs).None? then r.None? else r.Some? && Locates(r.value, Parsed(bs).value)
  {
    hide Pairs, EncodePairs, FirstPair, Locates, Continues, EncodePair, Fit;
    if |bs| < 4 || bs[|bs| - 4..] != [0, 0, 0, 0] {
      assert Zeros(4) == [0, 0, 0, 0];
      return None;
    }
    assert Terminated(bs) by { assert Zeros(4) == [0, 0, 0, 0]; }
    LocatesNone();
    var pairs: map<nat, Range> := map[];
    var off := 0;
    ghost var done: seq<AvPair> := [];
    ContinuesStart(bs);
    while off < |bs|
      invariant 0 <= off <= |bs|
      invariant Fit(done) && bs[..off] == EncodePairs(done)
      invariant Continues(bs, off, done)
      invariant Locates(pairs, done)
      decreases |bs| - off
    {
      var left := bs[off..];
      PairsAfter(bs, off, done);
      FirstPairIs(left);
      ContinuesEnd(bs, off, done);
      if |left| < 4 { return None; }
      var id := U16(left, 0);
      var n := U16(left, 2);
      if |left| < 4 + n { return None; }
      ghost var p := FirstPair(left).value;
      LocatesMore(pairs, done, p);
      ContinuesMore(bs, off, done);
      pairs := pairs[id := Range(off + 4, off + 4 + n)];
      done := done + [p];
      off := off + 4 + n;
    }
    ContinuesEnd(bs, off, done);
    return Some(pairs);
  }

  /** For every list that ends in EOL and whose values are shorter than 65536 bytes, parsing its encoding
      gives back the list. */
  lemma ParsedEncode(l: seq<AvPair>)
    requires Fit(l) && l != [] && l[|l| - 1] == AvPair(EOL, [])
    ensures Parsed(EncodePairs(l)) == Some(l)
  {
    EncodedSuffix(l);
    EolIsZeros();
    hide EncodePairs, EncodePair, Pairs, Fit, Zeros;
    PairsOfEncode(l);
    var b := EncodePairs(l);
    SuffixIs(b, b[..|b| - 4], EncodePair(AvPair(EOL, [])));
  }

  lemma EolIsZeros()
    ensures EncodePair(AvPair(EOL, [])) == Zeros(4)
  {
  }

  lemma SuffixIs(b: Bytes, x: Bytes, y: Bytes)
    requires b == x + y
    ensures b[|b| - |y|..] == y
  {
  }

  /** TargetInfo.Encode */
  method EncodeTargetInfo(dst: array<byte>, start: nat, t: seq<AvPair>)
    requires start + |EncodePairs(t)| <= dst.Length
    modifies dst
    ensures dst[..] == Splice(old(dst[..]), start, EncodePairs(t))
  {
    var off := 0;
    var i := 0;
    assert t[..|t|] == t;
    assert dst[..] == Splice(dst[..], start, EncodePairs(t[..0]));
    hide EncodePairs, EncodePair, Splice;
    while i < |t|
      invariant 0 <= i <= |t| && off == |EncodePairs(t[..i])| && start + off <= dst.Length
      invariant dst[..] == Splice(old(dst[..]), start, EncodePairs(t[..i]))
    {
      assert t[..i + 1] == t[..i] + [t[i]];
      EncodeSnoc(t[..i], t[i]);
      EncodedPrefix(t, i + 1);
      EncodePairAt(dst, start + off, t[i]);
      SpliceMore(old(dst[..]), start, EncodePairs(t[..i]), EncodePair(t[i]));
      off := off + 4 + |t[i].value|;
      i := i + 1;
    }
  }

  /** The body of TargetInfo.Encode's loop. */
  method EncodePairAt(dst: array<byte>, off: nat, p: AvPair)
    requires off + 4 + |p.value| <= dst.Length
    modifies dst
    ensures dst[..] == Splice(old(dst[..]), off, EncodePair(p))
  {
    hide EncodePair, Splice;
    ghost var before := dst[..];
    Put(dst, off, LE16(p.id));
    Put(dst, off + 2, LE16(|p.value|));
    Put(dst, off + 4, p.value);
    SplicePair(before, off, p);
  }

  lemma EncodedPrefix(t: seq<AvPair>, i: nat)
    requires i <= |t|
    ensures |EncodePairs(t[..i])| <= |EncodePairs(t)|
  {
    assert t == t[..i] + t[i..];
    EncodeConcat(t[..i], t[i..]);
  }

  lemma SplicePair(b: Bytes, off: nat, p: AvPair)
    requires off + 4 + |p.value| <= |b|
    ensures Splice(Splice(Splice(b, off, LE16(p.id)), off + 2, LE16(|p.value|)), off + 4, p.value) ==
            Splice(b, off, EncodePair(p))
  {
    SpliceMore(b, off, LE16(p.id), LE16(|p.value|));
    SpliceMore(b, off, LE16(p.id) + LE16(|p.value|), p.value);
  }

  // ----- targetInfoEncoder -----

  /** The MIC bit of MsvAvFlags. */
  const MIC_PROVIDED := 2

  /** le.PutUint32(flags, le.Uint32(flags) | 0x02) */
  function SetMic(v: Bytes): (r: Bytes)
    requires |v| >= 4
    ensures |r| == |v|
  {
    LE32(Or(U32(v, 0), MIC_PROVIDED)) + v[4..]
  }

  predicate FlagsUsable(l: seq<AvPair>) {
    var v := LastValue(l, FLAGS);
    v.Some? ==> |v.value| >= 4
  }

  /** The list with the MIC bit set in its last flags pair, if it has one. */
  function Marked(l: seq<AvPair>): (r: seq<AvPair>)
    requires FlagsUsable(l)
    ensures |r| == |l|
  {
    var k := LastIndex(l, FLAGS);
    if k.None? then l else l[k.value := AvPair(FLAGS, SetMic(l[k.value].value))]
  }

  /** The pairs that encode appends. */
  function Extras(l: seq<AvPair>, spn: Bytes, bindings: Bytes): seq<AvPair> {
    (if LastIndex(l, FLAGS).Some? then [] else [AvPair(FLAGS, LE32(MIC_PROVIDED))])
    + [AvPair(CHANNEL_BINDINGS, bindings)]
    + (if spn == [] then [] else [AvPair(TARGET_NAME, spn)])
    + [AvPair(EOL, [])]
  }

  /** What encode writes: the marked information without its last four bytes, then the extra pairs. */
  function Extended(l: seq<AvPair>, spn: Bytes, bindings: Bytes): Bytes
    requires FlagsUsable(l) && |EncodePairs(l)| >= 4
  {
    var b := EncodePairs(Marked(l));
    MarkedLength(l);
    b[..|b| - 4] + EncodePairs(Extras(l, spn, bindings))
  }

  lemma {:induction false} ReplacedPair(l: seq<AvPair>, k: nat, p: AvPair)
    requires k < |l| && |p.value| == |l[k].value| && p.id == l[k].id
    ensures var b, at := EncodePairs(l), |EncodePairs(l[..k])| + 4;
            at + |p.value| <= |b| && EncodePairs(l[k := p]) == Splice(b, at, p.value)
  {
    hide EncodePairs, EncodePair, Splice;
    var pre, post := l[..k], l[k + 1..];
    assert l == pre + [l[k]] + post && l[k := p] == pre + [p] + post;
    EncodeConcat(pre + [l[k]], post);
    EncodeConcat(pre + [p], post);
    EncodeSnoc(pre, l[k]);
    EncodeSnoc(pre, p);
    PairBytes(p);
    PairBytes(l[k]);
    SpliceMiddle(EncodePairs(pre), LE16(p.id) + LE16(|p.value|), l[k].value, p.value, EncodePairs(post));
  }

  lemma PairBytes(p: AvPair)
    ensures EncodePair(p) == (LE16(p.id) + LE16(|p.value|)) + p.value
  {
  }

  lemma SpliceMiddle(pre: Bytes, h: Bytes, was: Bytes, now: Bytes, post: Bytes)
    requires |was| == |now|
    ensures Splice(pre + (h + was) + post, |pre| + |h|, now) == pre + (h + now) + post
  {
  }

  /** Marking the list overwrites the flags value in its encoding. */
  lemma MarkedBytes(l: seq<AvPair>)
    requires FlagsUsable(l)
    ensures var b, k := EncodePairs(l), LastIndex(l, FLAGS);
            if k.None? then EncodePairs(Marked(l)) == b
            else
              var r, v := ValueRange(l, k.value), l[k.value].value;
              && r.hi == r.lo + |v| <= |b| && b[r.lo..r.hi] == v && |v| >= 4
              && EncodePairs(Marked(l)) == Splice(b, r.lo, SetMic(v))
  {
    var k := LastIndex(l, FLAGS);
    if k.Some? {
      RangeInside(l, k.value);
      ReplacedPair(l, k.value, AvPair(FLAGS, SetMic(l[k.value].value)));
    }
  }

  lemma MarkedLength(l: seq<AvPair>)
    requires FlagsUsable(l)
    ensures |EncodePairs(Marked(l))| == |EncodePairs(l)|
  {
    MarkedBytes(l);
  }

  lemma EncodeNone()
    ensures EncodePairs([]) == []
  {
  }

  lemma ExtrasBytes(l: seq<AvPair>, spn: Bytes, bindings: Bytes)
    ensures EncodePairs(Extras(l, spn, bindings)) == ExtrasEncoding(LastIndex(l, FLAGS).Some?, spn, bindings)
  {
    EncodeNone();
    hide EncodePair, EncodePairs, LastIndex;
    var flags, end := AvPair(FLAGS, LE32(MIC_PROVIDED)), AvPair(EOL, []);
    var a := if LastIndex(l, FLAGS).Some? then [] else [flags];
    EncodeOptional([], flags, LastIndex(l, FLAGS).None?);
    assert [] + a == a;
    hide LE32;
    EncodeSnoc(a, AvPair(CHANNEL_BINDINGS, bindings));
    var ab := a + [AvPair(CHANNEL_BINDINGS, bindings)];
    EncodeOptional(ab, AvPair(TARGET_NAME, spn), spn != []);
    EncodeSnoc(ab + if spn == [] then [] else [AvPair(TARGET_NAME, spn)], end);
  }

  lemma EncodeOptional(l: seq<AvPair>, p: AvPair, present: bool)
    ensures EncodePairs(l + if present then [p] else []) == EncodePairs(l) + if present then EncodePair(p) else []
  {
    hide EncodePairs, EncodePair;
    if present { EncodeSnoc(l, p); } else { assert l + [] == l; }
  }

  /** The pairs that a reader of the target information is owed: all of them, up to the terminator. */
  function Owed(l: seq<AvPair>): seq<AvPair>
    requires l != []
  {
    if l[|l| - 1] == AvPair(EOL, []) then l[..|l| - 1] else l
  }

  /** A reader of encode's output gets the original pairs with the MIC bit set, in order, and more. */
  ghost predicate Keeps(l: seq<AvPair>, out: Bytes)
    requires l != [] && FlagsUsable(l)
  {
    Pairs(out).Some? && Owed(Marked(l)) <= Pairs(out).value
  }

  lemma {:induction false} EncodedSuffix(l: seq<AvPair>)
    requires l != []
    ensures var b, p := EncodePairs(l), l[|l| - 1];
            |b| >= 4 + |p.value| && b == b[..|b| - 4 - |p.value|] + EncodePair(p)
            && b[..|b| - 4 - |p.value|] == EncodePairs(l[..|l| - 1])
  {
  }

  lemma MarkedLast(l: seq<AvPair>)
    requires l != [] && FlagsUsable(l)
    ensures Marked(l)[|l| - 1] == AvPair(EOL, []) <==> l[|l| - 1] == AvPair(EOL, [])
  {
  }

  /** For information that ends in EOL: encode's output splits into the original pairs without the
      terminator (MIC bit set), and the extra pairs. */
  lemma ExtendedPairs(l: seq<AvPair>, spn: Bytes, bindings: Bytes)
    requires Fit(l) && l != [] && l[|l| - 1] == AvPair(EOL, []) && FlagsUsable(l)
    requires |spn| < TWO16 && |bindings| < TWO16
    ensures |EncodePairs(l)| >= 4
    ensures Extended(l, spn, bindings) == EncodePairs(Marked(l)[..|l| - 1] + Extras(l, spn, bindings))
    ensures Fit(Marked(l)[..|l| - 1] + Extras(l, spn, bindings))
    ensures Parsed(Extended(l, spn, bindings)) == Some(Marked(l)[..|l| - 1] + Extras(l, spn, bindings))
  {
    var m, e := Marked(l), Extras(l, spn, bindings);
    EncodedSuffix(l);
    MarkedLast(l);
    EncodedSuffix(m);
    OutFits(l, spn, bindings);
    hide EncodePairs, EncodePair, Parsed, Marked, Extras, Fit, FlagsUsable;
    EncodeConcat(m[..|l| - 1], e);
    ParsedEncode(m[..|l| - 1] + e);
  }

  /** The list that encode writes fits and ends in EOL. */
  lemma OutFits(l: seq<AvPair>, spn: Bytes, bindings: Bytes)
    requires Fit(l) && l != [] && FlagsUsable(l) && |spn| < TWO16 && |bindings| < TWO16
    ensures var out := Marked(l)[..|l| - 1] + Extras(l, spn, bindings);
            Fit(out) && out != [] && out[|out| - 1] == AvPair(EOL, [])
  {
    hide Or, LE32;
  }

  /** When the marked flags are not the end of the bytes, those still end in four zeros. */
  lemma MarkedTail(l: seq<AvPair>)
    requires l != [] && FlagsUsable(l) && Terminated(EncodePairs(l))
    ensures var b := EncodePairs(Marked(l)); |b| >= 4 && b[|b| - 4] in {0, 2}
    ensures LastIndex(l, FLAGS).None? ==> EncodePairs(Marked(l)) == EncodePairs(l)
  {
    hide EncodePairs, SetMic, Splice, Marked, LastIndex;
    MarkedBytes(l);
    var k := LastIndex(l, FLAGS);
    if k.Some? {
      MarkedSpliceTail(EncodePairs(l), ValueRange(l, k.value).lo, l[k.value].value);
    } else {
      assert EncodePairs(l)[|EncodePairs(l)| - 4] == EncodePairs(l)[|EncodePairs(l)| - 4..][0];
    }
  }

  lemma MarkedSpliceTail(b: Bytes, at: nat, v: Bytes)
    requires at + |v| <= |b| && |v| >= 4 && Terminated(b) && b[at..at + |v|] == v
    ensures Splice(b, at, SetMic(v))[|b| - 4] in {0, 2}
  {
    hide SetMic, Splice;
    SpliceByte(b, at, SetMic(v), |b| - 4);
    assert b[|b| - 4] == b[|b| - 4..][0];
    if |b| - 4 == at {
      assert v == b[at..at + |v|] == b[|b| - 4..] == Zeros(4);
      OrZero();
    } else if at < |b| - 4 < at + |v| {
      assert v[|b| - 4 - at] == b[at..at + |v|][|b| - 4 - at];
      UpperBytesKept(v);
    }
  }

  lemma SpliceByte(b: Bytes, at: nat, t: Bytes, i: nat)
    requires at + |t| <= |b| && i < |b|
    ensures Splice(b, at, t)[i] == if at <= i < at + |t| then t[i - at] else b[i]
  {
  }

  lemma OrZero()
    ensures SetMic(Zeros(4))[0] == 2
  {
    assert U32(Zeros(4), 0) == 0;
    assert Or(0, 2) == 2;
  }

  /** Setting bit 1 changes the lowest byte only. */
  lemma UpperBytesKept(v: Bytes)
    requires |v| >= 4
    ensures forall j :: 1 <= j < |v| ==> SetMic(v)[j] == v[j]
  {
    hide Or, LE32;
    var lo: int, h: int := v[0], v[1] + 256 * v[2] + TWO16 * v[3];
    assert U32(v, 0) == lo + 256 * h;
    hide U32;
    OrTwoLow(lo, h);
    var lo' := lo % 2 + 2 + lo / 4 * 4;
    assert lo' < 256;
    Digits(lo', v[1], v[2], v[3]);
  }

  lemma OrTwoLow(lo: byte, h: nat)
    ensures Or(lo + 256 * h, 2) == lo % 2 + 2 + lo / 4 * 4 + 256 * h
  {
    OrTwo(lo + 256 * h);
    assert (lo + 256 * h) / 4 == lo / 4 + 64 * h;
  }

  lemma Digits(a: byte, b: byte, c: byte, d: byte)
    ensures LE32(a + 256 * (b + 256 * c + TWO16 * d)) == [a, b, c, d]
  {
    var lo: int, hi: int := a + 256 * b, c + 256 * d;
    var v := lo + TWO16 * hi;
    assert v % TWO16 == lo && v / TWO16 == hi;
  }

  lemma OrTwo(x: nat)
    ensures Or(x, 2) == x % 2 + 2 + x / 4 * 4
  {
    assert Or(x, 2) == x % 2 + 2 * Or(x / 2, 1);
    assert Or(x / 2, 1) == 1 + 2 * Or(x / 2 / 2, 0);
    assert x / 2 / 2 == x / 4;
    OrNothing(x / 4);
  }

  /** encode keeps the original pairs if and only if the information ends in an EOL pair. parseAvPairs does
      not make sure of that: it only looks for four zero bytes, which can also end the last value. */
  lemma KeepsIffEol(l: seq<AvPair>, spn: Bytes, bindings: Bytes)
    requires Fit(l) && l != [] && FlagsUsable(l) && Terminated(EncodePairs(l)) && |spn| < TWO16 && |bindings| < TWO16
    ensures Keeps(l, Extended(l, spn, bindings)) <==> l[|l| - 1] == AvPair(EOL, [])
  {
    hide EncodePairs, Pairs, Extras, Marked;
    var m, out := Marked(l), Extended(l, spn, bindings);
    MarkedLast(l);
    if l[|l| - 1] == AvPair(EOL, []) {
      ExtendedPairs(l, spn, bindings);
      assert Owed(m) == m[..|l| - 1] <= Pairs(out).value;
    } else if Keeps(l, out) {
      KeptMeansPrefix(l, out);
      MarkedTail(l);
      MarkedLength(l);
      ExtrasFirst(l, spn, bindings);
      PrefixByte(EncodePairs(m), out, EncodePairs(Extras(l, spn, bindings)));
    }
  }

  lemma PrefixByte(b: Bytes, out: Bytes, x: Bytes)
    requires |b| >= 4 && |x| >= 1 && out == b[..|b| - 4] + x && b <= out
    ensures b[|b| - 4] == x[0]
  {
    assert b[|b| - 4] == out[..|b|][|b| - 4] == out[|b| - 4] == x[0];
  }

  lemma KeptMeansPrefix(l: seq<AvPair>, out: Bytes)
    requires l != [] && FlagsUsable(l) && l[|l| - 1] != AvPair(EOL, []) && Keeps(l, out)
    ensures EncodePairs(Marked(l)) <= out
  {
    hide EncodePairs, Pairs, Marked;
    var m, p := Marked(l), Pairs(out).value;
    MarkedLast(l);
    EncodeOfPairs(out);
    assert p == m + p[|m|..];
    EncodeConcat(m, p[|m|..]);
  }

  /** The bytes encode appends do not start like the four it cut off. */
  lemma ExtrasFirst(l: seq<AvPair>, spn: Bytes, bindings: Bytes)
    ensures var x := EncodePairs(Extras(l, spn, bindings)); |x| >= 1 && x[0] in {FLAGS, CHANNEL_BINDINGS}
  {
    ExtrasBytes(l, spn, bindings);
  }

  // ----- what a reader of encode's output finds -----

  lemma {:induction false} MarkedValue(l: seq<AvPair>, id: nat)
    requires FlagsUsable(l)
    ensures LastValue(Marked(l), id) ==
            if id == FLAGS && LastValue(l, id).Some? then Some(SetMic(LastValue(l, id).value)) else LastValue(l, id)
  {
    SameIds(l, Marked(l), id);
  }

  lemma {:induction false} SameIds(l: seq<AvPair>, m: seq<AvPair>, id: nat)
    requires |m| == |l| && forall i :: 0 <= i < |l| ==> m[i].id == l[i].id
    ensures LastIndex(m, id) == LastIndex(l, id)
    decreases |l|
  {
    if l != [] { SameIds(l[..|l| - 1], m[..|l| - 1], id); }
  }

  /** The value encode provides for an id that it sets itself. */
  function Provided(l: seq<AvPair>, spn: Bytes, bindings: Bytes, id: nat): Option<Bytes> {
    if id == EOL then Some([])
    else if id == TARGET_NAME && spn != [] then Some(spn)
    else if id == CHANNEL_BINDINGS then Some(bindings)
    else if id == FLAGS && LastIndex(l, FLAGS).None? then Some(LE32(MIC_PROVIDED))
    else None
  }

  lemma ExtrasValue(l: seq<AvPair>, spn: Bytes, bindings: Bytes, id: nat)
    ensures LastValue(Extras(l, spn, bindings), id) == Provided(l, spn, bindings, id)
  {
    hide LastIndex;
    var a := if LastIndex(l, FLAGS).Some? then [] else [AvPair(FLAGS, LE32(MIC_PROVIDED))];
    var b := a + [AvPair(CHANNEL_BINDINGS, bindings)];
    var c := b + if spn == [] then [] else [AvPair(TARGET_NAME, spn)];
    assert LastIndex([], id).None?;
    LastIndexSnoc([], AvPair(FLAGS, LE32(MIC_PROVIDED)), id);
    assert [] + [AvPair(FLAGS, LE32(MIC_PROVIDED))] == [AvPair(FLAGS, LE32(MIC_PROVIDED))];
    LastIndexSnoc(a, AvPair(CHANNEL_BINDINGS, bindings), id);
    LastIndexSnoc(b, AvPair(TARGET_NAME, spn), id);
    if spn == [] { assert c == b; }
    LastIndexSnoc(c, AvPair(EOL, []), id);
  }

  /** The parse of encode's output: each id has the value encode provides, else its original one; flags that
      were there keep theirs with the MIC bit set. */
  lemma ExtendedValue(l: seq<AvPair>, spn: Bytes, bindings: Bytes, id: nat)
    requires Fit(l) && l != [] && l[|l| - 1] == AvPair(EOL, []) && FlagsUsable(l)
    requires |spn| < TWO16 && |bindings| < TWO16 && id != EOL
    ensures |EncodePairs(l)| >= 4 && Parsed(Extended(l, spn, bindings)).Some?
    ensures LastValue(Parsed(Extended(l, spn, bindings)).value, id) ==
            if Provided(l, spn, bindings, id).Some? then Provided(l, spn, bindings, id)
            else if id == FLAGS then Some(SetMic(LastValue(l, FLAGS).value))
            else LastValue(l, id)
  {
    hide Extras, Marked, Extended, Parsed, Pairs, EncodePairs, Provided, SetMic, LastIndex, LastValue, Fit;
    ExtendedPairs(l, spn, bindings);
    var out := Marked(l)[..|l| - 1] + Extras(l, spn, bindings);
    OutValue(l, spn, bindings, id);
  }

  lemma OutValue(l: seq<AvPair>, spn: Bytes, bindings: Bytes, id: nat)
    requires l != [] && l[|l| - 1] == AvPair(EOL, []) && FlagsUsable(l) && id != EOL
    ensures LastValue(Marked(l)[..|l| - 1] + Extras(l, spn, bindings), id) ==
            if Provided(l, spn, bindings, id).Some? then Provided(l, spn, bindings, id)
            else if id == FLAGS then Some(SetMic(LastValue(l, FLAGS).value))
            else LastValue(l, id)
  {
    var m := Marked(l);
    MarkedLast(l);
    assert id == FLAGS && LastIndex(l, FLAGS).None? ==> Provided(l, spn, bindings, id).Some?;
    assert LastIndex(l, FLAGS).Some? <==> LastValue(l, FLAGS).Some?;
    hide Extras, Marked, Provided, SetMic, LastIndex, LastValue;
    LastValueConcat(m[..|l| - 1], Extras(l, spn, bindings), id);
    ExtrasValue(l, spn, bindings, id);
    MarkedValue(l, id);
    assert m == m[..|l| - 1] + [AvPair(EOL, [])];
    LastValueEnd(m[..|l| - 1], id);
  }

  lemma LastValueEnd(l: seq<AvPair>, id: nat)
    requires id != EOL
    ensures LastValue(l + [AvPair(EOL, [])], id) == LastValue(l, id)
  {
    LastIndexSnoc(l, AvPair(EOL, []), id);
  }

  lemma BitOfTwo(k: nat)
    ensures Bit(2, k) <==> k == 1
  {
    if k >= 2 { NoHighBits(2, 2, k); }
  }

  /** The MIC bit is set, and the other flag bits are as they were. */
  lemma SetMicBits(v: Bytes, k: nat)
    requires |v| >= 4
    ensures Bit(U32(SetMic(v), 0), k) <==> k == 1 || Bit(U32(v, 0), k)
  {
    SetMicWord(v);
    hide Or, U32, SetMic, Bit;
    BitOr(U32(v, 0), MIC_PROVIDED, k);
    BitOfTwo(k);
  }

  lemma SetMicWord(v: Bytes)
    requires |v| >= 4
    ensures U32(SetMic(v), 0) == Or(U32(v, 0), MIC_PROVIDED)
  {
    hide Or, Pow2;
    var w := U32(v, 0);
    var x := Or(w, MIC_PROVIDED);
    assert At(SetMic(v), 0, LE32(x));
    hide U32, LE32, SetMic, At;
    ReadLE32(SetMic(v), 0, x);
    Widths();
    OrBound(w, MIC_PROVIDED, 32);
  }

  /** Four zeros inside the last value pass parseAvPairs; encode then cuts the value off. */
  lemma ZerosAreNotATerminator()
    ensures var l := [AvPair(NB_COMPUTER_NAME, Zeros(4))];
            && Parsed(EncodePairs(l)) == Some(l) && FlagsUsable(l)
            && !Keeps(l, Extended(l, [], Zeros(16)))
  {
    var p := AvPair(NB_COMPUTER_NAME, Zeros(4));
    var l := [p];
    PairsOfEncode(l);
    EncodeSnoc([], p);
    assert [] + [p] == l;
    var b := EncodePairs(l);
    assert b == EncodePair(p);
    assert b[|b| - 4..] == Zeros(4);
    KeepsIffEol(l, [], Zeros(16));
  }

  /** The slice lo..hi parses into the list, and the map locates its values. */
  ghost predicate Describes(b: Bytes, lo: nat, hi: nat, m: map<nat, Range>, l: seq<AvPair>) {
    lo <= hi <= |b| && Parsed(b[lo..hi]) == Some(l) && Locates(m, l)
  }

  lemma DescribedBytes(b: Bytes, lo: nat, hi: nat, m: map<nat, Range>, l: seq<AvPair>)
    requires Describes(b, lo, hi, m, l)
    ensures lo + 4 <= hi <= |b| && l != [] && Fit(l) && EncodePairs(l) == b[lo..hi] && Terminated(b[lo..hi])
    ensures FLAGS in m <==> LastIndex(l, FLAGS).Some?
    ensures FLAGS in m ==> m[FLAGS] == ValueRange(l, LastIndex(l, FLAGS).value)
  {
    EncodeOfPairs(b[lo..hi]);
  }

  lemma DescribedAt(b: Bytes, lo: nat, hi: nat, m: map<nat, Range>, l: seq<AvPair>, id: nat)
    requires Describes(b, lo, hi, m, l)
    ensures id in m <==> LastIndex(l, id).Some?
    ensures id in m ==> m[id] == ValueRange(l, LastIndex(l, id).value)
  {
    hide Parsed, ValueRange, LastIndex;
  }

  /** targetInfoEncoder. Info is the slice lo..hi of a message, and encode sets the MIC bit in place there. */
  class TargetInfoEncoder {
    const buf: array<byte>
    const lo: nat
    const hi: nat
    const spn: Bytes
    const infoMap: map<nat, Range>
    ghost const list: seq<AvPair>  // what the information parsed into

    constructor (buf: array<byte>, lo: nat, hi: nat, spn: Bytes, infoMap: map<nat, Range>, ghost list: seq<AvPair>)
      ensures this.buf == buf && this.lo == lo && this.hi == hi && this.spn == spn && this.infoMap == infoMap
      ensures this.list == list
    {
      this.buf, this.lo, this.hi, this.spn, this.infoMap := buf, lo, hi, spn, infoMap;
      this.list := list;
    }

    ghost predicate Valid()
      reads buf
    {
      Describes(buf[..], lo, hi, infoMap, list)
    }

    function Size(): nat
      requires lo <= hi
    {
      hi - lo + (if FLAGS in infoMap then 0 else 8) + 20 + (if spn != [] then 4 + |spn| else 0)
    }

    lemma Bounds()
      requires Valid()
      ensures lo + 4 <= hi <= buf.Length
    {
      DescribedBytes(buf[..], lo, hi, infoMap, list);
    }

    /** size is the number of bytes encode writes. */
    lemma SizeIsLength(bindings: Bytes)
      requires Valid() && FlagsUsable(list) && |bindings| == 16
      ensures |EncodePairs(list)| == hi - lo >= 4 && |Extended(list, spn, bindings)| == Size()
    {
      DescribedBytes(buf[..], lo, hi, infoMap, list);
      MarkedLength(list);
      ExtrasBytes(list, spn, bindings);
    }

    /** The first step of encode: the MIC bit, in place. */
    method MarkInPlace() returns (info: Bytes)
      requires Valid() && FlagsUsable(list)
      modifies buf
      ensures |EncodePairs(Marked(list))| == hi - lo
      ensures buf[..] == Splice(old(buf[..]), lo, EncodePairs(Marked(list))) && info == EncodePairs(Marked(list))
    {
      MarkedDescribed(buf[..], lo, hi, infoMap, list);
      hide EncodePairs, Marked, Describes, LastIndex, ValueRange, Or, U32, LE32, Splice, FlagsUsable, Valid;
      if FLAGS in infoMap {
        var at := lo + infoMap[FLAGS].lo;
        Put(buf, at, LE32(Or(U32(buf[..], at), MIC_PROVIDED)));
      }
      SpliceThere(old(buf[..]), lo, hi, EncodePairs(Marked(list)), buf[..]);
      info := buf[..][lo..hi];
    }

    /** encode: writes size() bytes, which are the extended information; the 16 bytes of the channel
        bindings stay as the caller's buffer has them. */
    method Encode(dst: array<byte>, start: nat)
      requires Valid() && FlagsUsable(list) && dst != buf && start + Size() <= dst.Length
      modifies dst, buf
      ensures |EncodePairs(list)| == hi - lo >= 4
      ensures var kept := old(dst[..])[BindingsAt(start)..BindingsAt(start) + 16];
              |Extended(list, spn, kept)| == Size() &&
              dst[..] == Splice(old(dst[..]), start, Extended(list, spn, kept))
      ensures |EncodePairs(Marked(list))| == hi - lo
      ensures buf[..] == Splice(old(buf[..]), lo, EncodePairs(Marked(list)))
    {
      hide EncodePairs, Marked, Describes, LastIndex, Extended, FlagsUsable, Splice, Valid, Fit;
      EncodeLength(dst[..], start);
      var info := MarkInPlace();
      WriteExtended(dst, start, info, FLAGS in infoMap, spn, list);
    }

    lemma EncodeLength(d: Bytes, start: nat)
      requires Valid() && FlagsUsable(list) && start + Size() <= |d|
      ensures lo + 4 <= hi <= buf.Length && |EncodePairs(list)| == |EncodePairs(Marked(list))| == hi - lo
      ensures FLAGS in infoMap <==> LastIndex(list, FLAGS).Some?
      ensures BindingsAt(start) + 16 <= |d|
      ensures |Extended(list, spn, d[BindingsAt(start)..BindingsAt(start) + 16])| == Size()
    {
      SizeIsLength(Zeros(16));
      SizeIsLength(d[BindingsAt(start)..BindingsAt(start) + 16]);
      MarkedLength(list);
      DescribedBytes(buf[..], lo, hi, infoMap, list);
    }

    function BindingsAt(start: nat): nat
      requires lo + 4 <= hi
    {
      start + BindingsOffset(FLAGS in infoMap, hi - lo)
    }
  }

  /** encode's writes to the destination. */
  method WriteExtended(dst: array<byte>, start: nat, info: Bytes, hasFlags: bool, spn: Bytes, ghost l: seq<AvPair>)
    requires FlagsUsable(l) && |EncodePairs(l)| == |info| >= 4 && info == EncodePairs(Marked(l))
    requires hasFlags <==> LastIndex(l, FLAGS).Some?
    requires start + |info| + (if hasFlags then 0 else 8) + 20 + (if spn == [] then 0 else 4 + |spn|) <= dst.Length
    modifies dst
    ensures var at := start + BindingsOffset(hasFlags, |info|);
            var y := Extended(l, spn, old(dst[..])[at..at + 16]);
            start + |y| <= dst.Length && dst[..] == Splice(old(dst[..]), start, y)
  {
    hide EncodePairs, Marked, LastIndex, Extended, FlagsUsable, Splice, ExtrasEncoding;
    ghost var b0 := dst[..];
    Put(dst, start, info[..|info| - 4]);
    EncodeExtras(dst, start + |info| - 4, hasFlags, spn);
    EncodeDone(b0, start, l, info, spn, dst[..]);
  }

  /** Setting the bit in place turns the slice into the encoding of the marked list. */
  lemma MarkedInside(all: Bytes, lo: nat, hi: nat, l: seq<AvPair>)
    requires lo <= hi <= |all| && all[lo..hi] == EncodePairs(l) && FlagsUsable(l) && LastIndex(l, FLAGS).Some?
    ensures |EncodePairs(Marked(l))| == hi - lo
    ensures var at := lo + ValueRange(l, LastIndex(l, FLAGS).value).lo;
            at + 4 <= hi &&
            Splice(all, at, LE32(Or(U32(all, at), MIC_PROVIDED))) == Splice(all, lo, EncodePairs(Marked(l)))
  {
    hide EncodePairs, Marked, LastIndex, Or, ValueRange, FlagsUsable, Splice, SetMic, U32, LE32;
    var k := LastIndex(l, FLAGS).value;
    var r := ValueRange(l, k);
    MarkedBytes(l);
    MarkedLength(l);
    MarkSlice(all, lo, hi, r.lo, r.hi);
  }

  lemma MarkedDescribed(all: Bytes, lo: nat, hi: nat, m: map<nat, Range>, l: seq<AvPair>)
    requires Describes(all, lo, hi, m, l) && FlagsUsable(l)
    ensures lo <= hi <= |all| && |EncodePairs(Marked(l))| == hi - lo
    ensures FLAGS in m ==>
              var at := lo + m[FLAGS].lo;
              at + 4 <= |all| &&
              Splice(all, at, LE32(Or(U32(all, at), MIC_PROVIDED))) == Splice(all, lo, EncodePairs(Marked(l)))
    ensures FLAGS !in m ==> Splice(all, lo, EncodePairs(Marked(l))) == all
  {
    hide EncodePairs, Marked, Describes, LastIndex, ValueRange, Or, U32, LE32, Splice, FlagsUsable, Parsed, Locates;
    MarkedLength(l);
    DescribedBytes(all, lo, hi, m, l);
    if FLAGS in m {
      MarkedInside(all, lo, hi, l);
    } else {
      MarkedBytes(l);
      SpliceSame(all, lo, hi);
    }
  }

  lemma MarkSlice(all: Bytes, lo: nat, hi: nat, i: nat, j: nat)
    requires lo <= hi <= |all| && i + 4 <= j <= hi - lo
    ensures Splice(all, lo + i, LE32(Or(U32(all, lo + i), MIC_PROVIDED))) ==
            Splice(all, lo, Splice(all[lo..hi], i, SetMic(all[lo..hi][i..j])))
  {
    hide Or, Splice, SetMic, LE32;
    SubSlice(all, lo, hi, i, j);
    var v := all[lo + i..lo + j];
    SameBytesSameWord2(all, lo + i, v);
    hide U32;
    var word := U32(all, lo + i);
    SetMicPart(all[lo..hi], i, j, word);
    SpliceInside(all, lo, hi, i, LE32(Or(word, MIC_PROVIDED)));
  }

  lemma SameBytesSameWord2(s: Bytes, off: nat, t: Bytes)
    requires off + |t| <= |s| && s[off..off + |t|] == t && |t| >= 4
    ensures U32(t, 0) == U32(s, off)
  {
    assert t[0] == s[off] && t[1] == s[off + 1] && t[2] == s[off + 2] && t[3] == s[off + 3];
  }

  /** Where encode leaves 16 bytes for the channel bindings. */
  function BindingsOffset(hasFlags: bool, infoLength: nat): nat
    requires infoLength >= 4
  {
    infoLength - 4 + (if hasFlags then 0 else 8) + 4
  }

  /** The two writes of encode make the extended information. */
  lemma EncodeDone(b0: Bytes, start: nat, l: seq<AvPair>, info: Bytes, spn: Bytes, b: Bytes)
    requires FlagsUsable(l) && |EncodePairs(l)| >= 4 && info == EncodePairs(Marked(l)) && |info| >= 4
    requires var hasFlags := LastIndex(l, FLAGS).Some?;
             var at := start + BindingsOffset(hasFlags, |info|);
             && start + |info| - 4 <= at && at + 16 <= |b0|
             && var b1 := Splice(b0, start, info[..|info| - 4]);
                var x := ExtrasEncoding(hasFlags, spn, b1[at..at + 16]);
                start + |info| - 4 + |x| <= |b0| && b == Splice(b1, start + |info| - 4, x)
    ensures var at := start + BindingsOffset(LastIndex(l, FLAGS).Some?, |info|);
            var y := Extended(l, spn, b0[at..at + 16]);
            start + |y| <= |b0| && b == Splice(b0, start, y)
  {
    hide EncodePairs, Marked, Splice, ExtrasEncoding, LastIndex;
    var hasFlags := LastIndex(l, FLAGS).Some?;
    var at := start + BindingsOffset(hasFlags, |info|);
    MarkedLength(l);
    KeptElsewhere(b0, start, info[..|info| - 4], at, 16);
    SpliceMore(b0, start, info[..|info| - 4], ExtrasEncoding(hasFlags, spn, b0[at..at + 16]));
    ExtrasBytes(l, spn, b0[at..at + 16]);
  }

  lemma KeptElsewhere(b: Bytes, start: nat, t: Bytes, at: nat, n: nat)
    requires start + |t| <= at && at + n <= |b|
    ensures Splice(b, start, t)[at..at + n] == b[at..at + n]
  {
  }

  /** The bytes of the extra pairs. */
  function ExtrasEncoding(hasFlags: bool, spn: Bytes, bindings: Bytes): Bytes {
    (if hasFlags then [] else EncodePair(AvPair(FLAGS, LE32(MIC_PROVIDED))))
    + EncodePair(AvPair(CHANNEL_BINDINGS, bindings))
    + (if spn == [] then [] else EncodePair(AvPair(TARGET_NAME, spn)))
    + EncodePair(AvPair(EOL, []))
  }

  /** The second part of encode. */
  method EncodeExtras(dst: array<byte>, start: nat, hasFlags: bool, spn: Bytes)
    requires start + (if hasFlags then 0 else 8) + 20 + (if spn == [] then 0 else 4 + |spn|) + 4 <= dst.Length
    modifies dst
    ensures var at := start + (if hasFlags then 0 else 8) + 4;
            var x := ExtrasEncoding(hasFlags, spn, old(dst[..])[at..at + 16]);
            start + |x| <= dst.Length && dst[..] == Splice(old(dst[..]), start, x)
  {
    hide EncodePair, Splice;
    ghost var b0 := dst[..];
    var off := start;
    ghost var acc: Bytes := [];
    SpliceNothing(b0, start);
    if !hasFlags {
      EncodePairAt(dst, off, AvPair(FLAGS, LE32(MIC_PROVIDED)));
      acc := EncodePair(AvPair(FLAGS, LE32(MIC_PROVIDED)));
      off := off + 8;
    }
    ghost var kept := b0[off + 4..off + 20];
    PutBindings(dst, off, b0, start, acc, kept);
    acc := acc + EncodePair(AvPair(CHANNEL_BINDINGS, kept));
    off := off + 20;
    if spn != [] {
      EncodePairAt(dst, off, AvPair(TARGET_NAME, spn));
      SpliceMore(b0, start, acc, EncodePair(AvPair(TARGET_NAME, spn)));
      acc := acc + EncodePair(AvPair(TARGET_NAME, spn));
      off := off + 4 + |spn|;
    }
    EncodePairAt(dst, off, AvPair(EOL, []));
    SpliceMore(b0, start, acc, EncodePair(AvPair(EOL, [])));
    assert acc + EncodePair(AvPair(EOL, [])) == ExtrasEncoding(hasFlags, spn, kept);
  }

  /** The channel-bindings pair: its header is written and 16 bytes are skipped. */
  method PutBindings(dst: array<byte>, off: nat, ghost b0: Bytes, ghost start: nat, ghost acc: Bytes, ghost kept: Bytes)
    requires start + |acc| == off && off + 20 <= dst.Length == |b0| && dst[..] == Splice(b0, start, acc)
    requires kept == b0[off + 4..off + 20]
    modifies dst
    ensures dst[..] == Splice(b0, start, acc + EncodePair(AvPair(CHANNEL_BINDINGS, kept)))
  {
    hide EncodePair, Splice, LE16;
    ghost var h := LE16(CHANNEL_BINDINGS) + LE16(16);
    PairBytes(AvPair(CHANNEL_BINDINGS, kept));
    assert acc + h == acc + LE16(CHANNEL_BINDINGS) + LE16(16);
    Put(dst, off, LE16(CHANNEL_BINDINGS));
    Put(dst, off + 2, LE16(16));
    SpliceMore(b0, start, acc, LE16(CHANNEL_BINDINGS));
    SpliceMore(b0, start, acc + LE16(CHANNEL_BINDINGS), LE16(16));
    SpliceKept(b0, start, acc + h, kept);
    assert acc + h + kept == acc + (h + kept);
  }

  lemma SetMicPart(b: Bytes, lo: nat, hi: nat, word: nat)
    requires lo + 4 <= hi <= |b| && word == U32(b[lo..hi], 0)
    ensures Splice(b, lo, SetMic(b[lo..hi])) == Splice(b, lo, LE32(Or(word, MIC_PROVIDED)))
  {
    hide U32, LE32, Or;
    assert b[lo..hi][4..] == b[lo + 4..hi];
    SpliceKept(b, lo, LE32(Or(word, MIC_PROVIDED)), b[lo + 4..hi]);
  }

  lemma SpliceInside(b: Bytes, lo: nat, hi: nat, off: nat, t: Bytes)
    requires lo <= hi <= |b| && off + |t| <= hi - lo
    ensures Splice(b, lo + off, t) == Splice(b, lo, Splice(b[lo..hi], off, t))
  {
  }

  /** newTargetInfoEncoder; null when the information does not parse. */
  method NewTargetInfoEncoder(buf: array<byte>, lo: nat, hi: nat, spn: Bytes) returns (e: TargetInfoEncoder?)
    requires lo <= hi <= buf.Length
    ensures e == null <==> Parsed(buf[..][lo..hi]).None?
    ensures e != null ==> fresh(e) && e.Valid() && e.buf == buf && e.lo == lo && e.hi == hi && e.spn == spn
    ensures e != null ==> e.list == Parsed(buf[..][lo..hi]).value
  {
    hide Parsed, Locates;
    var info := buf[..][lo..hi];
    var infoMap := ParseAvPairs(info);
    if infoMap.None? { return null; }
    e := new TargetInfoEncoder(buf, lo, hi, spn, infoMap.value, Parsed(info).value);
  }
}
