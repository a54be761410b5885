/** A message buffer as consecutive segments of fixed lengths, filled one by one: the encoders write their
    fields at running offsets, and this keeps track of which bytes are done. */
module Segments {
  import opened Bytes

  function Concat(ws: seq<Bytes>): Bytes {
    if ws == [] then [] else Concat(ws[..|ws| - 1]) + ws[|ws| - 1]
  }

  /** The offset of segment i. */
  function Off(lens: seq<nat>, i: nat): nat
    requires i <= |lens|
  {
    if i == 0 then 0 else Off(lens, i - 1) + lens[i - 1]
  }

  /** b consists of segments of the given lengths and contents. */
  ghost predicate Seg(b: Bytes, lens: seq<nat>, ws: seq<Bytes>) {
    |ws| == |lens| && (forall i :: 0 <= i < |ws| ==> |ws[i]| == lens[i]) && b == Concat(ws)
  }

  function Blank(lens: seq<nat>): (ws: seq<Bytes>)
    ensures |ws| == |lens|
  {
    seq(|lens|, i requires 0 <= i < |lens| => Zeros(lens[i]))
  }

  lemma {:induction false} ConcatSplit(ws: seq<Bytes>, i: nat)
    requires i <= |ws|
    ensures Concat(ws) == Concat(ws[..i]) + Concat(ws[i..])
    decreases |ws|
  {
    if i == |ws| {
      assert ws[..i] == ws && ws[i..] == [];
    } else {
      var ws0, w, r := ws[..|ws| - 1], ws[|ws| - 1], ws[i..];
      assert ws0[..i] == ws[..i];
      assert r[..|r| - 1] == ws0[i..] && r[|r| - 1] == w;
      assert Concat(ws) == Concat(ws0) + w && Concat(r) == Concat(ws0[i..]) + w;
      hide Concat;
      ConcatSplit(ws0, i);
    }
  }

  lemma ConcatSnoc(ws: seq<Bytes>, i: nat)
    requires i < |ws|
    ensures Concat(ws[..i + 1]) == Concat(ws[..i]) + ws[i] && |Concat(ws[..i + 1])| <= |Concat(ws)|
  {
    var v := ws[..i + 1];
    assert v[..|v| - 1] == ws[..i] && v[|v| - 1] == ws[i];
    ConcatSplit(ws, i + 1);
  }

  lemma ConcatOne(w: Bytes)
    ensures Concat([w]) == w
  {
    assert [w][..0] == [];
  }

  lemma {:induction false} OffIs(lens: seq<nat>, ws: seq<Bytes>, i: nat)
    requires |ws| == |lens| && i <= |lens| && forall j :: 0 <= j < |ws| ==> |ws[j]| == lens[j]
    ensures |Concat(ws[..i])| == Off(lens, i)
  {
    if i > 0 {
      OffIs(lens, ws, i - 1);
      assert ws[..i][..i - 1] == ws[..i - 1];
    }
  }

  lemma SplitAround(ws: seq<Bytes>, i: nat)
    requires i < |ws|
    ensures Concat(ws) == Concat(ws[..i]) + ws[i] + Concat(ws[i + 1..])
  {
    hide Concat;
    ConcatSplit(ws, i);
    ConcatSplit(ws[i..], 1);
    ConcatOne(ws[i]);
    assert ws[i..][..1] == [ws[i]] && ws[i..][1..] == ws[i + 1..];
  }

  /** Around segment i. */
  lemma Parts(b: Bytes, lens: seq<nat>, ws: seq<Bytes>, i: nat)
    requires Seg(b, lens, ws) && i < |lens|
    ensures |Concat(ws[..i])| == Off(lens, i)
    ensures b == Concat(ws[..i]) + ws[i] + Concat(ws[i + 1..])
  {
    hide Concat, Off;
    OffIs(lens, ws, i);
    SplitAround(ws, i);
  }

  /** A segment stands at its offset. */
  lemma SegAt(b: Bytes, lens: seq<nat>, ws: seq<Bytes>, i: nat)
    requires Seg(b, lens, ws) && i < |lens|
    ensures At(b, Off(lens, i), ws[i])
  {
    Parts(b, lens, ws, i);
  }

  /** And so does what stands inside it. */
  lemma InsideAt(b: Bytes, lens: seq<nat>, ws: seq<Bytes>, i: nat, rel: nat, t: Bytes)
    requires Seg(b, lens, ws) && i < |lens| && At(ws[i], rel, t)
    ensures At(b, Off(lens, i) + rel, t)
  {
    SegAt(b, lens, ws, i);
    hide Concat, Off;
    SubSlice(b, Off(lens, i), Off(lens, i) + |ws[i]|, rel, rel + |t|);
  }

  lemma SegConcat(b: Bytes, lens: seq<nat>, ws: seq<Bytes>)
    requires Seg(b, lens, ws)
    ensures b == Concat(ws)
  {
  }

  lemma SegLength(b: Bytes, lens: seq<nat>, ws: seq<Bytes>)
    requires Seg(b, lens, ws)
    ensures |b| == Off(lens, |lens|)
  {
    OffIs(lens, ws, |ws|);
    assert ws[..|ws|] == ws;
  }

  lemma {:induction false} BlankSeg(b: Bytes, lens: seq<nat>)
    requires |b| == Off(lens, |lens|) && forall i :: 0 <= i < |b| ==> b[i] == 0
    ensures Seg(b, lens, Blank(lens))
    decreases |lens|
  {
    if lens != [] {
      var lens0 := lens[..|lens| - 1];
      OffPrefix(lens, |lens| - 1);
      BlankSeg(b[..Off(lens0, |lens0|)], lens0);
      assert Blank(lens)[..|lens| - 1] == Blank(lens0);
      assert b == b[..Off(lens0, |lens0|)] + Zeros(lens[|lens| - 1]);
    }
  }

  lemma {:induction false} OffPrefix(lens: seq<nat>, i: nat)
    requires i <= |lens|
    ensures Off(lens[..i], i) == Off(lens, i)
    decreases i
  {
    if i > 0 {
      OffPrefix(lens, i - 1);
      OffPrefix(lens[..i], i - 1);
      assert lens[..i][..i - 1] == lens[..i - 1];
    }
  }

  /** Writing inside segment i. */
  lemma SegSplice(b: Bytes, lens: seq<nat>, ws: seq<Bytes>, i: nat, rel: nat, t: Bytes)
    requires Seg(b, lens, ws) && i < |lens| && |ws[i]| == lens[i] && rel + |t| <= lens[i]
    ensures Off(lens, i) + rel + |t| <= |b|
    ensures Seg(Splice(b, Off(lens, i) + rel, t), lens, ws[i := Splice(ws[i], rel, t)])
  {
    hide Concat, Off, Splice;
    Parts(b, lens, ws, i);
    var w := Splice(ws[i], rel, t);
    var ws' := ws[i := w];
    assert ws'[..i] == ws[..i] && ws'[i + 1..] == ws[i + 1..];
    SplitAround(ws', i);
    SpliceBetween(Concat(ws[..i]), ws[i], Concat(ws[i + 1..]), rel, t);
  }

  lemma SpliceBetween(x: Bytes, w: Bytes, y: Bytes, rel: nat, t: Bytes)
    requires rel + |t| <= |w|
    ensures Splice(x + w + y, |x| + rel, t) == x + Splice(w, rel, t) + y
  {
  }

  /** Fill a segment. */
  method PutSegment(b: array<byte>, off: nat, t: Bytes, ghost lens: seq<nat>, ghost ws: seq<Bytes>, ghost i: nat)
    requires Seg(b[..], lens, ws) && i < |lens| == |ws| && off == Off(lens, i) && |t| == lens[i]
    modifies b
    ensures Seg(b[..], lens, ws[i := t])
  {
    SegWidth(b[..], lens, ws, i);
    SegSplice(b[..], lens, ws, i, 0, t);
    SpliceAll(ws[i], t);
    hide Seg, Splice;
    Put(b, off, t);
  }

  /** Write inside a segment. */
  method PutInside(b: array<byte>, off: nat, t: Bytes, ghost lens: seq<nat>, ghost ws: seq<Bytes>, ghost i: nat, ghost rel: nat)
    requires Seg(b[..], lens, ws) && i < |lens| == |ws| && off == Off(lens, i) + rel && rel + |t| <= lens[i]
    modifies b
    ensures |ws[i]| == lens[i] && Seg(b[..], lens, ws[i := Splice(ws[i], rel, t)])
  {
    SegWidth(b[..], lens, ws, i);
    SegSplice(b[..], lens, ws, i, rel, t);
    hide Seg, Splice;
    Put(b, off, t);
  }

  lemma SegWidth(b: Bytes, lens: seq<nat>, ws: seq<Bytes>, i: nat)
    requires Seg(b, lens, ws) && i < |lens|
    ensures |ws[i]| == lens[i] && Off(lens, i) + lens[i] <= |b|
  {
    Parts(b, lens, ws, i);
  }

  lemma SpliceAll(w: Bytes, t: Bytes)
    requires |t| == |w|
    ensures Splice(w, 0, t) == t
  {
  }

  // ----- a buffer filled from the front -----

  /** The bytes done so far, and zeros behind them. */
  ghost predicate Written(b: Bytes, done: Bytes) {
    |done| <= |b| && b == done + Zeros(|b| - |done|)
  }

  lemma WrittenMore(b: Bytes, done: Bytes, t: Bytes)
    requires Written(b, done) && |done| + |t| <= |b|
    ensures Written(Splice(b, |done|, t), done + t)
  {
  }

  /** Bytes that stay zero count as written. */
  lemma WrittenZeros(b: Bytes, done: Bytes, n: nat)
    requires Written(b, done) && |done| + n <= |b|
    ensures Written(b, done + Zeros(n))
  {
  }

  method Append(b: array<byte>, off: nat, t: Bytes, ghost done: Bytes)
    requires Written(b[..], done) && off == |done| && off + |t| <= b.Length
    modifies b
    ensures Written(b[..], done + t)
  {
    WrittenMore(b[..], done, t);
    hide Written, Splice;
    Put(b, off, t);
  }

  lemma FrontOf(b: Bytes, done: Bytes)
    requires Written(b, done)
    ensures done <= b
  {
  }

  lemma FullyWritten(b: Bytes, done: Bytes)
    requires Written(b, done) && |b| == |done|
    ensures b == done
  {
  }
}
