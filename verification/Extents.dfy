/** Extents and the algebra of merging them.

    `Merge` is what mergeExtents computes. It is a homomorphism over concatenation up to
    re-merging, and merging a list of runs is the same as merging the bytes of those
    runs one at a time, so a merged list depends only on what each byte is. */
module Extents {
  datatype Kind = Zero | Mapped | Unresolved | ZeroedByChild
  {
    predicate ReadsAsZero() { Zero? || ZeroedByChild? }

    predicate IsWrite() { Mapped? || ZeroedByChild? }
  }

  datatype Extent = Extent(
    virtualOffset: int, length: int, kind: Kind, fileOffset: int, chainIndex: nat, path: string)
  {
    function End(): int { virtualOffset + length }

    predicate Has(v: int) { virtualOffset <= v < End() }
  }

  function Normalize(e: Extent): Extent {
    match e.kind
    case Zero => e.(fileOffset := 0, chainIndex := 0, path := "")
    case Unresolved => e.(fileOffset := 0, path := "")
    case _ => e
  }

  predicate CanMerge(a: Extent, b: Extent) {
    && a.End() == b.virtualOffset
    && a.kind == b.kind
    && match a.kind
       case Mapped => a.chainIndex == b.chainIndex && a.path == b.path && a.fileOffset + a.length == b.fileOffset
       case Unresolved => a.chainIndex == b.chainIndex
       case _ => true
  }

  // ---------------------------------------------------------------- merging

  /** Appending one extent to a merged list. */
  function Push(out: seq<Extent>, e: Extent): seq<Extent> {
    if out != [] && CanMerge(out[|out| - 1], e) then
      out[..|out| - 1] + [Glue(out[|out| - 1], e)]
    else out + [e]
  }

  function Glue(a: Extent, b: Extent): Extent {
    a.(length := a.length + b.length)
  }

  function Merge(es: seq<Extent>): seq<Extent> {
    if es == [] then [] else Push(Merge(es[..|es| - 1]), Normalize(es[|es| - 1]))
  }

  /** mergeExtents. */
  method MergeExtents(es: seq<Extent>) returns (out: seq<Extent>)
    ensures out == Merge(es)
  {
    if |es| == 0 {
      return [];
    }
    out := [];
    var cur := Normalize(es[0]);
    assert es[..1][..0] == [] && Merge(es[..1]) == [cur];
    for i := 1 to |es|
      invariant Merge(es[..i]) == out + [cur]
    {
      var next := Normalize(es[i]);
      assert es[..i + 1][..i] == es[..i];
      if CanMerge(cur, next) {
        assert Push(out + [cur], next) == out + [Glue(cur, next)];
        cur := cur.(length := cur.length + next.length);
      } else {
        out := out + [cur];
        cur := next;
      }
    }
    assert es[..|es|] == es;
    out := out + [cur];
  }

  lemma MergeSnoc(es: seq<Extent>, e: Extent)
    ensures Merge(es + [e]) == Push(Merge(es), Normalize(e))
  {
    assert (es + [e])[..|es|] == es;
  }

  /** An extent without a file offset, a link or a path that its kind has no use for. */
  predicate Plain(e: Extent) {
    && (e.kind.Zero? ==> e.fileOffset == 0 && e.chainIndex == 0 && e.path == "")
    && (e.kind.Unresolved? ==> e.fileOffset == 0 && e.path == "")
  }

  /** Neighbours that must stay two: they do not meet, differ in kind, are stretches of
      different files or of one file that do not follow on, or lack different links. */
  predicate Separate(a: Extent, b: Extent) {
    || a.virtualOffset + a.length != b.virtualOffset || a.kind != b.kind
    || (a.kind.Mapped? && !(a.chainIndex == b.chainIndex && a.path == b.path))
    || (a.kind.Mapped? && a.fileOffset + a.length != b.fileOffset)
    || (a.kind.Unresolved? && a.chainIndex != b.chainIndex)
  }

  lemma SeparateIs(a: Extent, b: Extent)
    ensures Separate(a, b) <==> !CanMerge(a, b)
    ensures Plain(a) <==> Normalize(a) == a
  {
  }

  /** No extent of the list could have been merged into the one before it. */
  ghost predicate Merged(es: seq<Extent>) {
    && (forall i :: 0 <= i < |es| ==> Plain(es[i]))
    && (forall i :: 0 < i < |es| ==> Separate(es[i - 1], es[i]))
  }

  lemma {:induction false} MergeIsMerged(es: seq<Extent>)
    ensures Merged(Merge(es))
  {
    if es != [] {
      MergeIsMerged(es[..|es| - 1]);
    }
  }

  /** Merging leaves a merged list alone. */
  lemma {:induction false} MergeFixed(es: seq<Extent>)
    requires Merged(es)
    ensures Merge(es) == es
  {
    if es != [] {
      var front := es[..|es| - 1];
      MergeFixed(front);
      assert es == front + [es[|es| - 1]];
      SeparateIs(es[|es| - 1], es[|es| - 1]);
      if |front| > 0 {
        SeparateIs(front[|front| - 1], es[|es| - 1]);
      }
      hide Plain, Separate, Normalize, CanMerge;
    }
  }

  /** Pushing two extents that merge is pushing the extent they merge into. */
  lemma PushGlue(out: seq<Extent>, a: Extent, b: Extent)
    requires CanMerge(a, b)
    ensures Push(Push(out, a), b) == Push(out, Glue(a, b))
  {
  }

  /** The front of a list may be merged first. */
  lemma {:induction false} MergeFront(a: seq<Extent>, b: seq<Extent>)
    ensures Merge(Merge(a) + b) == Merge(a + b)
  {
    if b == [] {
      MergeIsMerged(a);
      MergeFixed(Merge(a));
      assert Merge(a) + b == Merge(a) && a + b == a;
    } else {
      var front, e := b[..|b| - 1], b[|b| - 1];
      MergeFront(a, front);
      hide Merge, Push;
      AppendLast(a, b);
      AppendLast(Merge(a), b);
      MergeSnoc(Merge(a) + front, e);
      MergeSnoc(a + front, e);
    }
  }

  lemma AppendLast(a: seq<Extent>, b: seq<Extent>)
    requires b != []
    ensures a + b == (a + b[..|b| - 1]) + [b[|b| - 1]]
  {
  }

  /** One more extent at the back, when everything before it is merged already. */
  lemma MergeBackStep(a: seq<Extent>, m: seq<Extent>, n: Extent)
    requires Merged(m) && Normalize(n) == n
    ensures Merge(a + Push(m, n)) == Push(Merge(a + m), n)
  {
    if m != [] && CanMerge(m[|m| - 1], n) {
      var l, rest := m[|m| - 1], m[..|m| - 1];
      var g := Glue(l, n);
      assert a + m == (a + rest) + [l];
      MergeSnoc(a + rest, l);
      assert a + Push(m, n) == (a + rest) + [g];
      MergeSnoc(a + rest, g);
      assert Normalize(l) == l && Normalize(g) == g;
      PushGlue(Merge(a + rest), l, n);
    } else {
      assert a + Push(m, n) == (a + m) + [n];
      MergeSnoc(a + m, n);
    }
  }

  /** The back of a list may be merged first. */
  lemma {:induction false} MergeBack(a: seq<Extent>, b: seq<Extent>)
    ensures Merge(a + Merge(b)) == Merge(a + b)
  {
    if b == [] {
      assert a + Merge(b) == a + b;
    } else {
      var front, e := b[..|b| - 1], b[|b| - 1];
      MergeBack(a, front);
      MergeIsMerged(front);
      hide Push, Merge, Merged;
      MergeBackStep(a, Merge(front), Normalize(e));
      AppendLast([], b);
      AppendLast(a, b);
      assert [] + front == front && [] + b == b;
      MergeSnoc(front, e);
      MergeSnoc(a + front, e);
    }
  }

  /** mergeExtents is a homomorphism: the parts of a list may be merged in any grouping. */
  lemma MergeHomomorphism(a: seq<Extent>, b: seq<Extent>)
    ensures Merge(Merge(a) + Merge(b)) == Merge(a + b)
  {
    MergeFront(a, Merge(b));
    MergeBack(a, b);
  }

  // ---------------------------------------------------------------- bytes of an extent

  /** One byte of an extent, as an extent of its own. */
  function ByteOf(e: Extent, v: int): Extent {
    e.(virtualOffset := v, length := 1,
       fileOffset := if e.kind.Mapped? then e.fileOffset + (v - e.virtualOffset) else e.fileOffset)
  }

  /** The bytes of an extent, in order. */
  function BytesOf(e: Extent): seq<Extent>
    requires e.length >= 0
  {
    seq(e.length, i requires 0 <= i < e.length => ByteOf(Normalize(e), e.virtualOffset + i))
  }

  predicate Positive(es: seq<Extent>) {
    forall i :: 0 <= i < |es| ==> es[i].length > 0
  }

  function Explode(es: seq<Extent>): seq<Extent>
    requires Positive(es)
  {
    if es == [] then [] else Explode(es[..|es| - 1]) + BytesOf(es[|es| - 1])
  }

  lemma {:induction false} ExplodeConcat(a: seq<Extent>, b: seq<Extent>)
    requires Positive(a) && Positive(b)
    ensures Explode(a + b) == Explode(a) + Explode(b)
  {
    if b == [] {
      assert a + b == a;
    } else {
      hide BytesOf;
      var front, last := b[..|b| - 1], b[|b| - 1];
      ExplodeConcat(a, front);
      assert (a + b)[..|a + b| - 1] == a + front && (a + b)[|a + b| - 1] == last;
      assert Explode(a + front) + BytesOf(last) == Explode(a) + (Explode(front) + BytesOf(last));
    }
  }

  lemma {:induction false} MergeOne(e: Extent)
    requires e.length > 0
    ensures Merge(BytesOf(e)) == [Normalize(e)]
    decreases e.length
  {
    var bytes := BytesOf(e);
    if e.length == 1 {
      assert bytes[..0] == [];
      assert Merge(bytes) == [Normalize(ByteOf(Normalize(e), e.virtualOffset))];
    } else {
      var shorter := e.(length := e.length - 1);
      MergeOne(shorter);
      assert Normalize(shorter) == Normalize(e).(length := e.length - 1);
      forall i | 0 <= i < e.length - 1 ensures bytes[i] == BytesOf(shorter)[i] {
        assert ByteOf(Normalize(e), e.virtualOffset + i) == ByteOf(Normalize(shorter), shorter.virtualOffset + i);
      }
      MergeSnoc(BytesOf(shorter), bytes[e.length - 1]);
      assert bytes == BytesOf(shorter) + [bytes[e.length - 1]];
      assert bytes[e.length - 1] == ByteOf(Normalize(e), e.virtualOffset + (e.length - 1));
      assert CanMerge(Normalize(shorter), bytes[e.length - 1]);
      assert Glue(Normalize(shorter), bytes[e.length - 1]) == Normalize(e);
    }
  }

  /** A merged list is determined by the bytes of its runs. */
  lemma {:induction false} MergeByBytes(es: seq<Extent>)
    requires Positive(es)
    ensures Merge(es) == Merge(Explode(es))
  {
    if es != [] {
      var front, e := es[..|es| - 1], es[|es| - 1];
      MergeByBytes(front);
      MergeOne(e);
      MergeHomomorphism(Explode(front), BytesOf(e));
      assert Merge(es) == Push(Merge(front), Normalize(e));
      MergeIsMerged(front);
      MergeFixed(Merge(front));
      MergeSnoc(Merge(front), Normalize(e));
      assert Normalize(Normalize(e)) == Normalize(e);
      hide Merge, Push;
    }
  }
}
