/** Sets of byte ranges: coalescing, intersection by binary search, and the translation
    of changed disk ranges into changed parts of a file. */
module Ranges {
  import opened Bytes
  import opened Counting
  import opened Words

  /** The ranges the fields of one can hold, measured from the start of a disk. */
  type ByteRange = r: AnyRange | r.Held() witness Range(0, 0)

  datatype AnyRange = Range(offset: int, length: int)
  {
    predicate Held() { 0 <= offset < TWO_63 && -TWO_63 <= length < TWO_63 }

    function End(): int { offset + length }

    /** Where the range ends as a signed 64-bit sum says. */
    function End64(): Int64 { Wrap64(End()) }

    predicate Fits() { End() < TWO_63 }

    predicate Has(i: int) { offset <= i < End() }

    predicate Overlaps(other: AnyRange) {
      offset < other.End64() && other.offset < End64()
    }

    function Intersect(other: AnyRange): Option<AnyRange> {
      var start, end := Max(offset, other.offset), Min(End64(), other.End64());
      if end <= start then None else Some(Range(start, end - start))
    }
  }

  /** The sum is where the range ends exactly when the range fits, and is otherwise before
      every byte of the disk. */
  lemma EndWraps(r: ByteRange)
    ensures r.End64() == r.End() <==> r.Fits()
    ensures !r.Fits() ==> r.length > 0 && r.End64() < 0
  {
  }

  predicate AllFit(rs: seq<ByteRange>) {
    forall k :: 0 <= k < |rs| ==> rs[k].Fits()
  }

  /** Some range of the list has the byte. */
  ghost predicate Covers(rs: seq<ByteRange>, i: int) {
    exists k :: 0 <= k < |rs| && rs[k].Has(i)
  }

  ghost predicate SameBytes(a: seq<ByteRange>, b: seq<ByteRange>) {
    forall i :: Covers(a, i) <==> Covers(b, i)
  }

  /** Positive lengths, sorted, with at least one byte missing between neighbours. */
  predicate Canonical(rs: seq<ByteRange>) {
    && (forall k :: 0 <= k < |rs| ==> rs[k].length > 0)
    && (forall j, k :: 0 <= j < k < |rs| ==> rs[j].End() < rs[k].offset)
  }

  lemma IntersectBytes(a: ByteRange, b: ByteRange)
    requires a.Fits() && b.Fits()
    ensures a.Intersect(b).Some? ==>
      var c := a.Intersect(b).value; c.length > 0 && c.Held() && c.Fits()
    ensures forall i :: a.Has(i) && b.Has(i) <==> a.Intersect(b).Some? && a.Intersect(b).value.Has(i)
    ensures a.length > 0 && b.length > 0 ==> (a.Overlaps(b) <==> a.Intersect(b).Some?)
  {
  }

  // ---------------------------------------------------------------- sorting

  predicate Before(a: ByteRange, b: ByteRange) {
    if a.offset != b.offset then a.offset < b.offset else a.length <= b.length
  }

  predicate Sorted(rs: seq<ByteRange>) {
    forall j, k :: 0 <= j < k < |rs| ==> Before(rs[j], rs[k])
  }

  /** sort.Slice with the comparison Coalesce passes it. */
  method SortRanges(rs: seq<ByteRange>) returns (out: seq<ByteRange>)
    ensures Sorted(out) && multiset(out) == multiset(rs)
  {
    out := [];
    for i := 0 to |rs|
      invariant Sorted(out) && multiset(out) == multiset(rs[..i])
    {
      var k := 0;
      while k < |out| && Before(out[k], rs[i])
        invariant 0 <= k <= |out| && forall j :: 0 <= j < k ==> Before(out[j], rs[i])
      {
        k := k + 1;
      }
      assert rs[..i + 1] == rs[..i] + [rs[i]];
      assert out == out[..k] + out[k..];
      out := out[..k] + [rs[i]] + out[k..];
    }
    assert rs[..|rs|] == rs;
  }

  lemma SameElements(a: seq<ByteRange>, b: seq<ByteRange>)
    requires multiset(a) == multiset(b)
    ensures SameBytes(a, b)
    ensures forall r :: r in a <==> r in b
  {
    forall r ensures r in a <==> r in b {
      assert r in multiset(a) <==> r in multiset(b);
    }
    forall i ensures Covers(a, i) <==> Covers(b, i) {
      if Covers(a, i) {
        var k :| 0 <= k < |a| && a[k].Has(i);
        assert a[k] in b;
      }
      if Covers(b, i) {
        var k :| 0 <= k < |b| && b[k].Has(i);
        assert b[k] in a;
      }
    }
  }

  // ---------------------------------------------------------------- coalescing

  lemma CoversSnoc(rs: seq<ByteRange>, r: ByteRange, i: int)
    ensures Covers(rs + [r], i) <==> Covers(rs, i) || r.Has(i)
  {
    if Covers(rs, i) {
      var k :| 0 <= k < |rs| && rs[k].Has(i);
      assert (rs + [r])[k].Has(i);
    }
    if r.Has(i) {
      assert (rs + [r])[|rs|].Has(i);
    }
  }

  /** No range that reaches past 2^63 meets another: each other range ends before it. */
  ghost predicate Alone(m: multiset<ByteRange>) {
    forall r, q :: r in m && q in m && r.length > 0 && q.length > 0 && !r.Fits() && (q != r || m[r] > 1) ==>
      q.End() < r.offset
  }

  lemma FittingAreAlone(rs: seq<ByteRange>)
    requires AllFit(rs)
    ensures Alone(multiset(rs))
  {
  }

  /** Coalesce. The result is the same bytes, canonically, exactly when no range that
      reaches past 2^63 meets another. */
  method Coalesce(rs: seq<ByteRange>) returns (out: seq<ByteRange>)
    ensures Canonical(out) && SameBytes(out, rs) <==> Alone(multiset(rs))
    ensures AllFit(rs) ==> AllFit(out)
  {
    var kept: seq<ByteRange> := [];
    assert Kept([], rs[..0]);
    hide Kept, Alone, AloneAt, Canonical, SameBytes, AllFit;
    for i := 0 to |rs|
      invariant Kept(kept, rs[..i])
    {
      KeepOne(kept, rs, i);
      if rs[i].length > 0 {
        kept := kept + [rs[i]];
      }
    }
    assert rs[..|rs|] == rs;
    if |kept| == 0 {
      NothingKept(rs);
      return [];
    }
    var sorted := SortRanges(kept);
    SortedKept(sorted, kept, rs);
    out := CoalesceSorted(sorted);
    SameAsSorted(out, sorted, rs);
  }

  lemma NothingKept(rs: seq<ByteRange>)
    requires Kept([], rs)
    ensures Canonical([]) && SameBytes([], rs) && Alone(multiset(rs)) && AllFit([])
  {
    KeptSame([], rs);
    FittingAreAlone([]);
  }

  lemma SortedKept(sorted: seq<ByteRange>, kept: seq<ByteRange>, rs: seq<ByteRange>)
    requires Kept(kept, rs) && kept != [] && multiset(sorted) == multiset(kept)
    ensures sorted != [] && SameBytes(sorted, rs) && forall r :: r in sorted ==> r.length > 0
    ensures AloneAt(sorted) <==> Alone(multiset(rs))
    ensures AllFit(rs) ==> AllFit(sorted)
  {
    KeptSame(kept, rs);
    SameElements(sorted, kept);
    assert |sorted| == |multiset(sorted)| == |kept|;
    hide Covers;
    AloneByIndex(sorted);
    if AllFit(rs) {
      forall k | 0 <= k < |sorted| ensures sorted[k].Fits() {
        assert sorted[k] in kept;
      }
    }
  }

  lemma SameAsSorted(out: seq<ByteRange>, sorted: seq<ByteRange>, rs: seq<ByteRange>)
    requires SameBytes(sorted, rs)
    ensures SameBytes(out, sorted) <==> SameBytes(out, rs)
  {
    hide Covers;
  }

  /** Two ranges of a disk of which one reaches past 2^63 and meets the other, so that
      coalescing them fails; and a range that shares a byte with a set that says no. */
  lemma OverflowIsFelt()
    ensures !Alone(multiset([Range(TWO_63 - 16, 32), Range(TWO_63 - 8, 4)]))
    ensures var rs, r := [Range(TWO_63 - 16, 8)], Range(TWO_63 - 16, 16);
      Canonical(rs) && Shares(rs, r) && !Answerable(rs, r)
  {
    var a: ByteRange, b: ByteRange := Range(TWO_63 - 16, 32), Range(TWO_63 - 8, 4);
    var m := multiset([Range(TWO_63 - 16, 32), Range(TWO_63 - 8, 4)]);
    assert a in m && b in m && !a.Fits() && b.End() >= a.offset;
    var rs, r := [Range(TWO_63 - 16, 8)], Range(TWO_63 - 16, 16);
    assert rs[0].Has(TWO_63 - 16) && r.Has(TWO_63 - 16) && Covers(rs, TWO_63 - 16);
  }

  /** The ranges kept are those of positive length, as often as they occur. */
  ghost predicate Kept(kept: seq<ByteRange>, rs: seq<ByteRange>) {
    && (forall r :: r in kept ==> r.length > 0)
    && (forall r: ByteRange :: r.length > 0 ==> multiset(kept)[r] == multiset(rs)[r])
    && SameBytes(kept, rs)
  }

  lemma KeepOne(kept: seq<ByteRange>, rs: seq<ByteRange>, i: nat)
    requires i < |rs| && Kept(kept, rs[..i])
    ensures Kept(if rs[i].length > 0 then kept + [rs[i]] else kept, rs[..i + 1])
  {
    assert rs[..i + 1] == rs[..i] + [rs[i]];
    PrefixCovers(rs, i);
    forall x ensures Covers(kept + [rs[i]], x) <==> Covers(kept, x) || rs[i].Has(x) {
      CoversSnoc(kept, rs[i], x);
    }
  }

  lemma KeptSame(kept: seq<ByteRange>, rs: seq<ByteRange>)
    requires Kept(kept, rs)
    ensures Alone(multiset(kept)) <==> Alone(multiset(rs))
    ensures AllFit(rs) ==> AllFit(kept)
  {
    forall r: ByteRange | r.length > 0 ensures r in multiset(kept) <==> r in multiset(rs) {
      assert multiset(kept)[r] == multiset(rs)[r];
    }
    if AllFit(rs) {
      forall k | 0 <= k < |kept| ensures kept[k].Fits() {
        assert kept[k] in multiset(kept) && kept[k] in multiset(rs) && kept[k] in rs;
      }
    }
  }

  /** The same of a list of non-empty ranges, pair by pair. */
  ghost predicate AloneAt(rs: seq<ByteRange>) {
    forall i, j :: 0 <= i < |rs| && 0 <= j < |rs| && i != j && !rs[i].Fits() ==> rs[j].End() < rs[i].offset
  }

  lemma AloneByIndex(rs: seq<ByteRange>)
    requires forall r :: r in rs ==> r.length > 0
    ensures Alone(multiset(rs)) <==> AloneAt(rs)
  {
    var m := multiset(rs);
    if Alone(m) {
      forall i, j | 0 <= i < |rs| && 0 <= j < |rs| && i != j && !rs[i].Fits() ensures rs[j].End() < rs[i].offset {
        if rs[i] == rs[j] {
          TwiceListed(rs, i, j);
        }
        assert rs[i] in m && rs[j] in m;
      }
    }
    if AloneAt(rs) {
      forall r, q | r in m && q in m && r.length > 0 && q.length > 0 && !r.Fits() && (q != r || m[r] > 1)
        ensures q.End() < r.offset
      {
        var i, j := PlacesOf(rs, r, q);
      }
    }
  }

  lemma TwiceListed(rs: seq<ByteRange>, i: nat, j: nat)
    requires i < |rs| && j < |rs| && i != j && rs[i] == rs[j]
    ensures multiset(rs)[rs[i]] > 1
  {
    var a, b := if i < j then i else j, if i < j then j else i;
    assert rs == rs[..b] + rs[b..];
    assert rs[..b][a] == rs[i] && rs[b..][0] == rs[i];
    assert rs[i] in multiset(rs[..b]) && rs[i] in multiset(rs[b..]);
  }

  /** Two places of a list that hold two values, or one value listed twice. */
  lemma PlacesOf(rs: seq<ByteRange>, r: ByteRange, q: ByteRange) returns (i: nat, j: nat)
    requires r in rs && q in rs && (q != r || multiset(rs)[r] > 1)
    ensures i < |rs| && j < |rs| && i != j && rs[i] == r && rs[j] == q
  {
    i :| 0 <= i < |rs| && rs[i] == r;
    if q != r {
      j :| 0 <= j < |rs| && rs[j] == q;
    } else {
      var rest := rs[..i] + rs[i + 1..];
      assert rs == rs[..i] + [r] + rs[i + 1..];
      assert multiset(rs) == multiset(rest) + multiset{r};
      assert r in multiset(rest);
      var k :| 0 <= k < |rest| && rest[k] == r;
      j := if k < i then k else k + 1;
    }
  }

  /** One turn of the merging loop, which extends the last range of its result in place. */
  function Step(out: seq<ByteRange>, r: ByteRange): seq<ByteRange>
    requires out != []
  {
    var last := out[|out| - 1];
    if r.offset <= last.End64() then
      if r.End64() > last.End64() then
        StepHeld(last, r);
        Snoc(out[..|out| - 1], last.(length := r.End64() - last.offset))
      else out
    else out + [r]
  }

  lemma StepHeld(last: ByteRange, r: ByteRange)
    requires r.offset <= last.End64() < r.End64()
    ensures 0 <= r.End64() - last.offset || last.length < 0
    ensures last.(length := r.End64() - last.offset).Held()
  {
  }

  /** The merging loop of Coalesce. */
  method CoalesceSorted(rs: seq<ByteRange>) returns (out: seq<ByteRange>)
    requires rs != [] && Sorted(rs) && forall r :: r in rs ==> r.length > 0
    ensures Canonical(out) && SameBytes(out, rs) <==> AloneAt(rs)
    ensures AllFit(rs) ==> AllFit(out)
  {
    out := [rs[0]];
    Starts(rs);
    hide Covers, Canonical, SameBytes, Merging, AloneAt, Sorted, Step;
    for i := 1 to |rs|
      invariant Merging(out, rs, i)
    {
      MergingGoesOn(out, rs, i);
      out := Step(out, rs[i]);
    }
    MergingEnds(out, rs);
  }

  // How the loop stands after i ranges: all of them fit; or only the last does not, and it
  // stands alone; or one met another, and the result is spoilt for good.

  ghost predicate Merging(out: seq<ByteRange>, rs: seq<ByteRange>, i: nat) {
    && 0 < i <= |rs| && out != [] && out[|out| - 1].offset <= rs[i - 1].offset
    && (forall k :: 0 <= k < |out| ==> out[k].length > 0)
    && (Fitting(out, rs, i) || LastAlone(out, rs, i) || (Met(rs, i) && (Disordered(out) || Lost(out, rs, i))))
  }

  ghost predicate Fitting(out: seq<ByteRange>, rs: seq<ByteRange>, i: nat)
    requires i <= |rs|
  {
    AllFit(rs[..i]) && AllFit(out) && Canonical(out) && SameBytes(out, rs[..i])
  }

  ghost predicate LastAlone(out: seq<ByteRange>, rs: seq<ByteRange>, i: nat)
    requires 0 < i <= |rs| && out != []
  {
    && AllFit(rs[..i - 1]) && !rs[i - 1].Fits() && out[|out| - 1] == rs[i - 1]
    && (forall j :: 0 <= j < i - 1 ==> rs[j].End() < rs[i - 1].offset)
    && Canonical(out) && SameBytes(out, rs[..i])
  }

  /** A range that does not fit met another. */
  ghost predicate Met(rs: seq<ByteRange>, i: nat)
    requires i <= |rs|
  {
    exists a, b :: 0 <= a < i && 0 <= b < i && a != b && !rs[a].Fits() && rs[b].End() >= rs[a].offset
  }

  /** Some range of the result reaches past the start of the next. */
  ghost predicate Disordered(out: seq<ByteRange>) {
    exists p :: 0 <= p < |out| - 1 && !out[p].Fits()
  }

  /** A byte of a range that was swallowed is not in the result and can no longer be. */
  ghost predicate Lost(out: seq<ByteRange>, rs: seq<ByteRange>, i: nat)
    requires i <= |rs| && out != []
  {
    exists f, x :: 0 <= f < i && !rs[f].Fits() && rs[f].Has(x) && LostByte(out, x)
  }

  ghost predicate LostByte(out: seq<ByteRange>, x: int)
    requires out != []
  {
    var last := out[|out| - 1];
    !Covers(out, x) && (x < last.offset || (x == last.End() && AllFit(out) && Canonical(out)))
  }

  lemma Starts(rs: seq<ByteRange>)
    requires rs != [] && rs[0].length > 0
    ensures Merging([rs[0]], rs, 1)
  {
    assert rs[..1] == [rs[0]] && rs[..0] == [];
  }

  lemma MergingGoesOn(out: seq<ByteRange>, rs: seq<ByteRange>, i: nat)
    requires i < |rs| && Merging(out, rs, i) && Sorted(rs) && forall r :: r in rs ==> r.length > 0
    ensures Merging(Step(out, rs[i]), rs, i + 1)
  {
    assert Before(rs[i - 1], rs[i]) && rs[i] in rs;
    hide Canonical, SameBytes, Covers, Sorted;
    StepShape(out, rs[i], rs[i - 1].offset);
    if Fitting(out, rs, i) {
      if rs[i].Fits() {
        FittingStep(out, rs, i);
      } else {
        OverflowStep(out, rs, i);
      }
    } else if LastAlone(out, rs, i) {
      assert Met(rs, i + 1) by {
        assert !rs[i - 1].Fits() && rs[i].End() >= rs[i - 1].offset;
      }
      DisorderStarts(out, rs[i]);
    } else {
      MetStays(rs, i);
      if Disordered(out) {
        DisorderStays(out, rs[i]);
      } else {
        LostStays(out, rs, i);
      }
    }
  }

  lemma StepShape(out: seq<ByteRange>, r: ByteRange, bound: int)
    requires out != [] && r.length > 0 && forall k :: 0 <= k < |out| ==> out[k].length > 0
    requires out[|out| - 1].offset <= bound <= r.offset
    ensures var next := Step(out, r);
      && next != [] && next[|next| - 1].offset <= r.offset && forall k :: 0 <= k < |next| ==> next[k].length > 0
  {
    EndWraps(out[|out| - 1]);
    EndWraps(r);
  }

  lemma FittingStep(out: seq<ByteRange>, rs: seq<ByteRange>, i: nat)
    requires i < |rs| && out != [] && Fitting(out, rs, i) && rs[i].Fits() && rs[i].length > 0
    requires out[|out| - 1].offset <= rs[i].offset
    ensures Fitting(Step(out, rs[i]), rs, i + 1)
  {
    var r, last := rs[i], out[|out| - 1];
    EndWraps(r);
    EndWraps(last);
    if r.offset <= last.End() {
      if r.End() > last.End() {
        ExtendLast(out, r);
      } else {
        CoversInside(out, r);
      }
    } else {
      AppendRange(out, r);
    }
    hide Covers, Canonical;
    Absorbed(out, Step(out, r), rs, i);
  }

  lemma OverflowStep(out: seq<ByteRange>, rs: seq<ByteRange>, i: nat)
    requires 0 < i < |rs| && out != [] && Fitting(out, rs, i) && !rs[i].Fits()
    requires out[|out| - 1].offset <= rs[i].offset && forall r :: r in rs ==> r.length > 0
    ensures var next := Step(out, rs[i]);
      next != [] && (LastAlone(next, rs, i + 1) || (Met(rs, i + 1) && Lost(next, rs, i + 1)))
  {
    var r, last := rs[i], out[|out| - 1];
    EndWraps(r);
    EndWraps(last);
    if r.offset <= last.End() {
      GapAfter(out, |out| - 1);
      assert r.Has(last.End()) && LostByte(out, last.End());
      EndOfSome(out, rs, i);
    } else {
      AppendRange(out, r);
      forall j | 0 <= j < i ensures rs[j].End() < r.offset {
        EndsWithin(out, rs, i, j);
      }
      hide Covers, Canonical;
      Absorbed(out, Step(out, r), rs, i);
      assert rs[..i + 1 - 1] == rs[..i];
    }
  }

  /** The end of the result is the end of some range, or further. */
  lemma EndOfSome(out: seq<ByteRange>, rs: seq<ByteRange>, i: nat)
    requires i < |rs| && out != [] && Fitting(out, rs, i) && !rs[i].Fits() && rs[i].offset <= out[|out| - 1].End()
    ensures Met(rs, i + 1)
  {
    var last := out[|out| - 1];
    assert last.Has(last.End() - 1) && Covers(out, last.End() - 1);
    assert Covers(rs[..i], last.End() - 1);
    var b :| 0 <= b < i && rs[..i][b].Has(last.End() - 1);
    assert rs[b].End() >= rs[i].offset;
  }

  lemma EndsWithin(out: seq<ByteRange>, rs: seq<ByteRange>, i: nat, j: nat)
    requires j < i < |rs| && out != [] && Fitting(out, rs, i) && forall r :: r in rs ==> r.length > 0
    ensures rs[j].End() <= out[|out| - 1].End()
  {
    var x := rs[j].End() - 1;
    assert rs[..i][j] == rs[j] && rs[j] in rs;
    assert rs[..i][j].Has(x) && Covers(rs[..i], x);
    assert Covers(out, x);
    var k :| 0 <= k < |out| && out[k].Has(x);
    OffsetsAscend(out, k, |out| - 1);
  }

  lemma MetStays(rs: seq<ByteRange>, i: nat)
    requires i < |rs| && Met(rs, i)
    ensures Met(rs, i + 1)
  {
  }

  lemma DisorderStarts(out: seq<ByteRange>, r: ByteRange)
    requires out != [] && !out[|out| - 1].Fits()
    ensures Disordered(Step(out, r))
  {
    EndWraps(out[|out| - 1]);
    assert Step(out, r)[|out| - 1] == out[|out| - 1];
  }

  lemma DisorderStays(out: seq<ByteRange>, r: ByteRange)
    requires out != [] && Disordered(out)
    ensures Disordered(Step(out, r))
  {
    var p :| 0 <= p < |out| - 1 && !out[p].Fits();
    assert Step(out, r)[p] == out[p];
  }

  lemma LostStays(out: seq<ByteRange>, rs: seq<ByteRange>, i: nat)
    requires 0 < i < |rs| && out != [] && Lost(out, rs, i) && rs[i].length > 0
    requires Sorted(rs) && out[|out| - 1].offset <= rs[i].offset
    requires forall k :: 0 <= k < |out| ==> out[k].length > 0
    ensures var next := Step(out, rs[i]); next != [] && (Lost(next, rs, i + 1) || Disordered(next))
  {
    var f, x :| 0 <= f < i && !rs[f].Fits() && rs[f].Has(x) && LostByte(out, x);
    assert Before(rs[f], rs[i]);
    var r, last, next := rs[i], out[|out| - 1], Step(out, rs[i]);
    EndWraps(r);
    EndWraps(last);
    if r.offset <= last.End64() && r.End64() > last.End64() {
      ExtendLast(out, r);
      var y := if x < last.offset then x else r.End();
      assert rs[f].Has(y) && LostByte(next, y);
    } else if !(r.offset <= last.End64()) {
      forall z ensures Covers(next, z) <==> Covers(out, z) || r.Has(z) {
        CoversSnoc(out, r, z);
      }
      assert rs[f].Has(x) && LostByte(next, x);
    }
  }

  lemma MergingEnds(out: seq<ByteRange>, rs: seq<ByteRange>)
    requires Merging(out, rs, |rs|)
    ensures Canonical(out) && SameBytes(out, rs) <==> AloneAt(rs)
    ensures AllFit(rs) ==> AllFit(out)
  {
    assert rs[..|rs|] == rs && forall j :: 0 <= j < |rs| - 1 ==> rs[..|rs| - 1][j] == rs[j];
    if Fitting(out, rs, |rs|) || LastAlone(out, rs, |rs|) {
      assert AloneAt(rs);
    } else if Disordered(out) {
      var p :| 0 <= p < |out| - 1 && !out[p].Fits();
      assert out[p].End() >= out[p + 1].offset;
    } else {
      var f, x :| 0 <= f < |rs| && !rs[f].Fits() && rs[f].Has(x) && LostByte(out, x);
      assert Covers(rs, x);
    }
  }

  lemma Absorbed(before: seq<ByteRange>, after: seq<ByteRange>, rs: seq<ByteRange>, i: nat)
    requires i < |rs| && SameBytes(before, rs[..i])
    requires forall x :: Covers(after, x) <==> Covers(before, x) || rs[i].Has(x)
    ensures SameBytes(after, rs[..i + 1])
  {
    hide Covers;
    PrefixCovers(rs, i);
  }

  lemma PrefixCovers(rs: seq<ByteRange>, i: nat)
    requires i < |rs|
    ensures forall x :: Covers(rs[..i + 1], x) <==> Covers(rs[..i], x) || rs[i].Has(x)
  {
    assert rs[..i + 1] == rs[..i] + [rs[i]];
    forall x ensures Covers(rs[..i + 1], x) <==> Covers(rs[..i], x) || rs[i].Has(x) {
      CoversSnoc(rs[..i], rs[i], x);
    }
  }

  lemma CoversInside(out: seq<ByteRange>, r: ByteRange)
    requires out != [] && out[|out| - 1].offset <= r.offset && r.End() <= out[|out| - 1].End()
    ensures forall x :: r.Has(x) ==> Covers(out, x)
  {
    assert forall x :: r.Has(x) ==> out[|out| - 1].Has(x);
  }

  lemma AppendRange(out: seq<ByteRange>, r: ByteRange)
    requires out != [] && Canonical(out) && out[|out| - 1].End() < r.offset && r.length > 0
    ensures Canonical(out + [r]) && forall x :: Covers(out + [r], x) <==> Covers(out, x) || r.Has(x)
  {
    forall x ensures Covers(out + [r], x) <==> Covers(out, x) || r.Has(x) {
      CoversSnoc(out, r, x);
    }
  }

  /** Lists of ranges stay lists of ranges when one that fits is added. */
  function Snoc(rs: seq<ByteRange>, r: AnyRange): seq<ByteRange>
    requires r.Held()
  {
    var fits: ByteRange := r;
    rs + [fits]
  }

  lemma ExtendLast(out: seq<ByteRange>, r: ByteRange)
    requires out != [] && r.Fits()
    requires var last := out[|out| - 1]; last.offset <= r.offset <= last.End() < r.End()
    ensures var last := out[|out| - 1];
      var next := Snoc(out[..|out| - 1], last.(length := r.End() - last.offset));
      && (Canonical(out) ==> Canonical(next))
      && forall x :: Covers(next, x) <==> Covers(out, x) || r.Has(x)
  {
    var rest, last := out[..|out| - 1], out[|out| - 1];
    var longer: ByteRange := last.(length := r.End() - last.offset);
    assert out == rest + [last];
    forall x ensures Covers(rest + [longer], x) <==> Covers(out, x) || r.Has(x) {
      CoversSnoc(rest, last, x);
      CoversSnoc(rest, longer, x);
    }
  }

  /** Two canonical lists of the same bytes are the same list. */
  lemma {:induction false} CanonicalUnique(a: seq<ByteRange>, b: seq<ByteRange>)
    requires Canonical(a) && Canonical(b) && SameBytes(a, b)
    ensures a == b
  {
    if a == [] {
      if b != [] {
        CoversFirst(b);
      }
    } else {
      CoversFirst(a);
      assert Covers(b, a[0].offset);
      FirstRange(a, b);
      FirstRange(b, a);
      RestSame(a, b);
      CanonicalUnique(a[1..], b[1..]);
      assert a == [a[0]] + a[1..] && b == [b[0]] + b[1..];
    }
  }

  /** The first range of a canonical list is contained in the first of any other canonical
      list of the same bytes. */
  lemma FirstRange(a: seq<ByteRange>, b: seq<ByteRange>)
    requires a != [] && b != [] && Canonical(a) && Canonical(b) && SameBytes(a, b)
    ensures b[0].offset <= a[0].offset && b[0].End() >= a[0].End()
  {
    CoversFirst(a);
    CoversFirst(b);
    assert Covers(b, a[0].offset) && Covers(a, b[0].offset);
    GapAfter(b, 0);
    assert !Covers(a, b[0].End());
    assert !a[0].Has(b[0].End());
  }

  /** The byte past a canonical range is in no range. */
  lemma GapAfter(a: seq<ByteRange>, k: nat)
    requires Canonical(a) && k < |a|
    ensures !Covers(a, a[k].End())
  {
    forall m | 0 <= m < |a| ensures !a[m].Has(a[k].End()) {
      OffsetsAscend(a, Min(m, k), Max(m, k));
    }
  }

  lemma OffsetsAscend(a: seq<ByteRange>, j: int, k: int)
    requires Canonical(a) && 0 <= j <= k < |a|
    ensures a[j].offset <= a[k].offset && (j < k ==> a[j].End() < a[k].offset)
  {
  }

  lemma CoversFirst(a: seq<ByteRange>)
    requires a != [] && Canonical(a)
    ensures Covers(a, a[0].offset)
  {
    assert a[0].Has(a[0].offset);
  }

  lemma RestSame(a: seq<ByteRange>, b: seq<ByteRange>)
    requires a != [] && b != [] && Canonical(a) && Canonical(b) && SameBytes(a, b) && a[0] == b[0]
    ensures Canonical(a[1..]) && Canonical(b[1..]) && SameBytes(a[1..], b[1..])
  {
    forall i ensures Covers(a[1..], i) <==> Covers(b[1..], i) {
      RestCovers(a, i);
      RestCovers(b, i);
    }
  }

  lemma RestCovers(a: seq<ByteRange>, i: int)
    requires a != [] && Canonical(a)
    ensures Covers(a[1..], i) <==> Covers(a, i) && !a[0].Has(i)
  {
    if Covers(a[1..], i) {
      var k :| 0 <= k < |a[1..]| && a[1..][k].Has(i);
      assert a[k + 1].Has(i);
    }
    if Covers(a, i) && !a[0].Has(i) {
      var k :| 0 <= k < |a| && a[k].Has(i);
      assert a[1..][k - 1].Has(i);
    }
  }

  /** No list describes the same bytes in fewer ranges. */
  lemma CanonicalShortest(a: seq<ByteRange>, rs: seq<ByteRange>)
    requires Canonical(a) && SameBytes(a, rs)
    ensures |a| <= |rs|
  {
    forall k | 0 <= k < |a| ensures Covers(rs, a[k].offset) {
      assert a[k].Has(a[k].offset);
      assert Covers(a, a[k].offset);
    }
    var homes := seq(|a|, k requires 0 <= k < |a| => Home(rs, a[k].offset));
    forall j, k | 0 <= j < k < |a| ensures homes[j] != homes[k] {
      NotShared(a, rs, j, k);
    }
    Pigeonhole(homes, |rs|);
  }

  /** A range of the list that has the byte. */
  ghost function Home(rs: seq<ByteRange>, i: int): (k: int)
    requires Covers(rs, i)
    ensures 0 <= k < |rs| && rs[k].Has(i)
  {
    var k :| 0 <= k < |rs| && rs[k].Has(i);
    k
  }

  /** No range can start two canonical runs: it would bridge the gap between them. */
  lemma NotShared(a: seq<ByteRange>, rs: seq<ByteRange>, j: nat, k: nat)
    requires Canonical(a) && SameBytes(a, rs) && j < k < |a|
    requires Covers(rs, a[j].offset) && Covers(rs, a[k].offset)
    ensures Home(rs, a[j].offset) != Home(rs, a[k].offset)
  {
    var gap := a[j].End();
    GapAfter(a, j);
    assert !Covers(rs, gap);
    var h := Home(rs, a[j].offset);
    assert !rs[h].Has(gap);
  }

  // ---------------------------------------------------------------- binary search

  /** sort.Search: the least index at which a monotone predicate holds. */
  method Search(n: nat, f: int --> bool) returns (i: nat)
    requires forall k :: 0 <= k < n ==> f.requires(k)
    requires forall j, k :: 0 <= j < k < n && f(j) ==> f(k)
    ensures i <= n && (forall k :: 0 <= k < i ==> !f(k)) && (forall k :: i <= k < n ==> f(k))
  {
    var lo, hi := 0, n;
    while lo < hi
      invariant 0 <= lo <= hi <= n
      invariant (forall k :: 0 <= k < lo ==> !f(k)) && (forall k :: hi <= k < n ==> f(k))
    {
      var h := (lo + hi) / 2;
      if !f(h) {
        lo := h + 1;
      } else {
        hi := h;
      }
    }
    i := lo;
  }

  /** Intersects: on a coalesced set, one probe answers for every range. It answers rightly
      unless the range asked about, or the last of the set where it starts before that
      range ends, reaches past 2^63: then the answer is no. */
  method Intersects(rs: seq<ByteRange>, r: ByteRange) returns (yes: bool)
    requires Canonical(rs)
    ensures yes <==> Shares(rs, r) && Answerable(rs, r)
  {
    if r.length <= 0 || |rs| == 0 {
      return false;
    }
    EndWraps(r);
    var startsPast := k requires 0 <= k < |rs| => rs[k].offset >= r.End64();
    var i := Search(|rs|, startsPast);
    assert i > 0 ==> !startsPast(i - 1);
    if i > 0 {
      EndWraps(rs[i - 1]);
      CanonicalFits(rs, i - 1);
    }
    if i > 0 && rs[i - 1].End64() > r.offset {
      var x := Max(rs[i - 1].offset, r.offset);
      assert rs[i - 1].Has(x) && r.Has(x) && Covers(rs, x);
      assert i == |rs| || startsPast(|rs| - 1);
      return true;
    }
    if Answerable(rs, r) {
      forall x | r.Has(x) ensures !Covers(rs, x) {
        forall k | 0 <= k < |rs| ensures !rs[k].Has(x) {
          if k >= i {
            assert startsPast(k);
          } else if k + 1 < i {
            assert rs[k].End() < rs[i - 1].offset;
          }
        }
      }
    }
    return false;
  }

  ghost predicate Shares(rs: seq<ByteRange>, r: ByteRange) {
    exists i :: r.Has(i) && Covers(rs, i)
  }

  predicate Answerable(rs: seq<ByteRange>, r: ByteRange) {
    r.Fits() && (rs == [] || rs[|rs| - 1].Fits() || r.End() <= rs[|rs| - 1].offset)
  }

  /** Where the answer is not to be had, a set whose own ranges are to blame does share a
      byte, so no is wrong. */
  lemma UnanswerableShares(rs: seq<ByteRange>, r: ByteRange)
    requires Canonical(rs) && r.Fits() && r.length > 0 && !Answerable(rs, r)
    ensures Shares(rs, r)
  {
    var last := rs[|rs| - 1];
    var x := Max(last.offset, r.offset);
    assert last.Has(x) && r.Has(x) && Covers(rs, x);
  }

  /** Only the last range of a canonical list can reach past 2^63. */
  lemma CanonicalFits(rs: seq<ByteRange>, k: nat)
    requires Canonical(rs) && k < |rs|
    ensures k < |rs| - 1 ==> rs[k].Fits()
  {
    assert k < |rs| - 1 ==> rs[k].End() < rs[k + 1].offset;
  }

  /** Overlap: exactly the shared bytes, canonically, of a range that fits; nothing of one
      that does not. */
  method Overlap(rs: seq<ByteRange>, r: ByteRange) returns (out: seq<ByteRange>)
    requires Canonical(rs) && AllFit(rs)
    ensures Canonical(out) && AllFit(out)
    ensures forall i :: Covers(out, i) <==> Covers(rs, i) && r.Has(i) && r.Fits()
  {
    if r.length <= 0 || |rs| == 0 {
      return [];
    }
    EndWraps(r);
    forall k | 0 <= k < |rs| ensures rs[k].End64() == rs[k].End() {
      EndWraps(rs[k]);
    }
    hide Wrap64, Covers, SharedBy;
    var endsPast := k requires 0 <= k < |rs| => rs[k].End64() > r.offset;
    var first := Search(|rs|, endsPast);
    out := [];
    var i := first;
    NothingShared(r, rs, first);
    while i < |rs| && rs[i].offset < r.End64()
      invariant first <= i <= |rs| && AllFit(out) && (r.Fits() || out == [])
      invariant Canonical(out) && forall k :: 0 <= k < |out| ==> i > 0 && out[k].End() <= rs[i - 1].End()
      invariant SharedBy(out, r, rs, first, i)
    {
      var got := rs[i].Intersect(r);
      SharedStep(out, r, rs, first, i);
      if got.Some? {
        out := Snoc(out, got.value);
      }
      i := i + 1;
    }
    if r.Fits() {
      forall k | 0 <= k < first ensures rs[k].End() <= r.offset {
        assert !endsPast(k);
      }
      AllShared(out, r, rs, first, i);
    } else {
      NoneCovered();
    }
  }

  lemma NoneCovered()
    ensures forall x :: !Covers([], x)
  {
  }

  lemma NothingShared(r: ByteRange, rs: seq<ByteRange>, lo: nat)
    requires lo <= |rs|
    ensures SharedBy([], r, rs, lo, lo)
  {
  }

  /** The ranges before lo end too soon to share a byte, and those from hi start too late. */
  lemma AllShared(out: seq<ByteRange>, r: ByteRange, rs: seq<ByteRange>, lo: nat, hi: nat)
    requires Canonical(rs) && lo <= hi <= |rs| && SharedBy(out, r, rs, lo, hi)
    requires forall k :: 0 <= k < lo ==> rs[k].End() <= r.offset
    requires hi < |rs| ==> rs[hi].offset >= r.End()
    ensures forall x :: Covers(out, x) <==> Covers(rs, x) && r.Has(x)
  {
    forall x ensures Covers(out, x) <==> Covers(rs, x) && r.Has(x) {
      if Covers(rs, x) && r.Has(x) {
        var k :| 0 <= k < |rs| && rs[k].Has(x);
        if hi <= k {
          OffsetsAscend(rs, hi, k);
        }
      }
    }
  }

  /** The list has exactly the bytes that r shares with the ranges from lo to hi. */
  ghost predicate SharedBy(out: seq<ByteRange>, r: ByteRange, rs: seq<ByteRange>, lo: nat, hi: nat)
    requires lo <= hi <= |rs|
  {
    forall x :: Covers(out, x) <==> r.Has(x) && exists k :: lo <= k < hi && rs[k].Has(x)
  }

  lemma SharedStep(out: seq<ByteRange>, r: ByteRange, rs: seq<ByteRange>, lo: nat, hi: nat)
    requires lo <= hi < |rs| && SharedBy(out, r, rs, lo, hi) && rs[hi].Fits() && r.Fits()
    ensures var got := rs[hi].Intersect(r);
      && (got.Some? ==> got.value.length > 0 && got.value.Held() && got.value.Fits())
      && (got.None? ==> SharedBy(out, r, rs, lo, hi + 1))
      && (got.Some? ==> SharedBy(Snoc(out, got.value), r, rs, lo, hi + 1))
  {
    var got := rs[hi].Intersect(r);
    IntersectBytes(rs[hi], r);
    if got.Some? {
      forall x ensures Covers(out + [got.value], x) <==> Covers(out, x) || got.value.Has(x) {
        CoversSnoc(out, got.value, x);
      }
    }
  }

  // ---------------------------------------------------------------- changed parts of a file

  /** One run of a file's content: where it is on the disk, and where in the file. */
  datatype AnyExtent = Placed(range: ByteRange, fileOffset: int)
  {
    predicate Sparse() { range.length <= 0 }

    predicate Fits() {
      range.Fits() && 0 <= fileOffset < TWO_63 && fileOffset + range.length < TWO_63
    }
  }

  /** The runs that end, on the disk and in the file, where a signed 64-bit number can say. */
  type FileExtent = e: AnyExtent | e.Fits() witness EmptyExtent()

  function EmptyExtent(): (e: AnyExtent)
    ensures e.Fits()
  {
    var nothing: ByteRange := Range(0, 0);
    Placed(nothing, 0)
  }

  /** Byte x of the file is a written byte of the disk. */
  ghost predicate FileByteWritten(extents: seq<FileExtent>, written: seq<ByteRange>, x: int) {
    exists k :: 0 <= k < |extents| && ExtentByteWritten(extents[k], written, x)
  }

  ghost predicate ExtentByteWritten(e: FileExtent, written: seq<ByteRange>, x: int) {
    var y := e.range.offset + (x - e.fileOffset);
    e.range.Has(y) && Covers(written, y)
  }

  /** changedWithin: the parts of a file that fall inside the written ranges, in the
      file's own coordinates, and whether there are any. */
  method ChangedWithin(extents: seq<FileExtent>, written: seq<ByteRange>) returns (parts: seq<ByteRange>, any: bool)
    requires Canonical(written) && AllFit(written)
    ensures Canonical(parts) && forall x :: Covers(parts, x) <==> FileByteWritten(extents, written, x)
    ensures any <==> exists x :: FileByteWritten(extents, written, x)
  {
    var out: seq<ByteRange> := [];
    for i := 0 to |extents|
      invariant AllFit(out) && forall k :: 0 <= k < |out| ==> out[k].length > 0
      invariant forall x :: Covers(out, x) <==> FileByteWritten(extents[..i], written, x)
    {
      var e := extents[i];
      var here: seq<ByteRange> := [];
      if !e.Sparse() {
        here := Translated(e, written);
      }
      forall x ensures Covers(out + here, x) <==> FileByteWritten(extents[..i + 1], written, x) {
        CoversConcat(out, here, x);
        WrittenStep(extents, written, i, x);
      }
      out := out + here;
    }
    assert extents[..|extents|] == extents;
    if |out| == 0 {
      return [], false;
    }
    FittingAreAlone(out);
    parts := Coalesce(out);
    assert out[0].Has(out[0].offset) && Covers(out, out[0].offset);
    return parts, true;
  }

  lemma CoversConcat(a: seq<ByteRange>, b: seq<ByteRange>, x: int)
    ensures Covers(a + b, x) <==> Covers(a, x) || Covers(b, x)
  {
    if Covers(a, x) {
      var k :| 0 <= k < |a| && a[k].Has(x);
      assert (a + b)[k].Has(x);
    }
    if Covers(b, x) {
      var k :| 0 <= k < |b| && b[k].Has(x);
      assert (a + b)[|a| + k].Has(x);
    }
  }

  lemma WrittenStep(extents: seq<FileExtent>, written: seq<ByteRange>, i: nat, x: int)
    requires i < |extents|
    ensures FileByteWritten(extents[..i + 1], written, x) <==>
      FileByteWritten(extents[..i], written, x) || ExtentByteWritten(extents[i], written, x)
  {
    hide ExtentByteWritten;
    if FileByteWritten(extents[..i], written, x) {
      var k :| 0 <= k < i && ExtentByteWritten(extents[..i][k], written, x);
      assert extents[..i + 1][k] == extents[..i][k];
    }
    if ExtentByteWritten(extents[i], written, x) {
      assert extents[..i + 1][i] == extents[i];
    }
  }

  /** A part of an extent, moved into the file, ends where the extent does or before. */
  lemma TranslatedFits(e: FileExtent, written: seq<ByteRange>, hits: seq<ByteRange>, i: nat)
    requires Canonical(hits) && i < |hits| && !e.Sparse()
    requires forall x :: Covers(hits, x) <==> Covers(written, x) && e.range.Has(x)
    ensures var moved := Range(e.fileOffset + (hits[i].offset - e.range.offset), hits[i].length);
      moved.Held() && moved.Fits()
  {
    var first, last := hits[i].offset, hits[i].End() - 1;
    assert hits[i].Has(first) && hits[i].Has(last);
    assert Covers(hits, first) && Covers(hits, last);
  }

  /** The overlap of one extent with the written ranges, moved into the file. */
  method Translated(e: FileExtent, written: seq<ByteRange>) returns (out: seq<ByteRange>)
    requires Canonical(written) && AllFit(written) && !e.Sparse()
    ensures AllFit(out) && forall k :: 0 <= k < |out| ==> out[k].length > 0
    ensures forall x :: Covers(out, x) <==> ExtentByteWritten(e, written, x)
  {
    var hits := Overlap(written, e.range);
    out := [];
    for i := 0 to |hits|
      invariant AllFit(out)
      invariant |out| == i && forall k :: 0 <= k < i ==>
        out[k] == Range(e.fileOffset + (hits[k].offset - e.range.offset), hits[k].length)
    {
      TranslatedFits(e, written, hits, i);
      out := Snoc(out, Range(e.fileOffset + (hits[i].offset - e.range.offset), hits[i].length));
    }
    forall x ensures Covers(out, x) <==> Covers(hits, e.range.offset + (x - e.fileOffset)) {
      var y := e.range.offset + (x - e.fileOffset);
      if Covers(out, x) {
        var k :| 0 <= k < |out| && out[k].Has(x);
        assert hits[k].Has(y);
      }
      if Covers(hits, y) {
        var k :| 0 <= k < |hits| && hits[k].Has(y);
        assert out[k].Has(x);
      }
    }
  }
}
