/** Building a differencing chain in place: resolveChain attaches one parent after another
    to disks it owns, and Close gives their handles back. */
module ChainBuild {
  import opened Bytes
  import opened ChainSpec

  /** The handles Close was called on, oldest first. */
  class Ledger {
    var closed: seq<Handle>

    constructor ()
      ensures closed == []
    {
      closed := [];
    }

    /** Closes a handle, reporting whether that failed. */
    method Close(h: Handle) returns (failed: bool)
      modifies this
      ensures closed == old(closed) + [h] && failed == h.fails
    {
      closed := closed + [h];
      failed := h.fails;
    }
  }

  /** All but the far end of a chain. */
  ghost function Children(links: seq<VirtualDisk>): seq<VirtualDisk> {
    if links == [] then [] else links[..|links| - 1]
  }

  /** Each disk's parent is the next one. The parent a disk reports and the parent its
      differencing resolver reads through are the same disk. */
  ghost predicate Path(links: seq<VirtualDisk>)
    reads Children(links)`parent, Children(links)`readsThrough
  {
    && links != []
    && (forall i, j :: 0 <= i < j < |links| ==> links[i] != links[j])
    && (forall i :: 0 <= i < |links| - 1 ==> Joined(links, i))
  }

  ghost predicate Joined(links: seq<VirtualDisk>, i: nat)
    requires i + 1 < |links|
    reads Children(links)`parent, Children(links)`readsThrough
  {
    assert links[i] == Children(links)[i];
    links[i].parent == links[i + 1] && links[i].readsThrough == links[i + 1]
  }

  /** The disks a chain is made of, from the leaf to the last one attached. */
  ghost predicate Linked(links: seq<VirtualDisk>)
    reads links`parent, links`readsThrough
  {
    && Path(links)
    && links[|links| - 1].parent == null && links[|links| - 1].readsThrough == null
  }

  ghost function Members(links: seq<VirtualDisk>): (ms: seq<Member>)
    reads links`path
    ensures |ms| == |links|
  {
    if links == [] then [] else Members(links[..|links| - 1]) + [links[|links| - 1].AsMember()]
  }

  lemma {:induction false} MembersAre(links: seq<VirtualDisk>, i: nat)
    requires i < |links|
    ensures Members(links)[i] == links[i].AsMember()
  {
    if i < |links| - 1 {
      MembersAre(links[..|links| - 1], i);
    }
  }

  /** The handle a disk holds itself. */
  ghost function HeldBy(d: VirtualDisk): seq<Handle>
    reads d`closer
  {
    HandleSeq(d.closer)
  }

  /** The handles closing the first disk of a chain would close: its own, and those of the
      parents it owns. */
  ghost function Owed(links: seq<VirtualDisk>): seq<Handle>
    requires links != []
    reads links`closer, links`ownedByChild
    decreases |links|
  {
    HeldBy(links[0]) + if |links| > 1 && links[1].ownedByChild then Owed(links[1..]) else []
  }

  /** The first handle that fails to close. */
  function FirstFailing(hs: seq<Handle>): Option<Handle> {
    if hs == [] then None else if hs[0].fails then Some(hs[0]) else FirstFailing(hs[1..])
  }

  lemma ConcatAssociates<T>(a: seq<T>, b: seq<T>, c: seq<T>)
    ensures a + b + c == a + (b + c)
  {
  }

  lemma {:induction false} FirstFailingConcat(a: seq<Handle>, b: seq<Handle>)
    ensures FirstFailing(a + b) == if FirstFailing(a).Some? then FirstFailing(a) else FirstFailing(b)
  {
    if a == [] {
      assert a + b == b;
    } else {
      assert (a + b)[1..] == a[1..] + b;
      FirstFailingConcat(a[1..], b);
    }
  }

  /** The rest of a chain is a chain, and does not hold its first disk. */
  lemma LinkedRest(links: seq<VirtualDisk>)
    requires Linked(links) && |links| > 1
    ensures Linked(links[1..]) && links[1..][0] == links[1] == links[0].parent
    ensures forall d :: d in links[1..] ==> d != links[0]
  {
    var rest := links[1..];
    assert Joined(links, 0);
    forall i | 0 <= i < |rest| - 1 ensures Joined(rest, i) {
      assert Joined(links, i + 1);
    }
  }

  lemma LastHasNoParent(links: seq<VirtualDisk>)
    requires Linked(links)
    ensures links[0].parent == null <==> |links| == 1
    ensures |links| > 1 ==> links[0].parent == links[1]
  {
    assert |links| > 1 ==> Joined(links, 0);
  }

  class VirtualDisk {
    const info: Info
    var path: string
    var closer: Option<Handle>
    var parent: VirtualDisk?
    var readsThrough: VirtualDisk?
    var ownedByChild: bool
    var parentErr: Option<Stop>
    var warnings: seq<Warning>

    /** A disk as opening an image leaves it. */
    constructor (image: Info)
      ensures info == image && Opened()
      ensures path == "" && closer == None && !ownedByChild
    {
      info, path, closer := image, "", None;
      parent, readsThrough, ownedByChild := null, null, false;
      parentErr, warnings := None, image.opening;
    }

    ghost predicate Opened()
      reads this
    {
      parent == null && readsThrough == null && parentErr == None && warnings == info.opening
    }

    ghost function AsMember(): Member
      reads this`path
    {
      Member(info, path)
    }

    /** SetParent. */
    method SetParent(p: VirtualDisk?) returns (ok: bool)
      modifies this`parent, this`readsThrough
      ensures ok <==> info.disk.IsDifferencing() && p != null && p.info.disk.virtualSize == info.disk.virtualSize
      ensures ok ==> parent == p && readsThrough == p
      ensures !ok ==> parent == old(parent) && readsThrough == old(readsThrough)
    {
      if !info.disk.IsDifferencing() {
        return false;
      }
      if p == null {
        return false;
      }
      if p.info.disk.virtualSize != info.disk.virtualSize {
        return false;
      }
      readsThrough := p;
      parent := p;
      return true;
    }

    /** verifyParent. Warnings that do not decide anything go to the child. */
    method VerifyParent(p: VirtualDisk, source: Source, opts: Options) returns (ok: bool)
      modifies this`warnings
      ensures ok <==>
        && p.info.disk.virtualSize == info.disk.virtualSize
        && (opts.allowGuidMismatch || ZeroGuid(info.parentIdentifier) || Names(info, p.info))
      ensures warnings == old(warnings) +
        if p.info.disk.virtualSize == info.disk.virtualSize then Caveats(info, source, opts) else []
    {
      ZeroGuidIs(info.parentIdentifier);
      if p.info.disk.virtualSize != info.disk.virtualSize {
        return false;
      }
      if info.format == Vhd && info.parentModified.Some? && source.modified.Some?
        && info.parentModified != source.modified
      {
        warnings := warnings + [TimestampMismatch];
      }
      if opts.allowGuidMismatch {
        warnings := warnings + [IdentityUnchecked];
        return true;
      }
      if info.parentIdentifier == NO_GUID {
        warnings := warnings + [IdentityUnverifiable];
        return true;
      }
      return p.info.LinkIdentity() == info.parentIdentifier;
    }

    /** Close. Everything the disk owes is closed, once and in chain order, and nothing is
        owed afterwards. */
    method Close(ghost links: seq<VirtualDisk>, ledger: Ledger) returns (firstErr: Option<Handle>)
      requires Linked(links) && links[0] == this
      modifies links`closer
      modifies ledger
      ensures ledger.closed == old(ledger.closed) + old(Owed(links))
      ensures Owed(links) == []
      ensures firstErr == FirstFailing(old(Owed(links)))
      decreases |links|
    {
      firstErr := None;
      ghost var before, own := ledger.closed, HeldBy(this);
      ghost var rest := if |links| > 1 && links[1].ownedByChild then Owed(links[1..]) else [];
      if closer.Some? {
        var failed := ledger.Close(closer.value);
        if failed {
          firstErr := closer;
        }
        closer := None;
      }
      assert firstErr == FirstFailing(own);
      LastHasNoParent(links);
      assert ledger.closed == before + own;
      if parent != null && parent.ownedByChild {
        LinkedRest(links);
        assert Owed(links[1..]) == rest;
        var err := parent.Close(links[1..], ledger);
        if err != None && firstErr == None {
          firstErr := err;
        }
      }
      FirstFailingConcat(own, rest);
      assert ledger.closed == before + own + rest;
      ConcatAssociates(before, own, rest);
      assert HeldBy(this) == [];
    }

    /** ChainComplete. */
    method ChainComplete(ghost links: seq<VirtualDisk>) returns (complete: bool)
      requires Linked(links) && links[0] == this
      ensures complete <==>
        forall i :: 0 <= i < |links| ==> links[i].info.disk.IsDifferencing() ==> links[i].parent != null
    {
      var disk: VirtualDisk? := this;
      ghost var i := 0;
      while disk != null
        invariant 0 <= i <= |links|
        invariant if disk == null then i == |links| else i < |links| && disk == links[i]
        invariant forall j :: 0 <= j < i ==> links[j].info.disk.IsDifferencing() ==> links[j].parent != null
        decreases |links| - i
      {
        if disk.info.disk.IsDifferencing() && disk.parent == null {
          return false;
        }
        assert i + 1 < |links| ==> Joined(links, i);
        i := i + 1;
        disk := disk.parent;
      }
      return true;
    }

    /** One turn of the walk: asks the resolver for this disk's parent and opens it. What
        does not open, is not the parent this disk records, or was visited before is
        refused, and its handle closed. */
    method FindParent(s: Setting, seen: set<Key>, ledger: Ledger, depth: nat, ghost ms: seq<Member>)
      returns (found: bool, next: VirtualDisk, stop: Stop)
      requires |ms| == depth + 1 && ms[depth].info == info && seen == KeysOf(ms, s.normal)
      requires s.enabled && info.disk.IsDifferencing()
      modifies this`warnings, ledger
      ensures StopAt(ms, s) == if found then None else Some(stop)
      ensures !found ==> !(stop in {Suppressed, Complete})
      ensures warnings == old(warnings) + CaveatsAt(info, depth, s)
      ensures found ==> ledger.closed == old(ledger.closed)
      ensures !found ==> ledger.closed == old(ledger.closed) + TurnedAway(s, |ms|, stop)
      ensures found ==> fresh(next) && next.FoundAt(s, depth)
    {
      if depth + 2 > s.opts.Limit() {
        return false, this, TooDeep;
      }
      var answer := s.resolve(depth);
      if answer.NotFound? {
        return false, this, Unlocated;
      }
      var source := answer.source;
      if !source.hasReader {
        return false, this, NilReader;
      }
      if source.image.None? {
        if source.closer.Some? {
          var _ := ledger.Close(source.closer.value);
        }
        return false, this, Unopenable;
      }
      next := new VirtualDisk(source.image.value);
      next.closer := source.closer;
      next.path := source.name;
      next.ownedByChild := true;
      found, stop := true, Complete;
      var matches := VerifyParent(next, source, s.opts);
      IdentityMeaning(info, next.info, s.opts);
      if !matches {
        var _ := next.Close([next], ledger);
        return false, this, Mismatch;
      }
      var key := KeyOf(Member(next.info, next.path), s.normal);
      if key != Unknown && key in seen {
        var _ := next.Close([next], ledger);
        return false, this, Cycle;
      }
    }

    /** This disk is the resolver's answer for link i, owned and not yet attached. */
    ghost predicate FoundAt(s: Setting, i: nat)
      reads this
    {
      && s.resolve(i).Found? && s.resolve(i).source.hasReader && s.resolve(i).source.image.Some?
      && AsMember() == Member(s.resolve(i).source.image.value, s.resolve(i).source.name)
      && closer == s.resolve(i).source.closer && ownedByChild && Opened()
    }

    /** Attaches the parent that was opened for the far end of a chain. The checks that
        SetParent makes have all been made by then, so it cannot refuse. */
    method Attach(next: VirtualDisk, s: Setting, ghost links: seq<VirtualDisk>)
      requires Walking(links, s) && links[|links| - 1] == this && next !in links
      requires StopAt(Members(links), s) == None && next.FoundAt(s, |links| - 1)
      modifies this`parent, this`readsThrough
      ensures Walking(links + [next], s)
      ensures KeysOf(Members(links + [next]), s.normal) ==
              KeysOf(Members(links), s.normal) + WithKey(next.AsMember(), s)
    {
      MembersAre(links, |links| - 1);
      DifferencingGoesOn(Members(links), s);
      LastIsNew(links);
      var attached := SetParent(next);
      assert attached;
      hide StopAt, AllAttached, Path;
      WalkGrows(links, next, s);
    }

    /** One turn of the walk at the far end of a chain: it grows by the parent found, or it
        ends here. */
    method Extend(s: Setting, seen: set<Key>, ledger: Ledger, depth: nat,
                  ghost links: seq<VirtualDisk>, ghost leaf: VirtualDisk)
      returns (found: bool, next: VirtualDisk, stop: Stop)
      requires depth == |links| - 1 && Stands(links, leaf, this, seen, s) && info.disk.IsDifferencing()
      modifies this`parent, this`readsThrough, this`warnings, ledger
      ensures !found ==> Built(links, leaf, s, stop) && !(stop in {Suppressed, Complete})
      ensures found ==> fresh(next) && Stands(links + [next], leaf, next, seen + WithKey(next.AsMember(), s), s)
      ensures found ==> ledger.closed == old(ledger.closed)
      ensures !found ==> ledger.closed == old(ledger.closed) + TurnedAway(s, depth + 1, stop)
    {
      StandsAt(links, leaf, this, seen, s);
      hide StopAt, KeysOf, Walking, CaveatsAt, TurnedAway, FoundAt, Members, WithKey;
      hide Stands, Built, AllWarned, Children;
      found, next, stop := FindParent(s, seen, ledger, depth, Members(links));
      AllWarnedSnoc(Children(links), this, s);
      if found {
        FoundIsNew(next, s, depth);
        WithinLimit(Members(links), s);
        Attach(next, s, links);
        StandsFurther(links, leaf, next, seen, s);
      } else {
        WalkEnds(links, s, stop);
      }
    }

    /** resolveChain. Whatever the resolver answers, the chain built is the one its answers
        call for, the error and the note left on the leaf say why it ended, and the only
        handle closed is that of an answer that was turned away. */
    method ResolveChain(s: Setting, ledger: Ledger)
      returns (err: Option<Stop>, ghost links: seq<VirtualDisk>, ghost stop: Stop)
      requires Opened()
      modifies this`parent, this`readsThrough, this`parentErr, this`warnings, ledger
      ensures Built(links, this, s, stop)
      ensures forall i :: 1 <= i < |links| ==> fresh(links[i])
      ensures err == ErrorFor(stop, s.opts) && parentErr == NoteFor(stop, s.opts)
      ensures ledger.closed == old(ledger.closed) + TurnedAway(s, |links|, stop)
    {
      if s.enabled {
        var why;
        why, links := WalkParents(s, ledger);
        stop := why;
        hide Built, TurnedAway;
        if why == TooDeep || (why != Complete && s.opts.requireParentChain) {
          return Some(why), links, stop;
        }
        if why != Complete {
          parentErr := Some(why);
        }
        err := None;
      } else {
        err, links, stop := None, [this], Suppressed;
        WalkStarts(this, s);
      }
    }

    /** The loop of resolveChain, once there is a resolver. */
    method WalkParents(s: Setting, ledger: Ledger) returns (why: Stop, ghost links: seq<VirtualDisk>)
      requires Opened() && s.enabled
      modifies this`parent, this`readsThrough, this`warnings, ledger
      ensures Built(links, this, s, why) && why != Suppressed
      ensures forall i :: 1 <= i < |links| ==> fresh(links[i])
      ensures ledger.closed == old(ledger.closed) + TurnedAway(s, |links|, why)
    {
      links := [this];
      WalkStarts(this, s);
      hide StopAt, Stands, Built, TurnedAway, Members, WithKey, KeyOf;
      var seen := WithKey(Member(info, path), s);
      var current, depth := this, 0;
      while current.info.disk.IsDifferencing()
        invariant depth == |links| - 1 && depth + 1 <= s.opts.Limit()
        invariant Stands(links, this, current, seen, s)
        invariant forall i :: 1 <= i < |links| ==> fresh(links[i])
        invariant (current == this || fresh(current)) && ledger.closed == old(ledger.closed)
        decreases s.opts.Limit() - depth
      {
        var found, next, stop := current.Extend(s, seen, ledger, depth, links, this);
        if !found {
          return stop, links;
        }
        seen := seen + WithKey(Member(next.info, next.path), s);
        links := links + [next];
        WithinStands(links, this, next, seen, s);
        current := next;
        depth := depth + 1;
      }
      RootEnds(links, this, current, seen, s, ledger.closed);
      return Complete, links;
    }
  }

  /** Where a walk with a resolver stands before it looks for the parent of `last`. */
  ghost predicate Stands(links: seq<VirtualDisk>, leaf: VirtualDisk, last: VirtualDisk, seen: set<Key>, s: Setting)
    reads links`parent, links`readsThrough, links`path, links`closer, links`ownedByChild, links`warnings
  {
    && links != [] && links[0] == leaf && links[|links| - 1] == last && |links| <= s.opts.Limit() && s.enabled
    && Walking(links, s)
    && seen == KeysOf(Members(links), s.normal)
    && AllWarned(Children(links), s) && last.warnings == last.info.opening
  }

  lemma StandsAt(links: seq<VirtualDisk>, leaf: VirtualDisk, last: VirtualDisk, seen: set<Key>, s: Setting)
    requires Stands(links, leaf, last, seen, s)
    ensures Walking(links, s) && s.enabled && seen == KeysOf(Members(links), s.normal)
    ensures AllWarned(Children(links), s) && last.warnings == last.info.opening
    ensures |Children(links)| == |links| - 1 && Children(links) + [last] == links
    ensures Members(links)[|links| - 1] == last.AsMember() && links[0] == leaf && links[|links| - 1] == last
    ensures last !in Children(links) && forall i :: 0 <= i < |links| - 1 ==> links[i] != last
  {
    LastIsNew(links);
    MembersAre(links, |links| - 1);
  }

  lemma WithinStands(links: seq<VirtualDisk>, leaf: VirtualDisk, last: VirtualDisk, seen: set<Key>, s: Setting)
    requires Stands(links, leaf, last, seen, s)
    ensures |links| <= s.opts.Limit()
  {
  }

  lemma StandsFurther(links: seq<VirtualDisk>, leaf: VirtualDisk, next: VirtualDisk, seen: set<Key>, s: Setting)
    requires links != [] && links[0] == leaf
    requires s.enabled && |links| + 1 <= s.opts.Limit() && Walking(links + [next], s)
    requires KeysOf(Members(links + [next]), s.normal) == seen + WithKey(next.AsMember(), s)
    requires AllWarned(links, s) && next.warnings == next.info.opening
    ensures Stands(links + [next], leaf, next, seen + WithKey(next.AsMember(), s), s)
  {
    assert Children(links + [next]) == links;
  }

  /** Everything a walk has established once it has attached these links: the chain is the
      one the resolver's answers call for, and closing its first disk closes every handle
      they supplied. */
  ghost predicate Walking(links: seq<VirtualDisk>, s: Setting)
    reads links`parent, links`readsThrough, links`path, links`closer, links`ownedByChild
  {
    && Linked(links)
    && (forall i :: 1 <= i < |links| ==> links[i].ownedByChild)
    && AllAttached(Members(links), s)
    && Owed(links) == HeldBy(links[0]) + Supplied(s, |links| - 1)
  }

  /** What a walk that ended has built from this leaf. */
  ghost predicate Built(links: seq<VirtualDisk>, leaf: VirtualDisk, s: Setting, stop: Stop)
    reads links`parent, links`readsThrough, links`path, links`closer, links`ownedByChild, links`warnings
  {
    && Walking(links, s) && links[0] == leaf
    && Outcome(s, links[0].AsMember(), Members(links), stop)
    && AllWarned(links, s)
  }

  lemma WalkStarts(d: VirtualDisk, s: Setting)
    requires d.Opened()
    ensures s.enabled ==> Stands([d], d, d, WithKey(d.AsMember(), s), s)
    ensures !s.enabled ==> Built([d], d, s, Suppressed) && TurnedAway(s, 1, Suppressed) == []
  {
    KeysGrow([], d.AsMember(), s.normal);
    assert Members([d]) == [d.AsMember()];
    assert [] + [d.AsMember()] == [d.AsMember()];
  }

  lemma WalkEnds(links: seq<VirtualDisk>, s: Setting, stop: Stop)
    requires Walking(links, s) && StopAt(Members(links), s) == Some(stop) && AllWarned(links, s)
    ensures Built(links, links[0], s, stop)
  {
    MembersAre(links, 0);
  }

  lemma RootEnds(links: seq<VirtualDisk>, leaf: VirtualDisk, last: VirtualDisk, seen: set<Key>, s: Setting,
                 closed: seq<Handle>)
    requires Stands(links, leaf, last, seen, s) && !last.info.disk.IsDifferencing()
    ensures Built(links, leaf, s, Complete) && closed + TurnedAway(s, |links|, Complete) == closed
  {
    MembersAre(links, |links| - 1);
    AllWarnedSnoc(Children(links), last, s);
    assert Children(links) + [last] == links;
    WalkEnds(links, s, Complete);
  }

  lemma LastIsNew(links: seq<VirtualDisk>)
    requires links != [] && forall i, j :: 0 <= i < j < |links| ==> links[i] != links[j]
    ensures links[|links| - 1] !in Children(links)
    ensures forall i :: 0 <= i < |links| - 1 ==> links[i] != links[|links| - 1]
  {
  }

  lemma FoundIsNew(d: VirtualDisk, s: Setting, i: nat)
    requires d.FoundAt(s, i)
    ensures d.warnings == d.info.opening
  {
  }

  lemma WithinLimit(ms: seq<Member>, s: Setting)
    requires ms != [] && StopAt(ms, s) == None
    ensures |ms| + 1 <= s.opts.Limit()
  {
  }

  /** Joining one more disk to the far end of a walk. */
  lemma WalkGrows(links: seq<VirtualDisk>, next: VirtualDisk, s: Setting)
    requires Path(links) && next !in links && next.FoundAt(s, |links| - 1)
    requires links[|links| - 1].parent == next && links[|links| - 1].readsThrough == next
    requires forall i :: 1 <= i < |links| ==> links[i].ownedByChild
    requires AllAttached(Members(links), s) && StopAt(Members(links), s) == None
    requires Owed(links) == HeldBy(links[0]) + Supplied(s, |links| - 1)
    ensures Walking(links + [next], s)
    ensures KeysOf(Members(links + [next]), s.normal) == KeysOf(Members(links), s.normal) + WithKey(next.AsMember(), s)
  {
    assert Path(links) ==> links != [];
    hide StopAt, AllAttached, Path, Owed, KeysOf, WithKey, Members;
    AttachOne(Members(links), s);
    MembersGrow(links, next);
    OwedGrows(links, next);
    OwedSupplied(links, next, s);
    PathGrows(links, next);
  }

  lemma MembersGrow(links: seq<VirtualDisk>, next: VirtualDisk)
    ensures Members(links + [next]) == Members(links) + [next.AsMember()]
  {
    assert (links + [next])[..|links|] == links;
  }

  lemma OwedSupplied(links: seq<VirtualDisk>, next: VirtualDisk, s: Setting)
    requires links != [] && next.FoundAt(s, |links| - 1)
    ensures HeldBy(links[0]) + Supplied(s, |links| - 1) + HeldBy(next) == HeldBy(links[0]) + Supplied(s, |links|)
  {
    ConcatAssociates(HeldBy(links[0]), Supplied(s, |links| - 1), HeldBy(next));
  }

  lemma PathGrows(links: seq<VirtualDisk>, next: VirtualDisk)
    requires Path(links) && next !in links
    requires links[|links| - 1].parent == next && links[|links| - 1].readsThrough == next
    ensures Path(links + [next])
  {
    var longer := links + [next];
    forall i | 0 <= i < |longer| - 1 ensures Joined(longer, i) {
      assert i < |links| - 1 ==> Joined(links, i);
    }
  }

  lemma DifferencingGoesOn(ms: seq<Member>, s: Setting)
    requires ms != [] && StopAt(ms, s) == None
    ensures ms[|ms| - 1].info.disk.IsDifferencing()
    ensures s.resolve(|ms| - 1).Found? && s.resolve(|ms| - 1).source.image.Some?
    ensures s.resolve(|ms| - 1).source.image.value.disk.virtualSize == ms[|ms| - 1].info.disk.virtualSize
  {
  }

  /** These disks, the first of a chain, carry the warnings of opening them and of
      attaching their parents. */
  ghost predicate AllWarned(ds: seq<VirtualDisk>, s: Setting)
    reads ds`warnings
  {
    forall i :: 0 <= i < |ds| ==> Warned(ds[i], i, s)
  }

  ghost predicate Warned(d: VirtualDisk, i: nat, s: Setting)
    reads d`warnings
  {
    d.warnings == d.info.opening + CaveatsAt(d.info, i, s)
  }

  lemma AllWarnedSnoc(ds: seq<VirtualDisk>, d: VirtualDisk, s: Setting)
    requires AllWarned(ds, s) && Warned(d, |ds|, s)
    ensures AllWarned(ds + [d], s)
  {
  }

  lemma {:induction false} OwedGrows(links: seq<VirtualDisk>, next: VirtualDisk)
    requires links != [] && next.ownedByChild
    requires forall i :: 1 <= i < |links| ==> links[i].ownedByChild
    ensures Owed(links + [next]) == Owed(links) + HeldBy(next)
    decreases |links|
  {
    var longer := links + [next];
    assert longer[0] == links[0];
    if |links| == 1 {
      assert longer[1..] == [next];
    } else {
      assert longer[1] == links[1] && longer[1..] == links[1..] + [next];
      OwedGrows(links[1..], next);
      ConcatAssociates(HeldBy(links[0]), Owed(links[1..]), HeldBy(next));
    }
  }

  /** Opening a chain, as Open and OpenFileWith end: a disk whose chain could not be built
      is closed at once. Every handle supplied with a reader has then been closed, or is
      owed by the disk that is returned and closed by closing it: each exactly once. With
      resolution enabled a disk is returned with a complete chain exactly when no reason is
      recorded for stopping short. */
  method OpenChain(image: Info, path: string, closer: Option<Handle>, s: Setting, ledger: Ledger)
    returns (d: VirtualDisk?, err: Option<Stop>, ghost links: seq<VirtualDisk>, ghost stop: Stop)
    modifies ledger
    ensures d == null <==> err != None
    ensures err == ErrorFor(stop, s.opts)
    ensures links != [] && Outcome(s, Member(image, path), Members(links), stop)
    ensures d != null ==>
      && Linked(links) && links[0] == d && fresh(links)
      && (s.enabled ==> (d.parentErr == None <==> !links[|links| - 1].info.disk.IsDifferencing()))
    ensures var owed := if d == null then [] else Owed(links);
      Balanced(old(ledger.closed), ledger.closed, owed, HandleSeq(closer), Supplied(s, Asked(|links|, stop)))
  {
    var disk := new VirtualDisk(image);
    disk.path := path;
    disk.closer := closer;
    assert disk.AsMember() == Member(image, path);
    err, links, stop := disk.ResolveChain(s, ledger);
    hide Built, Linked, Outcome, Supplied, TurnedAway, Asked, Owed, HeldBy, HandleSeq, FirstFailing, Members, Balanced;
    WhatWasBuilt(links, s, disk, stop);
    AllAccounted(old(ledger.closed), HandleSeq(closer), s, |links|, stop);
    if err != None {
      var _ := disk.Close(links, ledger);
      d := null;
    } else {
      d := disk;
    }
  }

  /** The handles closed since, and those still owed, are the disk's own and those supplied
      with a reader, each as often. */
  ghost predicate Balanced(was: seq<Handle>, now: seq<Handle>, owed: seq<Handle>, own: seq<Handle>,
    supplied: seq<Handle>)
  {
    multiset(now) + multiset(owed) == multiset(was) + multiset(own) + multiset(supplied)
  }

  lemma WhatWasBuilt(links: seq<VirtualDisk>, s: Setting, leaf: VirtualDisk, stop: Stop)
    requires Built(links, leaf, s, stop)
    ensures links != [] && links[0] == leaf && Linked(links) && Outcome(s, leaf.AsMember(), Members(links), stop)
    ensures Owed(links) == HandleSeq(links[0].closer) + Supplied(s, |links| - 1)
    ensures s.enabled ==> stop != Suppressed && (stop == Complete <==> !links[|links| - 1].info.disk.IsDifferencing())
  {
    MembersAre(links, |links| - 1);
  }

  lemma AllAccounted(was: seq<Handle>, own: seq<Handle>, s: Setting, links: nat, stop: Stop)
    requires links > 0
    ensures var away, kept := TurnedAway(s, links, stop), own + Supplied(s, links - 1);
      && Balanced(was, was + away, kept, own, Supplied(s, Asked(links, stop)))
      && Balanced(was, was + away + kept, [], own, Supplied(s, Asked(links, stop)))
  {
    SuppliedSplits(s, links, stop);
  }
}
