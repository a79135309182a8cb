/** Which chain a run of parent resolution builds, as a function of what the resolver
    answers. The resolver is arbitrary: it is whatever sequence of answers a run got. */
module ChainSpec {
  import opened Bytes
  import opened Images

  type Guid = seq<byte>

  const NO_GUID: Guid := [0, 0, 0, 0, 0, 0, 0, 0, 0, 0, 0, 0, 0, 0, 0, 0]

  const DEFAULT_MAX_CHAIN_DEPTH := 32

  datatype Format = Vhd | Vhdx

  datatype Warning = IdentityUnchecked | IdentityUnverifiable | TimestampMismatch | FooterRecovered

  /** A closer, and whether closing it reports an error. */
  datatype Handle = Handle(id: int, fails: bool)

  /** What opening one image learns about it. `parentModified` is `None` when the image
      records no modification time for its parent. */
  datatype Info = Info(
    disk: Disk,
    format: Format,
    identifier: Guid,
    dataWrite: Guid,
    parentIdentifier: Guid,
    parentModified: Option<int>,
    opening: seq<Warning>)
  {
    /** The identifier a child records for this disk. */
    function LinkIdentity(): Guid {
      if format == Vhdx then dataWrite else identifier
    }
  }

  /** What the resolver found. `image` is what opening its reader gave. Times are whole
      seconds, the resolution they are compared at, and `None` when not known. */
  datatype Source = Source(
    hasReader: bool,
    closer: Option<Handle>,
    name: string,
    modified: Option<int>,
    image: Option<Info>)

  datatype Answer = NotFound | Found(source: Source)

  datatype Options = Options(maxChainDepth: int, requireParentChain: bool, allowGuidMismatch: bool)
  {
    function Limit(): int {
      if maxChainDepth <= 0 then DEFAULT_MAX_CHAIN_DEPTH else maxChainDepth
    }
  }

  /** Everything outside the walk: whether a resolver is installed, what it answers at each
      depth, and how paths are normalised. */
  datatype Setting = Setting(opts: Options, enabled: bool, resolve: nat -> Answer, normal: string -> string)

  /** Why a walk ended. */
  datatype Stop = Suppressed | Complete | TooDeep | Unlocated | NilReader | Unopenable | Mismatch | Cycle

  // ---------------------------------------------------------------- links and their keys

  /** One disk of a chain under construction. */
  datatype Member = Member(info: Info, path: string)

  datatype Key = ByPath(path: string) | ByGuid(id: Guid) | Unknown

  /** chainKey. */
  function KeyOf(m: Member, normal: string -> string): Key {
    if m.path != "" then ByPath(normal(m.path))
    else if m.info.identifier != NO_GUID then ByGuid(m.info.identifier)
    else Unknown
  }

  function KeysOf(ms: seq<Member>, normal: string -> string): (ks: set<Key>)
    ensures forall k :: k in ks <==> k != Unknown && exists i :: 0 <= i < |ms| && KeyOf(ms[i], normal) == k
  {
    set i | 0 <= i < |ms| && KeyOf(ms[i], normal) != Unknown :: KeyOf(ms[i], normal)
  }

  /** What visiting a disk adds to the keys seen: nothing, if it cannot be told apart. */
  function WithKey(m: Member, s: Setting): set<Key> {
    if KeyOf(m, s.normal) == Unknown then {} else {KeyOf(m, s.normal)}
  }

  /** Whether the parent is the one the child records, or nothing could be compared. */
  predicate Identified(child: Info, parent: Info, opts: Options) {
    opts.allowGuidMismatch || child.parentIdentifier == NO_GUID || parent.LinkIdentity() == child.parentIdentifier
  }

  /** The warnings attaching a parent of the right size leaves on the child. */
  function Caveats(child: Info, source: Source, opts: Options): seq<Warning> {
    (if child.format == Vhd && child.parentModified.Some? && source.modified.Some?
        && child.parentModified != source.modified then [TimestampMismatch] else [])
    + (if opts.allowGuidMismatch then [IdentityUnchecked]
       else if child.parentIdentifier == NO_GUID then [IdentityUnverifiable]
       else [])
  }

  /** The warnings link i gains from the answer it got, whether or not that was attached. */
  function CaveatsAt(child: Info, i: nat, s: Setting): seq<Warning> {
    if !s.enabled || !child.disk.IsDifferencing() || i + 2 > s.opts.Limit() then []
    else
      match s.resolve(i)
      case NotFound => []
      case Found(source) =>
        if source.hasReader && source.image.Some? && source.image.value.disk.virtualSize == child.disk.virtualSize
        then Caveats(child, source, s.opts) else []
  }

  // ---------------------------------------------------------------- one step, and the whole walk

  /** Whether the walk ends with these links, and why; `None` when it attaches another. */
  function StopAt(ms: seq<Member>, s: Setting): Option<Stop>
    requires ms != []
  {
    var child := ms[|ms| - 1].info;
    if !s.enabled then Some(Suppressed)
    else if !child.disk.IsDifferencing() then Some(Complete)
    else if |ms| + 1 > s.opts.Limit() then Some(TooDeep)
    else
      match s.resolve(|ms| - 1)
      case NotFound => Some(Unlocated)
      case Found(source) =>
        if !source.hasReader then Some(NilReader)
        else
          match source.image
          case None => Some(Unopenable)
          case Some(info) =>
            if info.disk.virtualSize != child.disk.virtualSize || !Identified(child, info, s.opts) then Some(Mismatch)
            else if KeyOf(Member(info, source.name), s.normal) in KeysOf(ms, s.normal) then Some(Cycle)
            else None
  }

  /** Link i + 1 is what the resolver found for link i, and nothing objected to it. */
  ghost predicate Attached(ms: seq<Member>, i: nat, s: Setting)
    requires i + 1 < |ms|
  {
    && StopAt(ms[..i + 1], s) == None
    && ms[i + 1] == Member(s.resolve(i).source.image.value, s.resolve(i).source.name)
  }

  ghost predicate AllAttached(ms: seq<Member>, s: Setting) {
    forall i :: 0 <= i < |ms| - 1 ==> Attached(ms, i, s)
  }

  /** `ms` is the chain a walk from `leaf` builds, and `stop` is why it ends there. */
  ghost predicate Outcome(s: Setting, leaf: Member, ms: seq<Member>, stop: Stop) {
    && ms != [] && ms[0] == leaf
    && AllAttached(ms, s)
    && StopAt(ms, s) == Some(stop)
  }

  lemma AttachOne(ms: seq<Member>, s: Setting)
    requires ms != [] && AllAttached(ms, s) && StopAt(ms, s) == None
    ensures var answer := s.resolve(|ms| - 1);
      && answer.Found? && answer.source.image.Some?
      && var m := Member(answer.source.image.value, answer.source.name);
      && AllAttached(ms + [m], s)
      && KeysOf(ms + [m], s.normal) == KeysOf(ms, s.normal) + WithKey(m, s)
  {
    var source := s.resolve(|ms| - 1).source;
    var m := Member(source.image.value, source.name);
    var longer := ms + [m];
    forall i | 0 <= i < |longer| - 1 ensures Attached(longer, i, s) {
      assert longer[..i + 1] == ms[..i + 1];
      if i == |ms| - 1 {
        assert ms[..i + 1] == ms;
      } else {
        assert Attached(ms, i, s);
      }
    }
    assert forall i :: 0 <= i < |ms| ==> longer[i] == ms[i];
    assert longer[|ms|] == m;
    KeysGrow(ms, m, s.normal);
  }

  lemma KeysGrow(ms: seq<Member>, m: Member, normal: string -> string)
    ensures KeysOf(ms + [m], normal) ==
            KeysOf(ms, normal) + (if KeyOf(m, normal) == Unknown then {} else {KeyOf(m, normal)})
  {
    var longer := ms + [m];
    forall k
      ensures k in KeysOf(longer, normal) <==> k in KeysOf(ms, normal) || (k == KeyOf(m, normal) && k != Unknown)
    {
      if k in KeysOf(ms, normal) {
        var i :| 0 <= i < |ms| && KeyOf(ms[i], normal) == k;
        assert longer[i] == ms[i];
      }
      assert longer[|ms|] == m;
    }
  }

  /** The answers of the resolver determine the chain and the reason for stopping. */
  lemma OutcomeUnique(s: Setting, leaf: Member, a: seq<Member>, x: Stop, b: seq<Member>, y: Stop)
    requires Outcome(s, leaf, a, x) && Outcome(s, leaf, b, y)
    ensures a == b && x == y
  {
    if |a| <= |b| {
      OutcomePrefix(s, leaf, a, x, b, y);
    } else {
      OutcomePrefix(s, leaf, b, y, a, x);
    }
  }

  lemma AttachedGoesOn(ms: seq<Member>, n: nat, s: Setting)
    requires 0 < n < |ms| && Attached(ms, n - 1, s)
    ensures StopAt(ms[..n], s) == None
  {
  }

  lemma OutcomePrefix(s: Setting, leaf: Member, a: seq<Member>, x: Stop, b: seq<Member>, y: Stop)
    requires Outcome(s, leaf, a, x) && Outcome(s, leaf, b, y) && |a| <= |b|
    ensures a == b && x == y
  {
    hide StopAt;
    for i := 1 to |a|
      invariant forall j :: 0 <= j < i ==> a[j] == b[j]
    {
      assert Attached(a, i - 1, s) && Attached(b, i - 1, s);
    }
    assert a == b[..|a|];
    if |a| < |b| {
      AttachedGoesOn(b, |a|, s);
    }
  }

  // ---------------------------------------------------------------- what every chain built satisfies

  // What is promised of a chain is said of its fields and in numbers, so that it does not
  // rest on the functions the walk decides with.

  predicate ZeroGuid(g: Guid) {
    |g| == 16 && forall i :: 0 <= i < 16 ==> g[i] == 0
  }

  /** The parent is the image the child names: a VHDX by the identifier it renews with every
      change of its data, a VHD by the one it keeps. */
  predicate Names(child: Info, parent: Info) {
    match parent.format
    case Vhdx => parent.dataWrite == child.parentIdentifier
    case Vhd => parent.identifier == child.parentIdentifier
  }

  lemma ZeroGuidIs(g: Guid)
    ensures g == NO_GUID <==> ZeroGuid(g)
  {
  }

  /** A parent is taken for the right one exactly when it is the one the child names, the
      child names none, or nobody is to compare. */
  lemma IdentityMeaning(child: Info, parent: Info, opts: Options)
    ensures Identified(child, parent, opts) <==>
      opts.allowGuidMismatch || ZeroGuid(child.parentIdentifier) || Names(child, parent)
  {
    ZeroGuidIs(child.parentIdentifier);
  }

  /** Two disks that can be told to be one: by their normalised paths, or, when neither has
      a path, by an identifier that is not zero. */
  predicate Revisited(a: Member, b: Member, normal: string -> string) {
    || (a.path != "" && b.path != "" && normal(a.path) == normal(b.path))
    || (a.path == "" && b.path == "" && a.info.identifier == b.info.identifier && !ZeroGuid(a.info.identifier))
  }

  lemma KeyMeaning(a: Member, b: Member, normal: string -> string)
    ensures Revisited(a, b, normal) <==> KeyOf(a, normal) == KeyOf(b, normal) && KeyOf(b, normal) != Unknown
  {
    ZeroGuidIs(a.info.identifier);
    ZeroGuidIs(b.info.identifier);
  }

  /** No disk of the chain is another of its disks. */
  ghost predicate NoneRevisited(ms: seq<Member>, normal: string -> string) {
    forall i, j :: 0 <= i < j < |ms| ==> !Revisited(ms[i], ms[j], normal)
  }

  ghost predicate SizesAgree(ms: seq<Member>) {
    forall i :: 0 <= i < |ms| ==> ms[i].info.disk.virtualSize == ms[0].info.disk.virtualSize
  }

  /** Every parent was compared with what its child records, or its child says it was not. */
  ghost predicate IdentitiesHeld(ms: seq<Member>, s: Setting) {
    forall i :: 0 <= i < |ms| - 1 ==> IdentityHeld(ms, i, s)
  }

  ghost predicate IdentityHeld(ms: seq<Member>, i: nat, s: Setting)
    requires i + 1 < |ms|
  {
    var child, caveats := ms[i].info, CaveatsAt(ms[i].info, i, s);
    || Names(child, ms[i + 1].info)
    || (s.opts.allowGuidMismatch && IdentityUnchecked in caveats)
    || (ZeroGuid(child.parentIdentifier) && IdentityUnverifiable in caveats)
  }

  /** Whatever the resolver answers, the chain is no longer than the limit, never visits a
      disk twice that it can tell apart, agrees on the virtual size, and holds only parents
      whose identity was checked or is warned about. */
  lemma ChainSafe(s: Setting, leaf: Member, ms: seq<Member>, stop: Stop)
    requires Outcome(s, leaf, ms, stop)
    ensures var limit := if s.opts.maxChainDepth <= 0 then 32 else s.opts.maxChainDepth;
      |ms| <= limit && (stop == TooDeep ==> |ms| == limit)
    ensures NoneRevisited(ms, s.normal) && SizesAgree(ms) && IdentitiesHeld(ms, s)
    ensures forall i :: 0 <= i < |ms| - 1 ==> ms[i].info.disk.IsDifferencing()
  {
    assert stop == TooDeep ==> |ms| + 1 > s.opts.Limit();
    hide Attached, StopAt, IdentityHeld, KeyOf, Revisited;
    forall i | 0 <= i < |ms| - 1 ensures ms[i].info.disk.IsDifferencing() && IdentityHeld(ms, i, s) {
      AttachedFacts(ms, i, s);
    }
    forall i, j | 0 <= i < j < |ms| ensures !Revisited(ms[i], ms[j], s.normal) {
      AttachedFacts(ms, j - 1, s);
    }
    if |ms| > 1 {
      AttachedFacts(ms, |ms| - 2, s);
    }
    SizesFollow(s, leaf, ms, stop);
  }

  /** A walk that ended for a cycle was offered a disk the chain already holds. */
  lemma CycleIsRevisit(s: Setting, leaf: Member, ms: seq<Member>) returns (i: nat)
    requires Outcome(s, leaf, ms, Cycle)
    ensures var answer := s.resolve(|ms| - 1);
      && answer.Found? && answer.source.image.Some? && i < |ms|
      && Revisited(ms[i], Member(answer.source.image.value, answer.source.name), s.normal)
  {
    var source := s.resolve(|ms| - 1).source;
    var next := Member(source.image.value, source.name);
    i :| 0 <= i < |ms| && KeyOf(ms[i], s.normal) == KeyOf(next, s.normal);
    KeyMeaning(ms[i], next, s.normal);
  }

  /** What nobody objecting to a link means. */
  lemma AttachedFacts(ms: seq<Member>, i: nat, s: Setting)
    requires i + 1 < |ms| && Attached(ms, i, s)
    ensures i + 2 <= s.opts.Limit()
    ensures ms[i].info.disk.IsDifferencing() && IdentityHeld(ms, i, s)
    ensures ms[i + 1].info.disk.virtualSize == ms[i].info.disk.virtualSize
    ensures forall j :: 0 <= j <= i ==> !Revisited(ms[j], ms[i + 1], s.normal)
  {
    var before := ms[..i + 1];
    assert before[|before| - 1] == ms[i];
    IdentityMeaning(ms[i].info, ms[i + 1].info, s.opts);
    ZeroGuidIs(ms[i].info.parentIdentifier);
    forall j | 0 <= j <= i ensures !Revisited(ms[j], ms[i + 1], s.normal) {
      assert before[j] == ms[j];
      KeyMeaning(ms[j], ms[i + 1], s.normal);
    }
  }

  /** The error a walk that ended for this reason returns. Only a chain too deep fails a
      caller who did not ask for the whole chain. */
  function ErrorFor(stop: Stop, opts: Options): Option<Stop> {
    if stop == TooDeep || (opts.requireParentChain && !(stop in {Suppressed, Complete})) then Some(stop) else None
  }

  /** The reason a walk records on the leaf instead. */
  function NoteFor(stop: Stop, opts: Options): Option<Stop> {
    if stop in {Suppressed, Complete} || ErrorFor(stop, opts).Some? then None else Some(stop)
  }

  /** A chain of two is too deep for a limit of one, and fails although the caller asked
      for no more than the best effort. */
  lemma BestEffortCanFail(leaf: Member, resolve: nat -> Answer, normal: string -> string)
    requires leaf.info.disk.IsDifferencing()
    ensures var s := Setting(Options(1, false, false), true, resolve, normal);
      Outcome(s, leaf, [leaf], TooDeep) && ErrorFor(TooDeep, s.opts) == Some(TooDeep)
  {
  }

  lemma SizesFollow(s: Setting, leaf: Member, ms: seq<Member>, stop: Stop)
    requires Outcome(s, leaf, ms, stop)
    ensures SizesAgree(ms)
  {
    hide Attached, StopAt, IdentityHeld, KeyOf;
    for i := 1 to |ms|
      invariant forall j :: 0 <= j < i ==> ms[j].info.disk.virtualSize == leaf.info.disk.virtualSize
    {
      AttachedFacts(ms, i - 1, s);
    }
  }

  // ---------------------------------------------------------------- handles

  function HandleSeq(closer: Option<Handle>): seq<Handle> {
    if closer.Some? then [closer.value] else []
  }

  /** The handle an answer supplies together with a reader. */
  function HandleOf(a: Answer): seq<Handle> {
    if a.Found? && a.source.hasReader then HandleSeq(a.source.closer) else []
  }

  /** The handles of the first n answers. */
  function Supplied(s: Setting, n: nat): seq<Handle> {
    if n == 0 then [] else Supplied(s, n - 1) + HandleOf(s.resolve(n - 1))
  }

  /** How many answers a walk took. */
  function Asked(links: nat, stop: Stop): nat
    requires links > 0
  {
    if stop in {Suppressed, Complete, TooDeep} then links - 1 else links
  }

  /** The handle of the answer a walk ended on, if it refused one. */
  function TurnedAway(s: Setting, links: nat, stop: Stop): seq<Handle>
    requires links > 0
  {
    if stop in {Suppressed, Complete, TooDeep} then [] else HandleOf(s.resolve(links - 1))
  }

  lemma SuppliedSplits(s: Setting, links: nat, stop: Stop)
    requires links > 0
    ensures Supplied(s, Asked(links, stop)) == Supplied(s, links - 1) + TurnedAway(s, links, stop)
  {
  }

  // ---------------------------------------------------------------- the device a chain is

  /** The chain as the disk it reads as. */
  function View(ms: seq<Member>): Disk
    requires ms != []
    decreases |ms|
  {
    ms[0].info.disk.(path := ms[0].path, parent := if |ms| == 1 then None else Some(View(ms[1..])))
  }

  lemma {:induction false} ViewShape(ms: seq<Member>)
    requires ms != [] && SizesAgree(ms)
    requires forall i :: 0 <= i < |ms| ==> ValidImage(ms[i].info.disk)
    requires forall i :: 0 <= i < |ms| - 1 ==> ms[i].info.disk.IsDifferencing()
    ensures ValidChain(View(ms)) && Depth(View(ms)) == |ms|
    ensures forall k :: 0 <= k < |ms| ==> Link(View(ms), k).path == ms[k].path
    ensures forall k :: 0 <= k < |ms| ==> Link(View(ms), k).source == ms[k].info.disk.source
    ensures forall k :: 0 <= k < |ms| ==> Link(View(ms), k).diskType == ms[k].info.disk.diskType
    decreases |ms|
  {
    var d := ms[0].info.disk;
    var v := View(ms);
    assert ValidImage(v) by {
      assert v.table == d.table && v.virtualSize == d.virtualSize && v.blockSize == d.blockSize;
    }
    if |ms| > 1 {
      var rest := ms[1..];
      assert rest[0] == ms[1] && forall i :: 0 <= i < |rest| ==> rest[i] == ms[i + 1];
      ViewShape(rest);
      forall k | 0 <= k < |ms| && k > 0 ensures Link(v, k) == Link(View(rest), k - 1) {
      }
    }
  }

  /** A chain the walk builds from valid images is a valid chain, and a byte of it is
      missing only when the walk ended at a disk that still needs a parent. */
  lemma BuiltChainReads(s: Setting, leaf: Member, ms: seq<Member>, stop: Stop)
    requires Outcome(s, leaf, ms, stop)
    requires forall i :: 0 <= i < |ms| ==> ValidImage(ms[i].info.disk)
    ensures ValidChain(View(ms)) && Depth(View(ms)) == |ms|
    ensures forall v: nat :: Locate(View(ms), v).Missing? ==> stop != Complete && Locate(View(ms), v).link == |ms|
  {
    hide StopAt, AllAttached, ValidImage, View, Link, Locate;
    ChainSafe(s, leaf, ms, stop);
    if stop == Complete {
      CompleteIsRooted(s, leaf, ms, stop);
    }
    ViewEnds(ms);
    hide *;
    forall v: nat | Locate(View(ms), v).Missing? ensures stop != Complete && Locate(View(ms), v).link == |ms| {
      MissingAtEnd(View(ms), v);
    }
  }

  lemma CompleteIsRooted(s: Setting, leaf: Member, ms: seq<Member>, stop: Stop)
    requires Outcome(s, leaf, ms, stop) && stop == Complete
    ensures !ms[|ms| - 1].info.disk.IsDifferencing()
  {
  }

  lemma ViewEnds(ms: seq<Member>)
    requires ms != [] && SizesAgree(ms)
    requires forall i :: 0 <= i < |ms| ==> ValidImage(ms[i].info.disk)
    requires forall i :: 0 <= i < |ms| - 1 ==> ms[i].info.disk.IsDifferencing()
    ensures ValidChain(View(ms)) && Depth(View(ms)) == |ms|
    ensures Link(View(ms), |ms| - 1).IsDifferencing() <==> ms[|ms| - 1].info.disk.IsDifferencing()
  {
    hide ValidImage, View, Link, ValidChain;
    ViewShape(ms);
  }

  /** Only the far end of a chain is ever missing, and only if it is differencing. */
  lemma {:induction false} MissingAtEnd(d: Disk, v: nat)
    requires ValidChain(d) && Locate(d, v).Missing?
    ensures Locate(d, v).link == Depth(d) && Link(d, Depth(d) - 1).IsDifferencing()
    decreases d
  {
    if d.parent.Some? {
      MissingAtEnd(d.parent.value, v);
    }
  }
}
