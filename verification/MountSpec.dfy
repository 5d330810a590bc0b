/** The path namespace as a state machine: a working directory and a table of mount
    points (syscall/mount.c, and the working directory of syscall/unistd.c).

    Device operations are outside the model; each step takes their outcomes as arguments. */
module MountSpec {
  import opened Bytes
  import opened Paths

  const MAX_MOUNTS := 64

  type Device = nat

  datatype MountPoint = MountPoint(path: string, pathSize: nat, fs: Device, flags: nat)

  datatype Namespace = Namespace(cwd: string, mounts: seq<MountPoint>)

  const INITIAL := Namespace("/", [])

  /** The file system that a thread has been bound to, if any. */
  datatype ThreadDevice = Unset | Missing | Bound(device: Device)

  datatype Stat = StatFailed | NotDirectory | IsDirectory

  /** What the devices answer while a mount is attempted. */
  datatype MountAnswers = MountAnswers(device: Option<Device>, stat: Stat, clone: Option<Device>, mounted: bool)

  datatype Op =
    | OpChdir(path: Option<string>, stat: Stat)
    | OpMount(target: Option<string>, hasType: bool, answers: MountAnswers)
    | OpUmount(target: Option<string>, thread: ThreadDevice, unmounted: bool)

  // ----- lookup

  /** The comparison that the lookup makes: a whole-component string prefix. */
  predicate Matches(mpath: string, q: string) {
    mpath == "/" ||
    (|mpath| <= |q| && q[..|mpath|] == mpath && (|q| == |mpath| || q[|mpath|] == '/'))
  }

  /** The index that the lookup loop settles on, or -1. */
  function Best(mounts: seq<MountPoint>, q: string): (b: int)
    ensures -1 <= b < |mounts|
  {
    if mounts == [] then -1
    else
      var n := |mounts| - 1;
      var b := Best(mounts[..n], q);
      if Matches(mounts[n].path, q) && |mounts[n].path| > MatchLength(mounts, b) then n else b
  }

  function MatchLength(mounts: seq<MountPoint>, b: int): nat
    requires b < |mounts|
  {
    if b < 0 then 0 else |mounts[b].path|
  }

  /** The part of `q` below mount point `mpath`. */
  function Suffix(mpath: string, q: string): string
    requires Matches(mpath, q)
  {
    if mpath == "/" then q else if |q| == |mpath| then "/" else q[|mpath|..]
  }

  /** The device and remaining path that an absolute path stands for. */
  function ResolveIn(mounts: seq<MountPoint>, q: string): (r: Result<(Device, string), Errno>) {
    var b := Best(mounts, q);
    if b < 0 then Failure(ENOENT)
    else
      BestMatches(mounts, q);
      Success((mounts[b].fs, Suffix(mounts[b].path, q)))
  }

  lemma {:induction false} BestMatches(mounts: seq<MountPoint>, q: string)
    ensures Best(mounts, q) >= 0 ==> Matches(mounts[Best(mounts, q)].path, q)
  {
    if mounts != [] {
      BestMatches(mounts[..|mounts| - 1], q);
    }
  }

  function Resolve(s: Namespace, path: Option<string>, thread: ThreadDevice): Result<(Device, string), Errno> {
    if path.None? then Failure(EINVAL)
    else match thread
      case Missing => Failure(EINVAL)
      case Bound(d) => if |path.value| >= PATH_MAX then Failure(ENAMETOOLONG) else Success((d, path.value))
      case Unset =>
        var q := Resolved(s.cwd, path);
        if q.Failure? then Failure(q.error) else ResolveIn(s.mounts, q.value)
  }

  // ----- the steps

  function Chdir(s: Namespace, path: Option<string>, stat: Stat): (Namespace, Result<(), Errno>) {
    var p := Resolved(s.cwd, path);
    if p.Failure? then (s, Failure(p.error))
    else if stat.StatFailed? then (s, Failure(EDEVICE))
    else if stat.NotDirectory? then (s, Failure(ENOTDIR))
    else (s.(cwd := p.value), Success(()))
  }

  /** The index of the mount point at `path`, or -1. */
  function IndexOf(mounts: seq<MountPoint>, path: string): (i: int)
    ensures -1 <= i < |mounts|
    ensures i >= 0 ==> mounts[i].path == path
    ensures i < 0 ==> forall k :: 0 <= k < |mounts| ==> mounts[k].path != path
  {
    if mounts == [] then -1
    else if mounts[0].path == path then 0
    else var i := IndexOf(mounts[1..], path); if i < 0 then -1 else i + 1
  }

  function Mount(s: Namespace, target: Option<string>, hasType: bool, a: MountAnswers)
    : (Namespace, Result<(), Errno>)
  {
    var p := Resolved(s.cwd, target);
    if target.None? || !hasType || p.Failure? then (s, Failure(EINVAL))
    else if a.device.None? then (s, Failure(ENODEV))
    else if p.value != "/" && a.stat.StatFailed? then (s, Failure(EDEVICE))
    else if p.value != "/" && a.stat.NotDirectory? then (s, Failure(ENOTDIR))
    else if |s.mounts| == MAX_MOUNTS then (s, Failure(ENOMEM))
    else if IndexOf(s.mounts, p.value) >= 0 then (s, Failure(EEXIST))
    else if a.clone.None? || !a.mounted then (s, Failure(EDEVICE))
    else (s.(mounts := s.mounts + [MountPoint(p.value, |p.value| + 1, a.clone.value, 0)]), Success(()))
  }

  /** Removal by moving the last entry into the hole. */
  function SwapRemove<T>(xs: seq<T>, i: nat): (ys: seq<T>)
    requires i < |xs|
    ensures |ys| == |xs| - 1
  {
    xs[i := xs[|xs| - 1]][..|xs| - 1]
  }

  /** The entry goes even when its device then refuses to unmount. */
  function Umount(s: Namespace, target: Option<string>, thread: ThreadDevice, unmounted: bool)
    : (Namespace, Result<(), Errno>)
  {
    var p := Resolved(s.cwd, target);
    if target.None? || p.Failure? || Resolve(s, Some(p.value), thread).Failure? || IndexOf(s.mounts, p.value) < 0
    then (s, Failure(EINVAL))
    else (s.(mounts := SwapRemove(s.mounts, IndexOf(s.mounts, p.value))),
          if unmounted then Success(()) else Failure(EDEVICE))
  }

  function Step(s: Namespace, op: Op): Namespace {
    match op
    case OpChdir(path, stat) => Chdir(s, path, stat).0
    case OpMount(target, hasType, a) => Mount(s, target, hasType, a).0
    case OpUmount(target, thread, unmounted) => Umount(s, target, thread, unmounted).0
  }

  function Run(ops: seq<Op>): Namespace {
    if ops == [] then INITIAL else Step(Run(ops[..|ops| - 1]), ops[|ops| - 1])
  }

  // ----- what every run keeps

  predicate WellFormedMount(m: MountPoint) {
    Canonical(m.path) && |m.path| < PATH_MAX && m.pathSize == |m.path| + 1
  }

  predicate Distinct(mounts: seq<MountPoint>) {
    forall i, j :: 0 <= i < j < |mounts| ==> mounts[i].path != mounts[j].path
  }

  predicate WellFormedTable(mounts: seq<MountPoint>) {
    && (forall i :: 0 <= i < |mounts| ==> WellFormedMount(mounts[i]))
    && Distinct(mounts)
  }

  predicate WellFormed(s: Namespace) {
    Canonical(s.cwd) && |s.cwd| < PATH_MAX && |s.mounts| <= MAX_MOUNTS && WellFormedTable(s.mounts)
  }

  lemma InitialWellFormed()
    ensures WellFormed(INITIAL)
  {
    RenderCanonical([]);
  }

  lemma SwapRemoveWellFormed(mounts: seq<MountPoint>, i: nat)
    requires WellFormedTable(mounts) && i < |mounts|
    ensures WellFormedTable(SwapRemove(mounts, i))
    ensures forall m :: m in SwapRemove(mounts, i) <==> m in mounts && m != mounts[i]
  {
    hide WellFormedMount;
    var ys := SwapRemove(mounts, i);
    forall m | m in mounts && m != mounts[i] ensures m in ys {
      var k :| 0 <= k < |mounts| && mounts[k] == m;
      assert if k == |mounts| - 1 then ys[i] == m else ys[k] == m;
    }
    forall k | 0 <= k < |ys| ensures ys[k] in mounts && ys[k] != mounts[i] {
      assert ys[k] == if k == i then mounts[|mounts| - 1] else mounts[k];
      assert ys[k].path != mounts[i].path;
    }
  }

  lemma ResolvedBounded(s: Namespace, path: Option<string>)
    requires WellFormed(s)
    ensures var r := Resolved(s.cwd, path); r.Success? ==> Canonical(r.value) && |r.value| < PATH_MAX
  {
    if Resolved(s.cwd, path).Success? {
      ResolvedCanonical(s.cwd, path);
      ResolvedLength(s.cwd, path.value);
    }
  }

  lemma StepWellFormed(s: Namespace, op: Op)
    requires WellFormed(s)
    ensures WellFormed(Step(s, op))
  {
    hide Resolved, Canonical, Resolve;
    match op
    case OpChdir(path, stat) =>
      ResolvedBounded(s, path);
    case OpMount(target, hasType, a) =>
      ResolvedBounded(s, target);
    case OpUmount(target, thread, unmounted) =>
      ResolvedBounded(s, target);
      if Umount(s, target, thread, unmounted).0 != s {
        SwapRemoveWellFormed(s.mounts, IndexOf(s.mounts, Resolved(s.cwd, target).value));
      }
  }

  /** After any run, mount paths are canonical, distinct and at most 64, and the working
      directory is canonical. */
  lemma {:induction false} RunWellFormed(ops: seq<Op>)
    ensures WellFormed(Run(ops))
  {
    if ops == [] {
      InitialWellFormed();
    } else {
      RunWellFormed(ops[..|ops| - 1]);
      StepWellFormed(Run(ops[..|ops| - 1]), ops[|ops| - 1]);
    }
  }

  // ----- what lookup means

  /** Mount `k` covers the path with components `cs`, and no other mount covers it more closely. */
  predicate LongestPrefix(mounts: seq<MountPoint>, cs: seq<string>, k: int) {
    && 0 <= k < |mounts| && Components(mounts[k].path) <= cs
    && forall j :: 0 <= j < |mounts| && Components(mounts[j].path) <= cs ==>
         |Components(mounts[j].path)| <= |Components(mounts[k].path)|
  }

  lemma RootComponents()
    ensures Components("/") == []
  {
    ComponentsOfRender([]);
  }

  /** The string comparison decides the component-wise prefix order. */
  lemma MatchesIffPrefix(m: string, q: string)
    requires Canonical(m) && Canonical(q)
    ensures Matches(m, q) <==> Components(m) <= Components(q)
  {
    hide Components;
    var cs, ds := Components(m), Components(q);
    RootComponents();
    if Matches(m, q) && m != "/" {
      assert q == m + q[|m|..];
      ComponentsAppend(m, q[|m|..]);
    }
    if cs <= ds && cs != [] {
      var rest := ds[|cs|..];
      assert ds == cs + rest;
      SlashedAppend(cs, rest);
      if rest != [] {
        SlashedStartsWithSlash(rest);
      }
      assert q[..|m|] == m;
    }
  }

  /** What is left below a mount point is canonical, and completes its components. */
  lemma SuffixCompletes(m: string, q: string)
    requires Canonical(m) && Canonical(q) && Matches(m, q)
    ensures Canonical(Suffix(m, q))
    ensures Components(q) == Components(m) + Components(Suffix(m, q))
  {
    hide Components;
    RootComponents();
    if m == "/" {
    } else if |q| == |m| {
      assert q == m;
      RenderCanonical([]);
    } else {
      MatchesIffPrefix(m, q);
      var cs, rest := Components(m), Components(q)[|Components(m)|..];
      assert Components(q) == cs + rest;
      SlashedAppend(cs, rest);
      assert cs != [] && rest != [] by {
        assert rest == [] ==> Components(q) == cs;
      }
      assert Suffix(m, q) == Render(rest);
      ComponentsOfRender(rest);
    }
  }

  /** Among prefixes of one path, the longer string is the one with more components. */
  lemma LengthsAgree(a: string, b: string, ds: seq<string>)
    requires Canonical(a) && Canonical(b) && Components(a) <= ds && Components(b) <= ds
    ensures |a| > |b| <==> |Components(a)| > |Components(b)|
  {
    if |Components(a)| > |Components(b)| {
      LengthsOrdered(a, b, ds);
    } else if |Components(b)| > |Components(a)| {
      LengthsOrdered(b, a, ds);
    } else {
      assert Components(a) == Components(b);
    }
  }

  lemma LengthsOrdered(a: string, b: string, ds: seq<string>)
    requires Canonical(a) && Canonical(b) && Components(a) <= ds && Components(b) <= ds
    requires |Components(a)| > |Components(b)|
    ensures |a| > |b|
  {
    hide Components, Slashed, ValidComponents;
    var cs, n := Components(a), |Components(b)|;
    assert Components(b) == cs[..n];
    if n == 0 {
      SlashedAtLeastTwo(cs);
    } else {
      SlashedPrefix(cs, n);
    }
  }

  lemma SlashedAtLeastTwo(cs: seq<string>)
    requires cs != [] && Solid(cs)
    ensures |Slashed(cs)| >= 2
  {
    assert cs[|cs| - 1] != "";
  }

  lemma {:induction false} BestIsLongest(mounts: seq<MountPoint>, q: string)
    requires Canonical(q) && forall i :: 0 <= i < |mounts| ==> WellFormedMount(mounts[i])
    ensures Best(mounts, q) < 0 ==> forall j :: 0 <= j < |mounts| ==> !(Components(mounts[j].path) <= Components(q))
    ensures Best(mounts, q) >= 0 ==> LongestPrefix(mounts, Components(q), Best(mounts, q))
  {
    hide Components, Canonical, Matches;
    if mounts != [] {
      var n := |mounts| - 1;
      var b := Best(mounts[..n], q);
      BestIsLongest(mounts[..n], q);
      MatchesIffPrefix(mounts[n].path, q);
      assert |mounts[n].path| > 0 by { CanonicalAbsolute(mounts[n].path); }
      if b >= 0 && Matches(mounts[n].path, q) {
        LengthsAgree(mounts[n].path, mounts[b].path, Components(q));
      }
      forall j | 0 <= j < n ensures mounts[j] == mounts[..n][j] {}
    }
  }

  lemma LongestPrefixUnique(mounts: seq<MountPoint>, cs: seq<string>, k: int, k': int)
    requires WellFormedTable(mounts) && LongestPrefix(mounts, cs, k) && LongestPrefix(mounts, cs, k')
    ensures k == k'
  {
    assert Components(mounts[k].path) == Components(mounts[k'].path);
    assert mounts[k].path == mounts[k'].path;
  }

  /** Lookup finds the one longest mounted component-prefix, and fails only without any. */
  lemma ResolveInMeaning(mounts: seq<MountPoint>, q: string)
    requires WellFormedTable(mounts) && Canonical(q)
    ensures ResolveIn(mounts, q).Failure? <==> forall j :: 0 <= j < |mounts| ==> !(Components(mounts[j].path) <= Components(q))
    ensures ResolveIn(mounts, q).Failure? ==> ResolveIn(mounts, q).error == ENOENT
    ensures forall k :: LongestPrefix(mounts, Components(q), k) ==>
              && ResolveIn(mounts, q).Success?
              && ResolveIn(mounts, q).value.0 == mounts[k].fs
              && Canonical(ResolveIn(mounts, q).value.1)
              && Components(q) == Components(mounts[k].path) + Components(ResolveIn(mounts, q).value.1)
  {
    hide Components, Canonical;
    BestIsLongest(mounts, q);
    var b := Best(mounts, q);
    if b >= 0 {
      BestMatches(mounts, q);
      assert WellFormedMount(mounts[b]);
      SuffixCompletes(mounts[b].path, q);
      forall k | LongestPrefix(mounts, Components(q), k) ensures k == b {
        LongestPrefixUnique(mounts, Components(q), k, b);
      }
    }
  }

  /** Dropping mounts other than the closest one does not change the answer. */
  lemma SameClosestMount(a: seq<MountPoint>, b: seq<MountPoint>, q: string)
    requires WellFormedTable(a) && WellFormedTable(b) && Canonical(q)
    requires forall m :: m in b ==> m in a
    requires Best(a, q) >= 0 ==> a[Best(a, q)] in b
    ensures ResolveIn(a, q) == ResolveIn(b, q)
  {
    hide Components, Canonical, Suffix, Best;
    var i, j, cs := Best(a, q), Best(b, q), Components(q);
    BestIsLongest(a, q);
    BestIsLongest(b, q);
    if i < 0 {
      forall k | 0 <= k < |b| ensures !(Components(b[k].path) <= cs) {
        assert b[k] in a;
      }
    } else {
      var i' :| 0 <= i' < |b| && b[i'] == a[i];
      assert b[j] in a;
      var j' :| 0 <= j' < |a| && a[j'] == b[j];
      LongestPrefixUnique(a, cs, i, j');
    }
  }

  /** The answer does not depend on the order of the table. */
  lemma ResolveOrderIndependent(a: seq<MountPoint>, b: seq<MountPoint>, q: string)
    requires WellFormedTable(a) && WellFormedTable(b) && Canonical(q)
    requires forall m :: m in a <==> m in b
    ensures ResolveIn(a, q) == ResolveIn(b, q)
  {
    SameClosestMount(a, b, q);
  }

  /** Unmounting changes the answer only for paths whose closest mount was the one removed. */
  lemma UnmountAffectsOnlyCovered(mounts: seq<MountPoint>, i: nat, q: string)
    requires WellFormedTable(mounts) && i < |mounts| && Canonical(q)
    requires !LongestPrefix(mounts, Components(q), i)
    ensures ResolveIn(SwapRemove(mounts, i), q) == ResolveIn(mounts, q)
  {
    SwapRemoveWellFormed(mounts, i);
    BestIsLongest(mounts, q);
    var b := Best(mounts, q);
    assert b >= 0 ==> mounts[b].path != mounts[i].path;
    SameClosestMount(mounts, SwapRemove(mounts, i), q);
  }

  /** Mounting changes the answer only for paths below the new mount point. */
  lemma MountAffectsOnlyCovered(mounts: seq<MountPoint>, m: MountPoint, q: string)
    requires WellFormedTable(mounts + [m]) && Canonical(q) && !(Components(m.path) <= Components(q))
    ensures ResolveIn(mounts + [m], q) == ResolveIn(mounts, q)
  {
    var more := mounts + [m];
    assert forall i :: 0 <= i < |mounts| ==> mounts[i] == more[i];
    BestIsLongest(more, q);
    SameClosestMount(more, mounts, q);
  }

  /** A mounted path always resolves, so unmounting fails exactly when nothing is mounted there. */
  lemma UmountRemovesMounted(s: Namespace, target: Option<string>, unmounted: bool)
    requires WellFormed(s)
    ensures var p := Resolved(s.cwd, target);
            Umount(s, target, Unset, unmounted) ==
            if p.Success? && IndexOf(s.mounts, p.value) >= 0
            then (s.(mounts := SwapRemove(s.mounts, IndexOf(s.mounts, p.value))),
                  if unmounted then Success(()) else Failure(EDEVICE))
            else (s, Failure(EINVAL))
  {
    hide Components, Canonical;
    var p := Resolved(s.cwd, target);
    ResolvedBounded(s, target);
    if p.Success? && IndexOf(s.mounts, p.value) >= 0 {
      ResolvedIdempotent(s.cwd, p.value);
      ResolveInMeaning(s.mounts, p.value);
      assert Components(s.mounts[IndexOf(s.mounts, p.value)].path) <= Components(p.value);
    }
  }

  const DATA := MountPoint("/data", 6, 2, 0)

  lemma DataCanonical()
    ensures Canonical("/data")
  {
    assert ["data"][..0] == [];
    assert Render(["data"]) == "/data";
    RenderCanonical(["data"]);
  }

  lemma DataMounts()
    ensures Canonical("/data")
    ensures Mount(INITIAL, Some("/data"), true, MountAnswers(Some(1), IsDirectory, Some(2), true))
         == (Namespace("/", [DATA]), Success(()))
  {
    hide Canonical, Render, Components, Normalize;
    DataCanonical();
    ResolvedIdempotent("/", "/data");
    assert INITIAL.mounts + [DATA] == [DATA];
  }

  /** A file system is mounted and its device refuses to unmount it: the call fails, and the
      mount is gone. */
  lemma RefusedUmountRemoves()
    ensures var s := Mount(INITIAL, Some("/data"), true, MountAnswers(Some(1), IsDirectory, Some(2), true)).0;
            s.mounts == [DATA] && Umount(s, Some("/data"), Unset, false) == (INITIAL, Failure(EDEVICE))
  {
    hide Canonical, Resolved, Resolve;
    DataMounts();
    InitialWellFormed();
    StepWellFormed(INITIAL, OpMount(Some("/data"), true, MountAnswers(Some(1), IsDirectory, Some(2), true)));
    var s := Namespace("/", [DATA]);
    ResolvedIdempotent("/", "/data");
    UmountRemovesMounted(s, Some("/data"), false);
    assert IndexOf(s.mounts, "/data") == 0;
    assert SwapRemove(s.mounts, 0) == [];
  }

  /** Unmounting undoes a mount. */
  lemma UmountUndoesMount(s: Namespace, target: Option<string>, hasType: bool, a: MountAnswers)
    requires WellFormed(s) && Mount(s, target, hasType, a).1.Success?
    ensures Umount(Mount(s, target, hasType, a).0, target, Unset, true) == (s, Success(()))
  {
    hide Canonical, Resolve, ResolveIn;
    var s' := Mount(s, target, hasType, a).0;
    StepWellFormed(s, OpMount(target, hasType, a));
    UmountRemovesMounted(s', target, true);
    var i, p := IndexOf(s'.mounts, Resolved(s.cwd, target).value), Resolved(s.cwd, target).value;
    assert s'.mounts[|s.mounts|].path == p;
    assert forall k :: 0 <= k < |s.mounts| ==> s'.mounts[k] == s.mounts[k];
    assert i == |s.mounts|;
    assert SwapRemove(s'.mounts, i) == s.mounts;
  }
}
