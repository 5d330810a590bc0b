/** What chdir, mount and unmount mean for later lookups (syscall/mount.c and syscall/unistd.c),
    with the exact outcome of each call. */
module NamespaceLaws {
  import opened Bytes
  import opened Paths
  import opened PathLaws
  import opened MountSpec

  // ----- chdir

  /** A change of directory succeeds exactly for a name that resolves to a directory. It keeps the
      mounts, and a failed one keeps everything. */
  lemma ChdirOutcome(s: Namespace, path: Option<string>, stat: Stat)
    ensures var (s', r) := Chdir(s, path, stat);
            && (r.Success? <==> Resolved(s.cwd, path).Success? && stat == IsDirectory)
            && (r.Success? ==> s' == Namespace(Resolved(s.cwd, path).value, s.mounts))
            && (r.Failure? ==> s' == s)
            && (r == Failure(ENOTDIR) <==> Resolved(s.cwd, path).Success? && stat == NotDirectory)
            && (r == Failure(EDEVICE) <==> Resolved(s.cwd, path).Success? && stat == StatFailed)
            && (Resolved(s.cwd, path).Failure? ==> r == Failure(Resolved(s.cwd, path).error))
  {
    hide Normalize, Components, Render;
  }

  /** Resolving in two steps is resolving in one: behind a resolved path as behind the name itself. */
  lemma ResolvedBehind(cwd: string, path: string, name: string)
    requires Canonical(cwd) && !IsAbsolute(name) && Resolved(cwd, Some(path)).Success?
    requires Resolved(cwd, Some(path + "/" + name)).Success? && path != ""
    ensures Resolved(Resolved(cwd, Some(path)).value, Some(name)) == Resolved(cwd, Some(path + "/" + name))
  {
    hide Components, Slashed, Canonical;
    var full, p := Absolute(cwd, path), Resolved(cwd, Some(path)).value;
    var cs, ds := Components(full), Components("/" + name);
    assert Absolute(cwd, path + "/" + name) == full + "/" + name;
    assert full + "/" + name == full + ("/" + name) && p + "/" + name == p + ("/" + name);
    ComponentsAppend(full, "/" + name);
    ComponentsAppend(p, "/" + name);
    NormalizeValid(cs);
    ComponentsOfRender(Normalize(cs));
    NormalizeKeepsValid(Normalize(cs));
    NormalizeAlike(Normalize(cs), cs, ds);
    ResolvedLength(cwd, path);
  }

  /** After a change of directory, a relative name means what it meant behind that directory. */
  lemma ChdirThenRelative(s: Namespace, path: string, name: string)
    requires WellFormed(s) && path != "" && !IsAbsolute(name)
    requires Chdir(s, Some(path), IsDirectory).1.Success? && Resolved(s.cwd, Some(path + "/" + name)).Success?
    ensures Resolve(Chdir(s, Some(path), IsDirectory).0, Some(name), Unset) == Resolve(s, Some(path + "/" + name), Unset)
  {
    hide Resolved, ResolveIn, Canonical;
    ResolvedBehind(s.cwd, path, name);
  }

  // ----- threads with a device of their own

  /** A thread bound to a file system sees names as they are; one bound to a missing file system
      sees none; any other looks the resolved name up. */
  lemma BoundThread(s: Namespace, path: string, device: Device)
    ensures Resolve(s, Some(path), Bound(device)) == if |path| < 4096 then Success((device, path)) else Failure(ENAMETOOLONG)
    ensures Resolve(s, Some(path), Missing) == Failure(EINVAL)
    ensures forall t :: Resolve(s, None, t) == Failure(EINVAL)
    ensures Resolve(s, Some(path), Unset) ==
            if Resolved(s.cwd, Some(path)).Success? then ResolveIn(s.mounts, Resolved(s.cwd, Some(path)).value)
            else Failure(ENAMETOOLONG)
  {
    hide Normalize, Components, Render, ResolveIn;
  }

  // ----- mount

  predicate Mountable(s: Namespace, target: Option<string>, hasType: bool, a: MountAnswers) {
    && target.Some? && hasType && a.device.Some? && a.clone.Some? && a.mounted
    && Resolved(s.cwd, target).Success?
    && (Resolved(s.cwd, target).value == "/" || a.stat == IsDirectory)
    && |s.mounts| != 64
    && forall k :: 0 <= k < |s.mounts| ==> s.mounts[k].path != Resolved(s.cwd, target).value
  }

  /** A mount succeeds exactly when it can, and then adds one entry; otherwise nothing changes. */
  lemma MountOutcome(s: Namespace, target: Option<string>, hasType: bool, a: MountAnswers)
    ensures var (s', r) := Mount(s, target, hasType, a);
            && (r.Success? <==> Mountable(s, target, hasType, a))
            && (r.Success? ==>
                  && s'.cwd == s.cwd && |s'.mounts| == |s.mounts| + 1 && s'.mounts[..|s.mounts|] == s.mounts
                  && s'.mounts[|s.mounts|].path == Resolved(s.cwd, target).value
                  && s'.mounts[|s.mounts|].pathSize == |Resolved(s.cwd, target).value| + 1
                  && s'.mounts[|s.mounts|].fs == a.clone.value && s'.mounts[|s.mounts|].flags == 0)
            && (r.Failure? ==> s' == s)
  {
    hide Resolved;
    var p := Resolved(s.cwd, target);
    if p.Success? && IndexOf(s.mounts, p.value) >= 0 {
      assert s.mounts[IndexOf(s.mounts, p.value)].path == p.value;
    }
  }

  /** The error says which test failed first. */
  lemma MountErrors(s: Namespace, target: Option<string>, hasType: bool, a: MountAnswers)
    ensures var r := Mount(s, target, hasType, a).1;
            && (r == Failure(EINVAL) <==> target.None? || !hasType || Resolved(s.cwd, target).Failure?)
            && (target.Some? && hasType && Resolved(s.cwd, target).Success? ==>
                  var p := Resolved(s.cwd, target).value;
                  var directory := p == "/" || a.stat == IsDirectory;
                  var taken := exists k :: 0 <= k < |s.mounts| && s.mounts[k].path == p;
                  && (r == Failure(ENODEV) <==> a.device.None?)
                  && (r == Failure(ENOTDIR) <==> a.device.Some? && p != "/" && a.stat == NotDirectory)
                  && (r == Failure(ENOMEM) <==> a.device.Some? && directory && |s.mounts| == 64)
                  && (r == Failure(EEXIST) <==> a.device.Some? && directory && |s.mounts| != 64 && taken)
                  && (r == Failure(EDEVICE) <==>
                      && a.device.Some?
                      && (|| (p != "/" && a.stat == StatFailed)
                          || (directory && |s.mounts| != 64 && !taken && (a.clone.None? || !a.mounted)))))
            && (r.Failure? ==> r.error in {EINVAL, ENODEV, ENOTDIR, ENOMEM, EEXIST, EDEVICE})
  {
    hide Resolved;
    var p := Resolved(s.cwd, target);
    if p.Success? && IndexOf(s.mounts, p.value) >= 0 {
      assert s.mounts[IndexOf(s.mounts, p.value)].path == p.value;
    }
  }

  /** Below a new mount, and above any other below it, lookups reach its device with what is left of
      the path. */
  lemma MountThenResolve(s: Namespace, target: Option<string>, hasType: bool, a: MountAnswers, q: string)
    requires WellFormed(s) && Mount(s, target, hasType, a).1.Success? && Canonical(q)
    requires Components(Resolved(s.cwd, target).value) <= Components(q)
    requires forall k :: 0 <= k < |s.mounts| && Components(s.mounts[k].path) <= Components(q) ==>
                           |Components(s.mounts[k].path)| < |Components(Resolved(s.cwd, target).value)|
    ensures a.clone.Some?
    ensures var r := ResolveIn(Mount(s, target, hasType, a).0.mounts, q);
            && r.Success? && r.value.0 == a.clone.value
            && Components(q) == Components(Resolved(s.cwd, target).value) + Components(r.value.1)
  {
    hide Components, Canonical, Resolved, ResolveIn;
    var s' := Mount(s, target, hasType, a).0;
    MountOutcome(s, target, hasType, a);
    StepWellFormed(s, OpMount(target, hasType, a));
    var n := |s.mounts|;
    forall j | 0 <= j < |s'.mounts| && Components(s'.mounts[j].path) <= Components(q)
      ensures |Components(s'.mounts[j].path)| <= |Components(s'.mounts[n].path)|
    {
      if j < n {
        assert s'.mounts[j] == s'.mounts[..n][j] == s.mounts[j];
      }
    }
    assert LongestPrefix(s'.mounts, Components(q), n);
    ResolveInMeaning(s'.mounts, q);
  }

  // ----- unmount

  /** Which file system a thread is bound to matters to unmounting only when it is missing. */
  lemma UmountThread(s: Namespace, target: Option<string>, device: Device, unmounted: bool)
    requires WellFormed(s)
    ensures Umount(s, target, Bound(device), unmounted) == Umount(s, target, Unset, unmounted)
    ensures Umount(s, target, Missing, unmounted) == (s, Failure(EINVAL))
  {
    hide Components, Canonical;
    UmountRemovesMounted(s, target, unmounted);
    var p := Resolved(s.cwd, target);
    if p.Success? {
      ResolvedLength(s.cwd, target.value);
    }
  }
}
