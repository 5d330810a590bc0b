/** The namespace in place: the mount table array, its size, and the working directory
    (the static data of syscall/mount.c and syscall/unistd.c). Every method is proved to
    take the corresponding step of MountSpec. */
module MountTable {
  import opened Bytes
  import opened Paths
  import opened MountSpec

  const NO_MOUNT := MountPoint("", 0, 0, 0)

  class FileNamespace {
    var cwd: string
    const table: array<MountPoint>
    var size: nat

    ghost predicate Valid()
      reads this, table
    {
      table.Length == MAX_MOUNTS && size <= MAX_MOUNTS && WellFormed(State())
    }

    ghost function State(): Namespace
      requires size <= table.Length
      reads this, table
    {
      Namespace(cwd, table[..size])
    }

    constructor ()
      ensures Valid() && fresh(table) && State() == INITIAL
    {
      table := new MountPoint[MAX_MOUNTS](_ => NO_MOUNT);
      size := 0;
      cwd := "/";
      new;
      InitialWellFormed();
    }

    /** With no buffer, one of PATH_MAX characters is allocated. */
    method GetCwd(bufSize: Option<nat>) returns (r: Result<string, Errno>)
      requires Valid()
      ensures r == if bufSize == Some(0) then Failure(EINVAL)
                   else if bufSize.Some? && bufSize.value <= |cwd| then Failure(ERANGE)
                   else Success(cwd)
    {
      if bufSize == Some(0) {
        return Failure(EINVAL);
      }
      var n := if bufSize.None? then PATH_MAX else bufSize.value;
      var (p, needed) := Strlcpy(cwd, n);
      if needed >= n {
        return Failure(ERANGE);
      }
      return Success(p);
    }

    method ChangeDir(path: Option<string>, stat: Stat) returns (r: Result<(), Errno>)
      requires Valid()
      modifies this
      ensures Valid() && (State(), r) == Chdir(old(State()), path, stat)
    {
      hide Resolved, Resolve, Canonical, WellFormedTable, IndexOf;
      var p := RealPath(cwd, path);
      if p.Failure? {
        return Failure(p.error);
      }
      match stat
      case StatFailed => return Failure(EDEVICE);
      case NotDirectory => return Failure(ENOTDIR);
      case IsDirectory =>
        var (copy, n) := Strlcpy(p.value, PATH_MAX);
        cwd := copy;
        if n >= PATH_MAX {
          return Failure(ENAMETOOLONG);
        }
        return Success(());
    }

    /** Finds the longest mount point that contains the path. */
    method MountResolve(path: Option<string>, thread: ThreadDevice) returns (r: Result<(Device, string), Errno>)
      requires Valid()
      ensures r == Resolve(State(), path, thread)
    {
      if path.None? {
        return Failure(EINVAL);
      }
      match thread {
        case Missing => return Failure(EINVAL);
        case Bound(device) =>
          var (copy, n) := Strlcpy(path.value, PATH_MAX);
          if n >= PATH_MAX {
            return Failure(ENAMETOOLONG);
          }
          return Success((device, copy));
        case Unset =>
      }
      var realpath :- RealPath(cwd, path);
      var found := None;
      var suffix := "";
      var matchLen := 0;
      var i := 0;
      while i < size
        invariant i <= size
        invariant var b := Best(table[..i], realpath);
                  && matchLen == MatchLength(table[..i], b)
                  && (b < 0 ==> found == None)
                  && (b >= 0 ==> Matches(table[b].path, realpath)
                                 && found == Some(table[b].fs) && suffix == Suffix(table[b].path, realpath))
      {
        var mpath := table[i].path;
        var len := |mpath|;
        assert table[..i + 1][..i] == table[..i];
        if mpath == "/" {
          if len > matchLen {
            suffix := realpath;
            matchLen := len;
            found := Some(table[i].fs);
          }
        } else if len <= |realpath| && realpath[..len] == mpath && (len == |realpath| || realpath[len] == '/') {
          if len > matchLen {
            suffix := realpath[len..];
            if suffix == "" {
              suffix := "/";
            }
            matchLen := len;
            found := Some(table[i].fs);
          }
        }
        i := i + 1;
      }
      if found.None? {
        return Failure(ENOENT);
      }
      return Success((found.value, suffix));
    }

    /** The first entry at `path`, or -1. */
    method Find(path: string) returns (index: int)
      requires Valid()
      ensures index == IndexOf(State().mounts, path)
    {
      index := -1;
      var i := 0;
      while i < size
        invariant i <= size && index == -1
        invariant forall k :: 0 <= k < i ==> table[k].path != path
      {
        if table[i].path == path {
          index := i;
          break;
        }
        i := i + 1;
      }
      FirstIndex(table[..size], path, i);
    }

    method MountAt(target: Option<string>, hasType: bool, a: MountAnswers) returns (r: Result<(), Errno>)
      requires Valid()
      modifies this, table
      ensures Valid() && (State(), r) == Mount(old(State()), target, hasType, a)
    {
      hide Resolved, Resolve, Canonical, WellFormedTable, IndexOf;
      if target.None? || !hasType {
        return Failure(EINVAL);
      }
      var p := RealPath(cwd, target);
      if p.Failure? {
        return Failure(EINVAL);
      }
      if a.device.None? {
        return Failure(ENODEV);
      }
      if p.value != "/" {
        if a.stat.StatFailed? {
          return Failure(EDEVICE);
        }
        if a.stat.NotDirectory? {
          return Failure(ENOTDIR);
        }
      }
      if size == MAX_MOUNTS {
        return Failure(ENOMEM);
      }
      var index := Find(p.value);
      if index >= 0 {
        return Failure(EEXIST);
      }
      if a.clone.None? {
        return Failure(EDEVICE);
      }
      var mountPoint := MountPoint(p.value, |p.value| + 1, a.clone.value, 0);
      if !a.mounted {
        return Failure(EDEVICE);
      }
      StepWellFormed(State(), OpMount(target, hasType, a));
      table[size] := mountPoint;
      size := size + 1;
      assert table[..size] == old(table[..size]) + [mountPoint];
      return Success(());
    }

    method UmountAt(target: Option<string>, thread: ThreadDevice, unmounted: bool) returns (r: Result<(), Errno>)
      requires Valid()
      modifies this, table
      ensures Valid() && (State(), r) == Umount(old(State()), target, thread, unmounted)
    {
      hide Resolved, Resolve, Canonical, WellFormedTable, IndexOf;
      if target.None? {
        return Failure(EINVAL);
      }
      var p := RealPath(cwd, target);
      if p.Failure? {
        return Failure(EINVAL);
      }
      var device := MountResolve(Some(p.value), thread);
      if device.Failure? {
        return Failure(EINVAL);
      }
      var index := Find(p.value);
      if index < 0 {
        return Failure(EINVAL);
      }
      StepWellFormed(State(), OpUmount(target, thread, unmounted));
      table[index] := table[size - 1];
      size := size - 1;
      assert table[..size] == SwapRemove(old(table[..size]), index);
      if !unmounted {
        return Failure(EDEVICE);
      }
      return Success(());
    }
  }

  lemma {:induction false} FirstIndex(mounts: seq<MountPoint>, path: string, i: nat)
    requires i <= |mounts| && forall k :: 0 <= k < i ==> mounts[k].path != path
    requires i < |mounts| ==> mounts[i].path == path
    ensures IndexOf(mounts, path) == if i < |mounts| then i else -1
  {
    if i > 0 {
      FirstIndex(mounts[1..], path, i - 1);
    }
  }
}
