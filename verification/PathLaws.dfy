/** What a resolved name means (oe_realpath in syscall/stdlib.c), said on strings alone: ".." takes
    back the component before it, "." and repeated slashes do nothing, a relative name stands behind
    the working directory. With canonical paths resolving to themselves, these laws leave nothing
    open: every name that fits can be reduced by them to a canonical path. */
module PathLaws {
  import opened Bytes
  import opened Paths

  /** A continuation of a path at a component boundary. */
  predicate Continues(s: string) {
    s == "" || s[0] == '/'
  }

  predicate IsAbsolute(p: string) {
    p != "" && p[0] == '/'
  }

  /** Stacks that agree go on agreeing. */
  lemma {:induction false} NormalizeAlike(a: seq<string>, b: seq<string>, cs: seq<string>)
    requires Normalize(a) == Normalize(b)
    ensures Normalize(a + cs) == Normalize(b + cs)
    decreases |cs|
  {
    if cs == [] {
      assert a + cs == a && b + cs == b;
    } else {
      var n := |cs| - 1;
      NormalizeAlike(a, b, cs[..n]);
      assert (a + cs)[..|a| + n] == a + cs[..n] && (b + cs)[..|b| + n] == b + cs[..n];
    }
  }

  lemma OneComponent(c: string)
    requires c != "" && '/' !in c
    ensures Components("/" + c) == [c]
  {
    ComponentsOfToken(c, "");
    assert "/" + c + "" == "/" + c;
  }

  /** Absolute names whose components leave one stack resolve alike. */
  lemma SameStack(cwd: string, p: string, q: string)
    requires IsAbsolute(p) && IsAbsolute(q) && |p| < PATH_MAX && |q| < PATH_MAX
    requires Normalize(Components(p)) == Normalize(Components(q))
    ensures Resolved(cwd, Some(p)) == Resolved(cwd, Some(q))
  {
    hide Normalize, Components, Render;
  }

  /** A component and the ".." behind it cancel. */
  lemma DotDotCancels(cwd: string, p: string, c: string, s: string)
    requires Continues(p) && ValidComponent(c) && Continues(s) && p + s != ""
    requires |p + "/" + c + "/.." + s| < PATH_MAX
    ensures Resolved(cwd, Some(p + "/" + c + "/.." + s)) == Resolved(cwd, Some(p + s))
  {
    hide Components, Render;
    var cs := Components(p);
    ComponentsAppend(p + "/" + c + "/..", s);
    assert p + "/" + c + "/.." == (p + "/" + c) + "/..";
    ComponentsAppend(p + "/" + c, "/..");
    assert p + "/" + c == p + ("/" + c);
    ComponentsAppend(p, "/" + c);
    OneComponent(c);
    OneComponent("..");
    assert "/" + ".." == "/..";
    ComponentsAppend(p, s);
    assert (cs + [c] + [".."])[..|cs| + 1] == cs + [c] && (cs + [c])[..|cs|] == cs;
    assert Normalize(cs + [c]) == Normalize(cs) + [c];
    assert (Normalize(cs) + [c])[..|Normalize(cs)|] == Normalize(cs);
    NormalizeAlike(cs + [c] + [".."], cs, Components(s));
    SameStack(cwd, p + "/" + c + "/.." + s, p + s);
  }

  /** The root has no parent but itself. */
  lemma RootDotDot(cwd: string, s: string)
    requires Continues(s) && |"/.." + s| < PATH_MAX
    ensures Resolved(cwd, Some("/.." + s)) == Resolved(cwd, Some("/" + s))
  {
    hide Components, Render;
    ComponentsAppend("/..", s);
    ComponentsAppend("/", s);
    OneComponent("..");
    assert "/" + ".." == "/..";
    RootHasNone();
    assert [".."][..0] == [];
    assert [".."] + Components(s) == Components("/.." + s);
    NormalizeAlike([".."], [], Components(s));
    SameStack(cwd, "/.." + s, "/" + s);
  }

  lemma RootHasNone()
    ensures Components("/") == []
  {
    ComponentsOfRender([]);
  }

  /** A "." changes nothing. */
  lemma DotIgnored(cwd: string, p: string, s: string)
    requires Continues(p) && Continues(s) && p + s != "" && |p + "/." + s| < PATH_MAX
    ensures Resolved(cwd, Some(p + "/." + s)) == Resolved(cwd, Some(p + s))
  {
    hide Components, Render;
    var cs := Components(p);
    ComponentsAppend(p + "/.", s);
    ComponentsAppend(p, "/.");
    OneComponent(".");
    assert "/" + "." == "/.";
    ComponentsAppend(p, s);
    assert (cs + ["."])[..|cs|] == cs;
    NormalizeAlike(cs + ["."], cs, Components(s));
    SameStack(cwd, p + "/." + s, p + s);
  }

  /** Nor does another slash, between components or at the end. */
  lemma SlashIgnored(cwd: string, p: string, s: string)
    requires Continues(p) && Continues(s) && p + s != "" && |p + "/" + s| < PATH_MAX
    ensures Resolved(cwd, Some(p + "/" + s)) == Resolved(cwd, Some(p + s))
  {
    hide Components, Render;
    ComponentsAppend(p + "/", s);
    ComponentsAppend(p, "/");
    ComponentsAppend(p, s);
    RootHasNone();
    assert Components(p) + [] == Components(p);
    SameStack(cwd, p + "/" + s, p + s);
  }

  /** A relative name is an absolute one behind the working directory, and an absolute name does
      not depend on it. */
  lemma RelativeToCwd(cwd: string, other: string, name: string)
    requires IsAbsolute(cwd)
    ensures !IsAbsolute(name) ==> Resolved(cwd, Some(name)) == Resolved(other, Some(cwd + "/" + name))
    ensures IsAbsolute(name) ==> Resolved(cwd, Some(name)) == Resolved(other, Some(name))
  {
    hide Components, Normalize, Render;
    assert (cwd + "/" + name)[0] == cwd[0];
  }

  /** Names are refused exactly when they are missing or, with the working directory in front of a
      relative one, have 4096 characters or more. */
  lemma RefusedIff(cwd: string, name: string)
    ensures Resolved(cwd, None) == Failure(EINVAL)
    ensures Resolved(cwd, Some(name)).Failure? <==>
            (if IsAbsolute(name) then |name| else |cwd| + 1 + |name|) >= 4096
    ensures Resolved(cwd, Some(name)).Failure? ==> Resolved(cwd, Some(name)).error == ENAMETOOLONG
  {
  }

  /** The parent of a component is the path before it. */
  lemma ParentOf(cwd: string, p: string, c: string)
    requires Canonical(p) && ValidComponent(c) && |p + "/" + c + "/.."| < PATH_MAX
    ensures Resolved(cwd, Some((if p == "/" then "" else p) + "/" + c + "/..")) == Success(p)
  {
    hide Components, Canonical;
    if p == "/" {
      assert "" + "/" + c + "/.." == "/" + c + "/..";
      ParentOfOne(cwd, c);
    } else {
      CanonicalAbsolute(p);
      assert p + "/" + c + "/.." == p + "/" + c + "/.." + "" && p + "" == p;
      DotDotCancels(cwd, p, c, "");
      ResolvedIdempotent(cwd, p);
    }
  }

  lemma ParentOfOne(cwd: string, c: string)
    requires ValidComponent(c) && |"/" + c + "/.."| < PATH_MAX
    ensures Resolved(cwd, Some("/" + c + "/..")) == Success("/")
  {
    ComponentsAppend("/" + c, "/..");
    OneComponent(c);
    OneComponent("..");
    assert "/" + ".." == "/..";
    assert [c, ".."][..1] == [c] && [c][..0] == [];
    assert Normalize([c]) == [c];
  }
}
