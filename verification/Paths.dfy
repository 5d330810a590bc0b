/** Path normalisation (oe_realpath in syscall/stdlib.c).

    A path is a C string without its terminator. The normaliser works on three fixed
    arrays; it is proved equal to splitting into components, folding them on a stack and
    writing the stack out again. */
module Paths {
  import opened Bytes

  const PATH_MAX := 4096

  datatype Errno =
    | EINVAL | ENAMETOOLONG | ENOENT | ENODEV | ENOTDIR | ENOMEM | EEXIST | ERANGE | EDEVICE

  // ----- components

  /** The length of the leading run of characters other than '/'. */
  function TokenLength(s: string): (n: nat)
    ensures n <= |s|
    ensures '/' !in s[..n] && (n < |s| ==> s[n] == '/')
  {
    if s == "" || s[0] == '/' then 0
    else
      var n := 1 + TokenLength(s[1..]);
      assert s[..n] == [s[0]] + s[1..][..n - 1];
      n
  }

  predicate Solid(cs: seq<string>) {
    forall i :: 0 <= i < |cs| ==> cs[i] != "" && '/' !in cs[i]
  }

  /** The non-empty stretches between slashes, in order. */
  function Components(s: string): (cs: seq<string>)
    ensures Solid(cs)
    decreases |s|
  {
    if s == "" then []
    else if s[0] == '/' then Components(s[1..])
    else [s[..TokenLength(s)]] + Components(s[TokenLength(s)..])
  }

  /** What one element does to the stack of elements kept so far. */
  function Push(stack: seq<string>, c: string): seq<string> {
    if c == "." then stack
    else if c == ".." then if stack == [] then [] else stack[..|stack| - 1]
    else stack + [c]
  }

  function Normalize(cs: seq<string>): seq<string> {
    if cs == [] then [] else Push(Normalize(cs[..|cs| - 1]), cs[|cs| - 1])
  }

  function Slashed(cs: seq<string>): string {
    if cs == [] then "" else Slashed(cs[..|cs| - 1]) + "/" + cs[|cs| - 1]
  }

  /** The absolute path with these components. */
  function Render(cs: seq<string>): string {
    if cs == [] then "/" else Slashed(cs)
  }

  /** The path that a name stands for before normalisation. */
  function Absolute(cwd: string, path: string): string {
    if path != "" && path[0] == '/' then path else cwd + "/" + path
  }

  /** What resolving a name must yield. */
  function Resolved(cwd: string, path: Option<string>): Result<string, Errno> {
    if path.None? then Failure(EINVAL)
    else if |Absolute(cwd, path.value)| >= PATH_MAX then Failure(ENAMETOOLONG)
    else Success(Render(Normalize(Components(Absolute(cwd, path.value)))))
  }

  // ----- canonical paths

  predicate ValidComponent(c: string) {
    c != "" && '/' !in c && c != "." && c != ".."
  }

  predicate ValidComponents(cs: seq<string>) {
    forall i :: 0 <= i < |cs| ==> ValidComponent(cs[i])
  }

  /** Absolute, without ".", "..", empty components or a trailing slash other than the root's. */
  predicate Canonical(p: string) {
    ValidComponents(Components(p)) && p == Render(Components(p))
  }

  lemma {:induction false} ComponentsOfToken(c: string, s: string)
    requires c != "" && '/' !in c && (s == "" || s[0] == '/')
    ensures Components("/" + c + s) == [c] + Components(s)
  {
    var p := "/" + c + s;
    assert p[1..] == c + s;
    TokenLengthExact(c, s);
    assert (c + s)[..|c|] == c && (c + s)[|c|..] == s;
    assert Components(p) == Components(p[1..]);
  }

  lemma {:induction false} TokenLengthExact(c: string, s: string)
    requires '/' !in c && (s == "" || s[0] == '/')
    ensures TokenLength(c + s) == |c|
  {
    if c == "" {
      assert c + s == s;
    } else {
      assert (c + s)[1..] == c[1..] + s;
      TokenLengthExact(c[1..], s);
    }
  }

  lemma {:induction false} ComponentsAppend(p: string, s: string)
    requires s == "" || s[0] == '/'
    ensures Components(p + s) == Components(p) + Components(s)
    decreases |p|
  {
    if p == "" {
      assert p + s == s;
    } else if p[0] == '/' {
      assert (p + s)[1..] == p[1..] + s;
      ComponentsAppend(p[1..], s);
    } else {
      var n := TokenLength(p);
      assert p + s == p[..n] + (p[n..] + s);
      TokenLengthExact(p[..n], p[n..] + s);
      assert (p + s)[..n] == p[..n] && (p + s)[n..] == p[n..] + s;
      ComponentsAppend(p[n..], s);
    }
  }

  lemma {:induction false} SlashedAppend(a: seq<string>, b: seq<string>)
    ensures Slashed(a + b) == Slashed(a) + Slashed(b)
  {
    if b == [] {
      assert a + b == a;
    } else {
      SlashedAppend(a, b[..|b| - 1]);
      assert (a + b)[..|a + b| - 1] == a + b[..|b| - 1];
    }
  }

  lemma SlashedFirst(c: string, cs: seq<string>)
    ensures Slashed([c] + cs) == "/" + c + Slashed(cs)
  {
    SlashedAppend([c], cs);
    assert Slashed([c]) == Slashed([c][..0]) + "/" + c;
    assert Slashed([c]) == "/" + c;
  }

  lemma {:induction false} SlashedStartsWithSlash(cs: seq<string>)
    requires cs != []
    ensures Slashed(cs) != "" && Slashed(cs)[0] == '/'
  {
    SlashedFirst(cs[0], cs[1..]);
    assert [cs[0]] + cs[1..] == cs;
  }

  lemma {:induction false} ComponentsOfSlashed(cs: seq<string>)
    requires Solid(cs)
    ensures Components(Slashed(cs)) == cs
  {
    if cs != [] {
      assert cs == [cs[0]] + cs[1..];
      SlashedFirst(cs[0], cs[1..]);
      if cs[1..] != [] {
        SlashedStartsWithSlash(cs[1..]);
      }
      ComponentsOfToken(cs[0], Slashed(cs[1..]));
      ComponentsOfSlashed(cs[1..]);
    }
  }

  /** Writing components out and splitting again gives them back. */
  lemma ComponentsOfRender(cs: seq<string>)
    requires Solid(cs)
    ensures Components(Render(cs)) == cs
  {
    if cs == [] {
      assert "/"[1..] == "";
    } else {
      ComponentsOfSlashed(cs);
    }
  }

  lemma RenderCanonical(cs: seq<string>)
    requires ValidComponents(cs)
    ensures Canonical(Render(cs))
  {
    ComponentsOfRender(cs);
  }

  lemma {:induction false} NormalizeValid(cs: seq<string>)
    requires Solid(cs)
    ensures ValidComponents(Normalize(cs))
  {
    if cs != [] {
      NormalizeValid(cs[..|cs| - 1]);
    }
  }

  lemma {:induction false} NormalizeKeepsValid(cs: seq<string>)
    requires ValidComponents(cs)
    ensures Normalize(cs) == cs
  {
    if cs != [] {
      NormalizeKeepsValid(cs[..|cs| - 1]);
    }
  }

  /** Whatever a name resolves to is canonical. */
  lemma ResolvedCanonical(cwd: string, path: Option<string>)
    requires Resolved(cwd, path).Success?
    ensures Canonical(Resolved(cwd, path).value)
  {
    var cs := Components(Absolute(cwd, path.value));
    NormalizeValid(cs);
    RenderCanonical(Normalize(cs));
  }

  /** A canonical path resolves to itself, whatever the working directory. */
  lemma ResolvedIdempotent(cwd: string, p: string)
    requires Canonical(p) && |p| < PATH_MAX
    ensures Resolved(cwd, Some(p)) == Success(p)
  {
    NormalizeKeepsValid(Components(p));
    if Components(p) != [] {
      SlashedStartsWithSlash(Components(p));
    }
  }

  // ----- lengths: normalising never makes a path longer

  lemma {:induction false} SlashedPrefix(cs: seq<string>, k: nat)
    requires k <= |cs|
    ensures |Slashed(cs[..k])| + (|cs| - k) <= |Slashed(cs)|
  {
    if k < |cs| {
      assert cs[..|cs| - 1][..k] == cs[..k];
      SlashedPrefix(cs[..|cs| - 1], k);
    } else {
      assert cs[..k] == cs;
    }
  }

  lemma {:induction false} NormalizeShortens(cs: seq<string>)
    ensures |Slashed(Normalize(cs))| <= |Slashed(cs)|
  {
    if cs != [] {
      var init, last := cs[..|cs| - 1], cs[|cs| - 1];
      var stack := Normalize(init);
      NormalizeShortens(init);
      if last == ".." && stack != [] {
        SlashedPrefix(stack, |stack| - 1);
      } else if last != "." && last != ".." {
        assert (stack + [last])[..|stack|] == stack;
      }
    }
  }

  lemma {:induction false} ComponentsShorten(s: string)
    ensures |Slashed(Components(s))| <= |s| + if s != "" && s[0] == '/' then 0 else 1
    decreases |s|
  {
    if s != "" {
      if s[0] == '/' {
        ComponentsShorten(s[1..]);
      } else {
        var n := TokenLength(s);
        ComponentsShorten(s[n..]);
        SlashedFirst(s[..n], Components(s[n..]));
      }
    }
  }

  /** The resolved path is never longer than the path it came from. */
  lemma ResolvedLength(cwd: string, path: string)
    requires Canonical(cwd)
    ensures |Render(Normalize(Components(Absolute(cwd, path))))| <= |Absolute(cwd, path)|
  {
    var full := Absolute(cwd, path);
    CanonicalAbsolute(cwd);
    ComponentsShorten(full);
    NormalizeShortens(Components(full));
  }

  lemma CanonicalAbsolute(p: string)
    requires Canonical(p)
    ensures p != "" && p[0] == '/'
  {
    if Components(p) != [] {
      SlashedStartsWithSlash(Components(p));
    }
  }

  // ----- the normaliser

  /** oe_strlcpy and oe_strlcat: the new contents of `dest`, and the length it would have
      needed. */
  function Strlcpy(src: string, size: nat): (string, nat)
    requires size > 0
  {
    (if |src| < size then src else src[..size - 1], |src|)
  }

  function Strlcat(dest: string, src: string, size: nat): (string, nat)
    requires |dest| < size
  {
    var all := dest + src;
    (if |all| < size then all else all[..size - 1], |all|)
  }

  /** Copies the name into the work buffer, behind the working directory when it is relative. */
  method CopyIn(cwd: string, path: string) returns (r: Result<string, Errno>)
    requires |cwd| < PATH_MAX
    ensures r == if |Absolute(cwd, path)| < PATH_MAX then Success(Absolute(cwd, path)) else Failure(ENAMETOOLONG)
  {
    if path != "" && path[0] == '/' {
      var (buf, n) := Strlcpy(path, PATH_MAX);
      if n >= PATH_MAX {
        return Failure(ENAMETOOLONG);
      }
      return Success(buf);
    }
    var (buf, n) := Strlcpy(cwd, PATH_MAX);
    if n >= PATH_MAX {
      return Failure(ENAMETOOLONG);
    }
    var (buf1, n1) := Strlcat(buf, "/", PATH_MAX);
    if n1 >= PATH_MAX {
      return Failure(ENAMETOOLONG);
    }
    var (buf2, n2) := Strlcat(buf1, path, PATH_MAX);
    if n2 >= PATH_MAX {
      return Failure(ENAMETOOLONG);
    }
    return Success(buf2);
  }

  /** One strtok_r call from position `from`: the next token, if any, is buf[start..end]. */
  method NextToken(buf: string, from: nat) returns (start: nat, end: nat)
    requires from <= |buf|
    ensures from <= start <= end <= |buf|
    ensures from < |buf| && buf[from] == '/' ==> from < start
    ensures start == end ==> end == |buf| && Components(buf[from..]) == []
    ensures start < end ==> Components(buf[from..]) == [buf[start..end]] + Components(buf[end..])
    ensures end < |buf| ==> buf[end] == '/'
  {
    hide Components;
    start := from;
    while start < |buf| && buf[start] == '/'
      invariant from <= start <= |buf|
      invariant Components(buf[start..]) == Components(buf[from..])
    {
      SlashAt(buf, start);
      start := start + 1;
    }
    if start == |buf| {
      assert buf[start..] == "";
      EmptyComponents();
    }
    end := start;
    while end < |buf| && buf[end] != '/'
      invariant start <= end <= |buf|
      invariant '/' !in buf[start..end]
    {
      end := end + 1;
    }
    if start < end {
      TokenAt(buf, start, end);
    }
  }

  lemma TokenAt(buf: string, start: nat, end: nat)
    requires start < end <= |buf|
    requires '/' !in buf[start..end] && (end == |buf| || buf[end] == '/')
    ensures Components(buf[start..]) == [buf[start..end]] + Components(buf[end..])
  {
    assert buf[start..] == buf[start..end] + buf[end..];
    TokenLengthExact(buf[start..end], buf[end..]);
    assert buf[start..][0] == buf[start..end][0];
    assert buf[start..][..end - start] == buf[start..end] && buf[start..][end - start..] == buf[end..];
  }

  lemma EmptyComponents()
    ensures Components("") == []
  {
  }

  lemma SlashAt(buf: string, i: nat)
    requires i < |buf| && buf[i] == '/'
    ensures Components(buf[i..]) == Components(buf[i + 1..])
  {
    assert buf[i..][1..] == buf[i + 1..];
  }

  /** Splits the path at its slashes. Element 0 is "/". */
  method Split(buf: string, elements: array<string>) returns (nin: nat)
    requires buf != "" && buf[0] == '/' && |buf| < PATH_MAX
    requires elements.Length == PATH_MAX
    modifies elements
    ensures 1 <= nin <= PATH_MAX / 2
    ensures elements[..nin] == ["/"] + Components(buf)
  {
    hide Components;
    elements[0] := "/";
    nin := 1;
    var start, end := NextToken(buf, 0);
    assert buf[0..] == buf;
    ghost var save := 0;
    while start < end
      invariant save <= |buf| && start <= end <= |buf|
      invariant 1 <= nin && 2 * (nin - 1) <= save
      invariant start < end ==> save < start
      invariant start == end ==> Components(buf[save..]) == []
      invariant start < end ==> Components(buf[save..]) == [buf[start..end]] + Components(buf[end..])
      invariant end < |buf| ==> buf[end] == '/'
      invariant elements[..nin] + Components(buf[save..]) == ["/"] + Components(buf)
      decreases |buf| - save
    {
      ghost var before := elements[..nin];
      elements[nin] := buf[start..end];
      nin := nin + 1;
      assert elements[..nin] == before + [buf[start..end]];
      save := end;
      start, end := NextToken(buf, end);
    }
  }

  /** The stack after element `i`; element 0 is the root and leaves it empty. */
  lemma NormalizeNext(elements: seq<string>, i: nat)
    requires i < |elements|
    ensures Normalize(elements[1..i + 1])
         == if i == 0 then [] else Push(Normalize(elements[1..i]), elements[i])
  {
    assert i > 0 ==> elements[1..i + 1] == elements[1..i] + [elements[i]];
  }

  /** Keeps the elements that survive "." and "..". */
  method Keep(elements: array<string>, nin: nat, out: array<string>) returns (nout: nat)
    requires elements.Length == out.Length == PATH_MAX && elements != out
    requires 1 <= nin <= PATH_MAX && elements[0] == "/"
    modifies out
    ensures 1 <= nout <= nin
    ensures out[..nout] == ["/"] + Normalize(elements[1..nin])
  {
    hide Normalize;
    nout := 0;
    var i := 0;
    while i < nin
      invariant i <= nin && nout <= i
      invariant elements[..] == old(elements[..])
      invariant i == 0 ==> nout == 0
      invariant i > 0 ==> 1 <= nout && out[..nout] == ["/"] + Normalize(elements[1..i])
    {
      NormalizeNext(elements[..], i);
      if elements[i] == "." {
        i := i + 1;
        continue;
      }
      if elements[i] == ".." {
        if nout > 1 {
          nout := nout - 1;
        }
        i := i + 1;
        continue;
      }
      ghost var before := out[..nout];
      out[nout] := elements[i];
      nout := nout + 1;
      assert out[..nout] == before + [elements[i]];
      i := i + 1;
    }
  }

  /** Writes the kept elements out with slashes between them. */
  method Build(out: array<string>, nout: nat) returns (r: Result<string, Errno>)
    requires out.Length == PATH_MAX && 1 <= nout <= PATH_MAX && out[0] == "/"
    requires |Render(out[1..nout])| < PATH_MAX
    ensures r == Success(Render(out[1..nout]))
  {
    var resolved := "";
    ghost var cs := out[1..nout];
    var i := 0;
    while i < nout
      invariant i <= nout
      invariant i == 0 ==> resolved == ""
      invariant 0 < i < nout ==> resolved == Slashed(cs[..i - 1]) + "/"
      invariant i == nout ==> resolved == Render(cs)
    {
      if i > 0 {
        SlashedPrefix(cs, i);
        SlashedPrefix(cs, i - 1);
        assert cs[..i][..i - 1] == cs[..i - 1] && cs[..i][i - 1] == out[i];
        assert Slashed(cs[..i]) == Slashed(cs[..i - 1]) + "/" + out[i];
        assert i == nout - 1 ==> cs[..i] == cs;
      }
      var (s, n) := Strlcat(resolved, out[i], PATH_MAX);
      if n >= PATH_MAX {
        return Failure(ENAMETOOLONG);
      }
      resolved := s;
      if i != 0 && i + 1 != nout {
        var (s', n') := Strlcat(resolved, "/", PATH_MAX);
        if n' >= PATH_MAX {
          return Failure(ENAMETOOLONG);
        }
        resolved := s';
      }
      i := i + 1;
    }
    return Success(resolved);
  }

  /** oe_realpath: the only failures are a missing name and a name too long to copy in. */
  method RealPath(cwd: string, path: Option<string>) returns (r: Result<string, Errno>)
    requires Canonical(cwd) && |cwd| < PATH_MAX
    ensures r == Resolved(cwd, path)
    ensures r.Success? ==> Canonical(r.value) && |r.value| < PATH_MAX
  {
    if path.None? {
      return Failure(EINVAL);
    }
    var buf :- CopyIn(cwd, path.value);
    CanonicalAbsolute(cwd);
    var elements := new string[PATH_MAX](_ => "");
    var out := new string[PATH_MAX](_ => "");
    var nin := Split(buf, elements);
    assert elements[0] == elements[..nin][0];
    assert elements[1..nin] == elements[..nin][1..] == Components(buf);
    var nout := Keep(elements, nin, out);
    assert out[0] == out[..nout][0];
    assert out[1..nout] == out[..nout][1..] == Normalize(Components(buf));
    ResolvedLength(cwd, path.value);
    r := Build(out, nout);
    ResolvedCanonical(cwd, path);
  }
}
