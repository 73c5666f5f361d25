/** Path strings: path_parse of fs/fs.c, wash_path and make_clear_abs_path of shell/builtin_cmd.c. Strings carry no
    terminating NUL; a pointer into one is an index, and the NULL of path_parse is -1. */
module Paths {

  /** The longest component that fits a name buffer with its NUL. */
  const MAX_NAME: nat := 15

  // ---------------------------------------------------------------- components

  function SkipSlashes(s: string): (r: string)
    ensures |r| <= |s| && (r == "" || r[0] != '/')
    ensures s != "" && s[0] == '/' ==> |r| < |s|
  {
    if s == "" || s[0] != '/' then s else SkipSlashes(s[1..])
  }

  function NameLen(s: string): (n: nat)
    ensures n <= |s| && (n == |s| || s[n] == '/') && forall i | 0 <= i < n :: s[i] != '/'
  {
    if s == "" || s[0] == '/' then 0 else 1 + NameLen(s[1..])
  }

  /** The components between runs of slashes. */
  function Split(s: string): (cs: seq<string>)
    ensures forall c | c in cs :: IsName(c)
    decreases |s|
  {
    var t := SkipSlashes(s);
    var n := NameLen(t);
    if t == "" then [] else [t[..n]] + Split(t[n..])
  }

  predicate IsName(c: string) {
    c != "" && '/' !in c
  }

  /** One component applied to the components so far; the root absorbs "..". */
  function Apply(stack: seq<string>, c: string): seq<string> {
    if c == ".." then if stack == [] then [] else stack[..|stack| - 1]
    else if c == "." then stack
    else stack + [c]
  }

  function ApplyAll(stack: seq<string>, cs: seq<string>): seq<string>
    decreases |cs|
  {
    if cs == [] then stack else ApplyAll(Apply(stack, cs[0]), cs[1..])
  }

  function Join(stack: seq<string>): string {
    if stack == [] then "" else Join(stack[..|stack| - 1]) + "/" + stack[|stack| - 1]
  }

  function Print(stack: seq<string>): string {
    if stack == [] then "/" else Join(stack)
  }

  /** What wash_path is for. */
  function Washed(path: string): string {
    Print(ApplyAll([], Split(path)))
  }

  predicate Fits(path: string) {
    forall c | c in Split(path) :: |c| <= MAX_NAME
  }

  // ---------------------------------------------------------------- path_parse

  /** The rest of a path from where a component ended. */
  function Rest(path: string, next: int): string
    requires next < |path|
  {
    if next < 0 then "" else path[next..]
  }

  /** The next component of path from index i on, and where to go on: -1 at the end of the string. */
  method PathParse(path: string, i: nat) returns (name: string, next: int)
    requires i <= |path|
    ensures -1 <= next < |path| && (next >= 0 ==> next >= i && path[next] == '/')
    ensures var cs := Split(path[i..]);
            if cs == [] then name == "" && next == -1 else name == cs[0] && Split(Rest(path, next)) == cs[1..]
  {
    hide SkipSlashes, NameLen, Split;
    var p := i;
    if p < |path| && path[p] == '/' {
      SkipOne(path, p);
      p := p + 1;
      while p < |path| && path[p] == '/'
        invariant i < p <= |path| && SkipSlashes(path[i..]) == SkipSlashes(path[p..])
      {
        SkipOne(path, p);
        p := p + 1;
      }
    }
    ghost var start := p;
    SkipNone(path, start);
    name := "";
    while p < |path| && path[p] != '/'
      invariant start <= p <= |path| && name == path[start..p]
      invariant NameLen(path[start..]) == (p - start) + NameLen(path[p..])
    {
      NameOne(path, p);
      name := name + [path[p]];
      p := p + 1;
    }
    NameNone(path, p);
    SplitStep(path, i, start, p);
    next := if p == |path| then -1 else p;
  }

  lemma SkipOne(path: string, p: nat)
    requires p < |path| && path[p] == '/'
    ensures SkipSlashes(path[p..]) == SkipSlashes(path[p + 1..])
  {
    assert path[p..][1..] == path[p + 1..];
  }

  lemma SkipNone(path: string, p: nat)
    requires p <= |path| && (p == |path| || path[p] != '/')
    ensures SkipSlashes(path[p..]) == path[p..]
  {
  }

  lemma NameOne(path: string, p: nat)
    requires p < |path| && path[p] != '/'
    ensures NameLen(path[p..]) == 1 + NameLen(path[p + 1..])
  {
    assert path[p..][1..] == path[p + 1..];
  }

  lemma NameNone(path: string, p: nat)
    requires p <= |path| && (p == |path| || path[p] == '/')
    ensures NameLen(path[p..]) == 0
  {
  }

  lemma SplitStep(path: string, i: nat, start: nat, p: nat)
    requires i <= start <= p <= |path| && SkipSlashes(path[i..]) == path[start..]
    requires NameLen(path[start..]) == p - start
    ensures var cs := Split(path[i..]);
            if start == |path| then cs == [] else cs == [path[start..p]] + Split(path[p..])
    ensures Split("") == []
    ensures p == |path| ==> path[p..] == ""
  {
    hide NameLen, SkipSlashes;
    var t := path[start..];
    assert SkipSlashes("") == "";
    if t != "" {
      assert t[..p - start] == path[start..p] && t[p - start..] == path[p..];
    }
  }

  /** strrchr(s, '/'), for a string that has one. */
  method LastSlash(s: string) returns (k: nat)
    requires '/' in s
    ensures k < |s| && s[k] == '/' && forall j | k < j < |s| :: s[j] != '/'
  {
    var i := 0;
    var last := -1;
    while i < |s|
      invariant i <= |s| && -1 <= last < i
      invariant last >= 0 ==> s[last] == '/'
      invariant forall j | last < j < i :: s[j] != '/'
    {
      if s[i] == '/' {
        last := i;
      }
      i := i + 1;
    }
    k := last;
  }

  // ---------------------------------------------------------------- wash_path

  method WashPath(path: string) returns (clean: string)
    requires path != "" && path[0] == '/' && Fits(path)
    ensures clean == Washed(path)
  {
    hide Split, ApplyAll, Join, Fits;
    var name, next := PathParse(path, 0);
    assert path[0..] == path;
    if name == "" {
      assert Split(path) != [] ==> IsName(Split(path)[0]);
      ApplyNone([]);
      return "/";
    }
    clean := "/";
    ghost var stack: seq<string> := [];
    ghost var left := Split(path);
    while name != ""
      invariant -1 <= next < |path|
      invariant if left == [] then name == "" else name == left[0] && Split(Rest(path, next)) == left[1..]
      invariant forall c | c in left :: IsName(c)
      invariant forall c | c in stack :: IsName(c)
      invariant clean == Print(stack) && ApplyAll(stack, left) == ApplyAll([], Split(path))
      decreases |left|
    {
      assert IsName(left[0]);
      ApplyOne(stack, left);
      if name == ".." {
        LastSlashOfPrint(stack);
        var slash := LastSlash(clean);
        if slash != 0 {
          clean := clean[..slash];
        } else {
          clean := clean[..1];
        }
      } else if name != "." {
        PrintPush(stack, name);
        if clean != "/" {
          clean := clean + "/";
        }
        clean := clean + name;
      }
      stack := Apply(stack, name);
      left := left[1..];
      name := "";
      if next != -1 {
        name, next := PathParse(path, next);
      } else {
        SplitEmpty();
      }
    }
    assert left != [] ==> IsName(left[0]);
    ApplyNone(stack);
  }

  lemma SplitEmpty()
    ensures Split("") == []
  {
  }

  lemma ApplyNone(stack: seq<string>)
    ensures ApplyAll(stack, []) == stack
  {
  }

  lemma ApplyOne(stack: seq<string>, cs: seq<string>)
    requires cs != []
    ensures ApplyAll(stack, cs) == ApplyAll(Apply(stack, cs[0]), cs[1..])
  {
  }

  /** Where strrchr finds the last slash, and what is left after cutting there. */
  lemma LastSlashOfPrint(stack: seq<string>)
    requires forall c | c in stack :: IsName(c)
    ensures var p := Print(stack);
            var up := Print(Apply(stack, ".."));
            '/' in p
            && forall k: nat | k < |p| && p[k] == '/' && (forall j | k < j < |p| :: p[j] != '/') ::
                 up == if k != 0 then p[..k] else p[..1]
  {
    var p := Print(stack);
    if stack != [] {
      var init, c := stack[..|stack| - 1], stack[|stack| - 1];
      var n := |Join(init)|;
      assert p == Join(init) + "/" + c && p[n] == '/';
      assert IsName(c);
      JoinEmpty(init);
      JoinEmpty(stack);
      assert forall j | n < j < |p| :: p[j] == c[j - n - 1] && p[j] in c;
      assert p[..n] == Join(init);
    } else {
      assert p[0] == '/';
    }
  }

  lemma JoinEmpty(stack: seq<string>)
    ensures |Join(stack)| == 0 <==> stack == []
    ensures stack != [] ==> Join(stack)[0] == '/'
  {
    if stack != [] {
      JoinEmpty(stack[..|stack| - 1]);
    }
  }

  lemma PrintPush(stack: seq<string>, c: string)
    requires forall d | d in stack :: IsName(d)
    requires IsName(c)
    ensures Print(stack + [c]) == (if Print(stack) == "/" then "/" else Print(stack) + "/") + c
  {
    assert (stack + [c])[..|stack|] == stack;
    if stack != [] {
      assert IsName(stack[|stack| - 1]);
      assert |Print(stack)| > 1;
      assert Print(stack) != "/";
    } else {
      assert [] + [c] == [c] && "" + "/" == "/";
      assert Join([c]) == Join([]) + "/" + c;
    }
  }

  // ---------------------------------------------------------------- what washing does

  lemma {:induction false} SplitName(c: string, rest: string)
    requires IsName(c) && (rest == "" || rest[0] == '/')
    ensures Split(c + rest) == [c] + Split(rest)
  {
    var s := c + rest;
    NameLenOf(c, rest);
    assert SkipSlashes(s) == s;
    assert s[..|c|] == c && s[|c|..] == rest;
  }

  lemma {:induction false} NameLenOf(c: string, rest: string)
    requires '/' !in c && (rest == "" || rest[0] == '/')
    ensures NameLen(c + rest) == |c|
  {
    if c != "" {
      assert (c + rest)[1..] == c[1..] + rest;
      assert c[0] in c;
      NameLenOf(c[1..], rest);
    } else {
      assert c + rest == rest;
    }
  }

  /** Splitting a path at a slash splits its components. */
  lemma {:induction false} SplitAt(a: string, b: string)
    ensures Split(a + "/" + b) == Split(a) + Split(b)
    decreases |a|
  {
    var s := a + "/" + b;
    if a == "" {
      assert s == "/" + b && s[1..] == b;
      assert SkipSlashes(s) == SkipSlashes(b);
    } else if a[0] == '/' {
      assert s[1..] == a[1..] + "/" + b;
      assert SkipSlashes(s) == SkipSlashes(s[1..]) && SkipSlashes(a) == SkipSlashes(a[1..]);
      SplitAt(a[1..], b);
    } else {
      var n := NameLen(a);
      var c, rest := a[..n], a[n..];
      assert a == c + rest && s == c + (rest + "/" + b);
      assert IsName(c) by { assert c[0] == a[0]; }
      SplitName(c, rest);
      SplitName(c, rest + "/" + b);
      SplitAt(rest, b);
      assert [c] + (Split(rest) + Split(b)) == ([c] + Split(rest)) + Split(b);
    }
  }

  lemma {:induction false} SplitJoin(stack: seq<string>)
    requires forall c | c in stack :: IsName(c)
    ensures Split(Join(stack)) == stack
  {
    if stack != [] {
      var init, c := stack[..|stack| - 1], stack[|stack| - 1];
      SplitJoin(init);
      SplitAt(Join(init), c);
      assert c + "" == c;
      SplitName(c, "");
    }
  }

  lemma SplitPrint(stack: seq<string>)
    requires forall c | c in stack :: IsName(c)
    ensures Split(Print(stack)) == stack
  {
    SplitJoin(stack);
  }

  predicate IsClean(stack: seq<string>) {
    forall c | c in stack :: IsName(c) && c != "." && c != ".."
  }

  lemma AllNames(stack: seq<string>)
    requires IsClean(stack)
    ensures forall c | c in stack :: IsName(c)
  {
  }

  lemma {:induction false} ApplyAllIsClean(stack: seq<string>, cs: seq<string>)
    requires IsClean(stack) && forall c | c in cs :: IsName(c)
    ensures IsClean(ApplyAll(stack, cs))
    decreases |cs|
  {
    if cs != [] {
      ApplyAllIsClean(Apply(stack, cs[0]), cs[1..]);
    }
  }

  lemma {:induction false} ApplyClean(stack: seq<string>, cs: seq<string>)
    requires IsClean(cs)
    ensures ApplyAll(stack, cs) == stack + cs
    decreases |cs|
  {
    if cs != [] {
      assert cs[0] in cs;
      ApplyClean(stack + [cs[0]], cs[1..]);
      assert (stack + [cs[0]]) + cs[1..] == stack + cs;
    }
  }

  lemma {:induction false} ApplyConcat(stack: seq<string>, cs: seq<string>, ds: seq<string>)
    ensures ApplyAll(stack, cs + ds) == ApplyAll(ApplyAll(stack, cs), ds)
    decreases |cs|
  {
    if cs == [] {
      assert cs + ds == ds;
    } else {
      assert (cs + ds)[1..] == cs[1..] + ds;
      ApplyConcat(Apply(stack, cs[0]), cs[1..], ds);
    }
  }

  /** A washed path has no empty, "." or ".." component, and starts with a slash. */
  lemma WashedIsClean(path: string)
    ensures IsClean(Split(Washed(path))) && Split(Washed(path)) == ApplyAll([], Split(path))
    ensures Washed(path) != "" && Washed(path)[0] == '/'
  {
    ApplyAllIsClean([], Split(path));
    SplitPrint(ApplyAll([], Split(path)));
    JoinEmpty(ApplyAll([], Split(path)));
  }

  /** Washing twice is washing once. */
  lemma WashedTwice(path: string)
    ensures Washed(Washed(path)) == Washed(path)
  {
    hide Split, ApplyAll, Print, IsClean;
    WashedIsClean(path);
    var cs := Split(Washed(path));
    ApplyClean([], cs);
    assert [] + cs == cs;
  }

  function Size(cs: seq<string>): nat {
    if cs == [] then 0 else Size(cs[..|cs| - 1]) + 1 + |cs[|cs| - 1]|
  }

  lemma {:induction false} SizeCons(c: string, cs: seq<string>)
    ensures Size([c] + cs) == 1 + |c| + Size(cs)
    decreases |cs|
  {
    var all := [c] + cs;
    if cs == [] {
      assert all[..0] == [];
    } else {
      assert all[..|all| - 1] == [c] + cs[..|cs| - 1];
      SizeCons(c, cs[..|cs| - 1]);
    }
  }

  lemma {:induction false} SizeOfSplit(s: string)
    ensures Size(Split(s)) <= |s| + 1
    ensures s == "" || s[0] == '/' ==> Size(Split(s)) <= |s|
    decreases |s|
  {
    var t := SkipSlashes(s);
    if t != "" {
      var n := NameLen(t);
      SizeOfSplit(t[n..]);
      SizeCons(t[..n], Split(t[n..]));
    }
  }

  lemma {:induction false} SizeOfApplyAll(stack: seq<string>, cs: seq<string>)
    ensures Size(ApplyAll(stack, cs)) <= Size(stack) + Size(cs)
    decreases |cs|
  {
    if cs != [] {
      assert cs == [cs[0]] + cs[1..];
      SizeCons(cs[0], cs[1..]);
      assert (stack + [cs[0]])[..|stack|] == stack;
      SizeOfApplyAll(Apply(stack, cs[0]), cs[1..]);
    }
  }

  lemma SizeOfJoin(stack: seq<string>)
    ensures |Join(stack)| == Size(stack)
  {
  }

  /** The output buffer need not be longer than the input. */
  lemma WashedIsNoLonger(path: string)
    requires path != "" && path[0] == '/'
    ensures |Washed(path)| <= |path|
  {
    SizeOfSplit(path);
    SizeOfApplyAll([], Split(path));
    SizeOfJoin(ApplyAll([], Split(path)));
  }

  // ---------------------------------------------------------------- make_clear_abs_path

  method MakeClearAbsPath(path: string, cwd: string) returns (final: string)
    requires cwd != "" && cwd[0] == '/' && Fits(cwd) && Fits(path)
    ensures final == Resolve(cwd, path)
    ensures path != "" && path[0] == '/' ==> final == Washed(path)
    ensures path == "" || path[0] != '/' ==> final == Washed(if cwd == "/" then cwd + path else cwd + "/" + path)
  {
    hide Split, ApplyAll, Print;
    var abs := "";
    if path == "" || path[0] != '/' {
      abs := cwd;
      if cwd != "/" {
        abs := abs + "/";
      }
    }
    abs := abs + path;
    AbsSplits(cwd, path, abs);
    final := WashPath(abs);
    ApplyConcat([], Split(cwd), Split(path));
  }

  lemma AbsSplits(cwd: string, path: string, abs: string)
    requires cwd != "" && cwd[0] == '/' && Fits(cwd) && Fits(path)
    requires abs == if path != "" && path[0] == '/' then path else if cwd == "/" then cwd + path else cwd + "/" + path
    ensures Split(abs) == (if path == "" || path[0] != '/' then Split(cwd) + Split(path) else Split(path)) && Fits(abs)
  {
    hide NameLen, SkipSlashes;
    if path == "" || path[0] != '/' {
      if cwd == "/" {
        assert abs == "" + "/" + path;
        SplitAt("", path);
        SplitAt("", "");
        SplitEmpty();
        assert "" + "/" + "" == cwd;
      } else {
        SplitAt(cwd, path);
      }
    }
  }

  /** A path as seen from a directory: an absolute path from the root, any other from the directory's own components. */
  function Resolve(cwd: string, path: string): string {
    Print(ApplyAll(if path == "" || path[0] != '/' then ApplyAll([], Split(cwd)) else [], Split(path)))
  }

  /** Going to a and then to b is going to a/b. */
  lemma ResolveComposes(cwd: string, a: string, b: string)
    requires b == "" || b[0] != '/'
    ensures a != "" ==> Resolve(Resolve(cwd, a), b) == Resolve(cwd, a + "/" + b)
    ensures Resolve(cwd, a) == Washed(Resolve(cwd, a))
  {
    hide Split, ApplyAll, Print, IsClean;
    var from := if a == "" || a[0] != '/' then ApplyAll([], Split(cwd)) else [];
    var stack := ApplyAll(from, Split(a));
    ApplyAllIsClean([], Split(cwd));
    ApplyAllIsClean(from, Split(a));
    SplitPrint(stack);
    ApplyClean([], stack);
    assert [] + stack == stack;
    AllNames(stack);
    SplitAt(a, b);
    ApplyConcat(from, Split(a), Split(b));
  }
}
