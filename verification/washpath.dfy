/** Path washing (src/fs/bofs/dir.c:906-973). A path is the string before its terminating 0. */
module WashPaths {
  import opened Basics
  import opened Lists

  /** The parts of a path between its slashes, empty ones included. */
  function Split(path: string): (parts: seq<string>)
    ensures |parts| > 0
  {
    if |path| == 0 then [""]
    else if path[0] == '/' then [""] + Split(path[1..])
    else var rest := Split(path[1..]); [[path[0]] + rest[0]] + rest[1..]
  }

  /** What one part does to the directories on the way: nothing for an empty part and ".",
      one up for "..", which stays at the root, and one down for a name. */
  function Apply(stack: seq<string>, part: string): seq<string> {
    if part == "" || part == "." then stack
    else if part == ".." then (if |stack| == 0 then stack else stack[..|stack| - 1])
    else stack + [part]
  }

  function Resolve(stack: seq<string>, parts: seq<string>): seq<string>
    decreases |parts|
  {
    if |parts| == 0 then stack else Resolve(Apply(stack, parts[0]), parts[1..])
  }

  function Joined(stack: seq<string>): string {
    if |stack| == 0 then "" else "/" + stack[0] + Joined(stack[1..])
  }

  function Render(stack: seq<string>): string {
    if |stack| == 0 then "/" else Joined(stack)
  }

  /** The washed path: the directories that the parts lead to, from the root. */
  function Wash(path: string): string {
    Render(Resolve([], Split(path)))
  }

  predicate IsName(part: string) {
    part != "" && part != "." && part != ".." && '/' !in part
  }

  predicate AllNames(stack: seq<string>) {
    forall i :: 0 <= i < |stack| ==> IsName(stack[i])
  }

  lemma {:induction false} SplitHasNoSlash(path: string, i: nat)
    requires i < |Split(path)|
    ensures '/' !in Split(path)[i]
  {
    if |path| > 0 {
      if path[0] == '/' {
        if i > 0 { SplitHasNoSlash(path[1..], i - 1); }
      } else {
        SplitHasNoSlash(path[1..], i);
      }
    }
  }

  lemma {:induction false} ResolveNames(stack: seq<string>, parts: seq<string>)
    requires AllNames(stack) && forall i :: 0 <= i < |parts| ==> '/' !in parts[i]
    ensures AllNames(Resolve(stack, parts))
    decreases |parts|
  {
    if |parts| > 0 {
      ResolveNames(Apply(stack, parts[0]), parts[1..]);
    }
  }

  lemma {:induction false} JoinedAppend(a: seq<string>, b: seq<string>)
    ensures Joined(a + b) == Joined(a) + Joined(b)
  {
    if |a| == 0 {
      assert a + b == b;
      assert Joined(a) + Joined(b) == Joined(b);
    } else {
      JoinedAppend(a[1..], b);
      assert (a + b)[1..] == a[1..] + b && (a + b)[0] == a[0];
      Associates("/" + a[0], Joined(a[1..]), Joined(b));
    }
  }

  lemma JoinedOne(name: string)
    ensures Joined([name]) == "/" + name
  {
    assert [name][1..] == [];
  }

  lemma JoinedLast(stack: seq<string>)
    requires |stack| > 0
    ensures var n := |stack| - 1; Joined(stack) == Joined(stack[..n]) + "/" + stack[n]
  {
    hide Joined;
    var n := |stack| - 1;
    assert stack == stack[..n] + [stack[n]];
    JoinedAppend(stack[..n], [stack[n]]);
    JoinedOne(stack[n]);
    Associates(Joined(stack[..n]), "/", stack[n]);
  }

  /** A name up to a slash or the end is one part. */
  lemma {:induction false} SplitName(name: string, rest: string)
    requires '/' !in name && (rest == "" || rest[0] == '/')
    ensures Split(name + rest) == [name] + (if rest == "" then [] else Split(rest[1..]))
  {
    if |name| == 0 {
      assert name + rest == rest;
    } else {
      var path, tail := name + rest, if rest == "" then [] else Split(rest[1..]);
      SplitName(name[1..], rest);
      assert path[1..] == name[1..] + rest && path[0] == name[0];
      assert Split(path[1..]) == [name[1..]] + tail;
      assert Split(path[1..])[0] == name[1..] && Split(path[1..])[1..] == tail;
      assert Split(path) == [[path[0]] + name[1..]] + tail;
      assert [name[0]] + name[1..] == name;
    }
  }

  lemma {:induction false} SplitJoined(stack: seq<string>)
    requires AllNames(stack)
    ensures Split(Joined(stack)) == [""] + stack
  {
    if |stack| > 0 {
      var rest, later := Joined(stack[1..]), stack[1..];
      SplitJoined(later);
      SplitName(stack[0], rest);
      var path := stack[0] + rest;
      assert Joined(stack) == "/" + path by { Associates("/", stack[0], rest); }
      assert ("/" + path)[1..] == path;
      assert Split(path) == [stack[0]] + later by {
        if rest != "" {
          assert Split(rest) == [""] + Split(rest[1..]);
          assert Split(rest)[1..] == Split(rest[1..]) && ([""] + later)[1..] == later;
        } else {
          assert |Split(rest)| == 1 && later == [];
        }
      }
      assert stack == [stack[0]] + later;
    }
  }

  lemma {:induction false} ResolveNamesPushes(stack: seq<string>, parts: seq<string>)
    requires AllNames(parts)
    ensures Resolve(stack, parts) == stack + parts
    decreases |parts|
  {
    if |parts| > 0 {
      ResolveNamesPushes(stack + [parts[0]], parts[1..]);
      assert stack + parts == stack + [parts[0]] + parts[1..];
    }
  }

  lemma WashedNames(path: string)
    ensures AllNames(Resolve([], Split(path)))
  {
    forall i | 0 <= i < |Split(path)| ensures '/' !in Split(path)[i] {
      SplitHasNoSlash(path, i);
    }
    ResolveNames([], Split(path));
  }

  /** A washed path is absolute; it is the root, or has no empty part, "." or ".." behind its
      first slash and no slash at its end. */
  lemma WashIsClean(path: string)
    ensures var w := Wash(path);
      && |w| > 0 && w[0] == '/'
      && (w == "/" || (w[|w| - 1] != '/' && AllNames(Split(w)[1..]) && Split(w)[0] == ""))
  {
    WashedNames(path);
    var stack := Resolve([], Split(path));
    if |stack| > 0 {
      SplitJoined(stack);
      JoinedLast(stack);
      var last := stack[|stack| - 1];
      assert IsName(last) && last[|last| - 1] in last;
    }
  }

  /** Washing keeps the directory that a path means. */
  lemma WashKeepsMeaning(path: string)
    ensures Resolve([], Split(Wash(path))) == Resolve([], Split(path))
  {
    WashedNames(path);
    var stack := Resolve([], Split(path));
    if |stack| == 0 {
      assert Split("/") == [""] + Split("") && Split("/")[1..] == [""];
      assert Resolve([], ["", ""]) == Resolve([], [""]) == Resolve([], []) by {
        assert ["", ""][1..] == [""] && [""][1..] == [];
      }
    } else {
      SplitJoined(stack);
      assert ([""] + stack)[1..] == stack;
      ResolveNamesPushes([], stack);
    }
  }

  lemma WashIsIdempotent(path: string)
    ensures Wash(Wash(path)) == Wash(path)
  {
    WashKeepsMeaning(path);
  }

  /** Where a name and the rest of the path behind it lead. */
  function AfterName(stack: seq<string>, name: string, rest: Option<string>): seq<string> {
    if rest.None? then Apply(stack, name) else Resolve(Apply(stack, name), Split(rest.value))
  }

  /** BOFS_ParsePathAfterward: the next name, and the rest from the slash behind it, if any. */
  method ParsePathAfterward(path: string) returns (name: string, rest: Option<string>)
    ensures forall stack :: Resolve(stack, Split(path)) == AfterName(stack, name, rest)
    ensures '/' !in name && (rest.Some? ==> name != "" && rest.value != "" && rest.value[0] == '/' && |rest.value| < |path|)
  {
    var i := 0;
    if |path| > 0 && path[0] == '/' {
      i := 1;
      while i < |path| && path[i] == '/'
        invariant 1 <= i <= |path| && forall j :: 0 <= j < i ==> path[j] == '/'
      {
        i := i + 1;
      }
    }
    SkipSlashes(path, i);
    var start := i;
    name := "";
    while i < |path| && path[i] != '/'
      invariant start <= i <= |path| && name == path[start..i] && '/' !in name
    {
      name := name + [path[i]];
      i := i + 1;
    }
    assert path[start..] == name + path[i..];
    NameThenRest(name, path[i..]);
    rest := if i == |path| then None else Some(path[i..]);
  }

  lemma {:induction false} SkipSlashes(path: string, i: nat)
    requires i <= |path| && forall j :: 0 <= j < i ==> path[j] == '/'
    ensures forall stack :: Resolve(stack, Split(path)) == Resolve(stack, Split(path[i..]))
  {
    if i == 0 {
      assert path[0..] == path;
    } else {
      SkipSlashes(path[1..], i - 1);
      assert path[1..][i - 1..] == path[i..];
      assert Split(path)[1..] == Split(path[1..]);
      assert forall stack :: Resolve(stack, Split(path)) == Resolve(Apply(stack, ""), Split(path)[1..]);
    }
  }

  lemma NameThenRest(name: string, rest: string)
    requires '/' !in name && (rest == "" || rest[0] == '/')
    ensures forall stack ::
      Resolve(stack, Split(name + rest)) == AfterName(stack, name, if rest == "" then None else Some(rest))
  {
    SplitName(name, rest);
    assert Split(name + rest)[1..] == if rest == "" then [] else Split(rest[1..]);
    if rest != "" {
      assert Split(rest)[1..] == Split(rest[1..]);
    }
  }

  /** The last slash of a string that has one. */
  method StrRChr(s: string) returns (k: nat)
    requires '/' in s
    ensures k < |s| && s[k] == '/' && forall j :: k < j < |s| ==> s[j] != '/'
  {
    k := |s| - 1;
    while s[k] != '/'
      decreases k
      invariant 0 <= k < |s| && forall j :: k < j < |s| ==> s[j] != '/'
    {
      assert k > 0;
      k := k - 1;
    }
  }

  /** Cutting the last name off at its slash, but not the root's, goes one up. */
  lemma CutLast(stack: seq<string>, k: nat)
    requires AllNames(stack) && k < |Render(stack)| && Render(stack)[k] == '/'
    requires forall j :: k < j < |Render(stack)| ==> Render(stack)[j] != '/'
    ensures Render(Apply(stack, "..")) == if k != 0 then Render(stack)[..k] else "/"
  {
    if |stack| > 0 {
      var n := |stack| - 1;
      JoinedLast(stack);
      var at := |Joined(stack[..n])|;
      var name := stack[n];
      assert IsName(name);
      assert Render(stack)[at] == '/';
      assert forall j :: at < j < |Render(stack)| ==> Render(stack)[j] == name[j - at - 1];
      assert k == at;
      if n > 0 {
        assert |Joined(stack[..n])| > 0;
      }
    }
  }

  lemma PushName(stack: seq<string>, name: string)
    requires AllNames(stack) && IsName(name)
    ensures Render(Apply(stack, name)) == (if Render(stack) == "/" then "/" else Render(stack) + "/") + name
  {
    JoinedLast(stack + [name]);
    assert (stack + [name])[..|stack|] == stack;
    if |stack| > 0 {
      assert IsName(stack[0]) && |Joined(stack)| > 1;
    }
  }

  /** BOFS_WashPath: edits the output in place for each part of the path. */
  method WashPath(oldAbsPath: string) returns (newAbsPath: string)
    requires oldAbsPath != "" && oldAbsPath[0] == '/'
    ensures newAbsPath == Wash(oldAbsPath)
  {
    hide Resolve, Split, Render, Joined, AllNames;
    var name, subPath := ParsePathAfterward(oldAbsPath);
    if name == "" {
      assert Render(Apply([], name)) == "/" by { RenderRoot(); }
      return "/";
    }
    newAbsPath := "" + "/";
    ghost var stack: seq<string> := [];
    ghost var target := Resolve([], Split(oldAbsPath));
    RenderRoot();
    while name != ""
      invariant AllNames(stack) && newAbsPath == Render(stack) && '/' !in name
      invariant subPath.Some? ==> name != "" && subPath.value != "" && subPath.value[0] == '/'
      invariant target == AfterName(stack, name, subPath)
      decreases if subPath.Some? then |subPath.value| + 2 else 0, if name != "" then 1 else 0
    {
      ghost var before := stack;
      stack := Apply(stack, name);
      if name == ".." {
        HasSlash(before);
        var slash := StrRChr(newAbsPath);
        CutLast(before, slash);
        if slash != 0 {
          newAbsPath := newAbsPath[..slash];
        } else {
          newAbsPath := newAbsPath[..slash + 1];
          HasSlash(before);
        }
      } else if name != "." {
        PushName(before, name);
        if newAbsPath != "/" {
          newAbsPath := newAbsPath + "/";
        }
        newAbsPath := newAbsPath + name;
      }
      StillNames(before, name);
      name := "";
      if subPath.Some? {
        name, subPath := ParsePathAfterward(subPath.value);
      }
    }
  }

  lemma RenderRoot()
    ensures Render([]) == "/" && AllNames([])
  {
  }

  lemma HasSlash(stack: seq<string>)
    ensures |Render(stack)| > 0 && Render(stack)[0] == '/' && '/' in Render(stack)
  {
  }

  lemma StillNames(stack: seq<string>, name: string)
    requires AllNames(stack) && '/' !in name && name != ""
    ensures AllNames(Apply(stack, name))
  {
  }
}
