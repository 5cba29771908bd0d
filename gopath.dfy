/** Go's slash-separated path package as far as list.go and imageproc.go
    use it: Clean, Join of two elements, Dir and Ext.

    Clean follows the lexical rules Go documents for it:
      1. runs of slashes count as one,
      2. "." elements are dropped,
      3. an inner ".." removes the non-".." element before it,
      4. a ".." at the start of a rooted path is dropped,
    and an empty result becomes ".". Here the path is cut into elements at
    every '/', rules 1 and 2 drop the empty and "." elements, and rules 3
    and 4 are a left-to-right pass over the rest with a stack of kept
    elements; that gives the same string as Go's one-pass byte loop. */
module GoPath {
  import opened Text

  /** An element that survives rules 1 and 2: not empty, not ".", no '/'.
      It may be "..". */
  predicate IsElement(e: string)
  {
    e != "" && e != "." && '/' !in e
  }

  /** A name a directory listing can hold: an element other than "..". */
  predicate IsName(e: string)
  {
    IsElement(e) && e != ".."
  }

  predicate IsRooted(p: string)
  {
    |p| > 0 && p[0] == '/'
  }

  /** Rules 1 and 2: drop the empty and the "." pieces. */
  function KeepElements(parts: seq<string>): seq<string>
  {
    if parts == [] then []
    else (if parts[0] == "" || parts[0] == "." then [] else [parts[0]]) + KeepElements(parts[1..])
  }

  /** The elements of `p` that rules 3 and 4 work on. */
  function Elements(p: string): seq<string>
  {
    KeepElements(Split(p, '/'))
  }

  /** One step of rules 3 and 4: `e` arrives at the kept elements `stack`. */
  function Step(rooted: bool, stack: seq<string>, e: string): seq<string>
  {
    if e == ".." then
      if |stack| > 0 && stack[|stack| - 1] != ".." then stack[..|stack| - 1]
      else if rooted then stack
      else stack + [".."]
    else stack + [e]
  }

  /** Rules 3 and 4 over `es`, left to right, starting from `stack`. */
  function Resolve(rooted: bool, stack: seq<string>, es: seq<string>): seq<string>
    decreases |es|
  {
    if es == [] then stack else Resolve(rooted, Step(rooted, stack, es[0]), es[1..])
  }

  /** The text of a cleaned path with kept elements `stack`. */
  function Render(rooted: bool, stack: seq<string>): string
  {
    if rooted then "/" + Join(stack, '/')
    else if stack == [] then "."
    else Join(stack, '/')
  }

  /** The kept elements of `p` once all four rules are applied. */
  function CleanElements(p: string): seq<string>
  {
    Resolve(IsRooted(p), [], Elements(p))
  }

  /** path.Clean. */
  function Clean(p: string): (c: string)
    ensures c != ""
  {
    CleanElementsNormal(p);
    Render(IsRooted(p), CleanElements(p))
  }

  /** path.Join(a, b): empty arguments are skipped, the rest joined by '/'
      and cleaned; "" when both are empty. */
  function JoinPath(a: string, b: string): (r: string)
    ensures r == "" <==> a == "" && b == ""
  {
    if a == "" then (if b == "" then "" else Clean(b))
    else Clean(a + "/" + b)
  }

  /** The index of the last '/', or -1. */
  function LastSlash(p: string): (i: int)
    ensures -1 <= i < |p|
    ensures 0 <= i ==> p[i] == '/'
    ensures forall k :: i < k < |p| ==> p[k] != '/'
  {
    if p == [] then -1
    else if p[|p| - 1] == '/' then |p| - 1
    else LastSlash(p[..|p| - 1])
  }

  /** path.Dir: everything up to the last '/', cleaned. */
  function Dir(p: string): (d: string)
    ensures d != ""
  {
    Clean(p[..LastSlash(p) + 1])
  }

  /** path.Ext: the suffix from the last '.' of the final element on, or ""
      when the final element has no '.'. */
  function Ext(p: string): (e: string)
    ensures e == "" || (e[0] == '.' && '/' !in e && '.' !in e[1..] && |e| <= |p| && e == p[|p| - |e|..])
    ensures e == "" <==> forall k :: LastSlash(p) < k < |p| ==> p[k] != '.'
  {
    if p == [] || p[|p| - 1] == '/' then ""
    else if p[|p| - 1] == '.' then "."
    else
      var e := Ext(p[..|p| - 1]);
      if e == "" then "" else e + [p[|p| - 1]]
  }

  /** What a path inside the clean directory `c` starts with: nothing for
      ".", "/" for the root, `c` and a slash otherwise. */
  function DirPrefix(c: string): string
  {
    if c == "." then "" else if c == "/" then "/" else c + "/"
  }

  /** The path of the entry `name` inside the clean directory `c`. */
  function Child(c: string, name: string): string
  {
    DirPrefix(c) + name
  }

  /** What lies inside a child lies inside its parent too. */
  lemma DirPrefixOfChild(c: string, name: string)
    requires IsName(name)
    ensures DirPrefix(Child(c, name)) == DirPrefix(c) + name + "/"
  {
    assert Child(c, name) != "." && Child(c, name) != "/" by {
      if c == "." {
        assert Child(c, name) == name;
      } else if c == "/" {
        assert |Child(c, name)| == 1 + |name|;
      } else {
        assert |Child(c, name)| == |c| + 1 + |name|;
      }
    }
  }

  /** The kept elements are elements; the rooted ones hold no ".."; in the
      others every ".." comes before every other element. */
  ghost predicate Normal(rooted: bool, stack: seq<string>)
  {
    && (forall i :: 0 <= i < |stack| ==> IsElement(stack[i]))
    && (forall i, j :: 0 <= i < j < |stack| && stack[j] == ".." ==> stack[i] == "..")
    && (rooted ==> forall i :: 0 <= i < |stack| ==> stack[i] != "..")
  }

  lemma StepNormal(rooted: bool, stack: seq<string>, e: string)
    requires Normal(rooted, stack) && IsElement(e)
    ensures Normal(rooted, Step(rooted, stack, e))
  {
    if e == ".." && !(|stack| > 0 && stack[|stack| - 1] != "..") && !rooted {
      var s := stack + [".."];
      forall i, j | 0 <= i < j < |s| && s[j] == ".."
        ensures s[i] == ".."
      {
        if j < |stack| {
        } else if i < |stack| - 1 {
          assert stack[|stack| - 1] == "..";
        }
      }
    }
  }

  lemma {:induction false} ResolveNormal(rooted: bool, stack: seq<string>, es: seq<string>)
    requires Normal(rooted, stack)
    requires forall i :: 0 <= i < |es| ==> IsElement(es[i])
    ensures Normal(rooted, Resolve(rooted, stack, es))
    decreases |es|
  {
    if es != [] {
      StepNormal(rooted, stack, es[0]);
      ResolveNormal(rooted, Step(rooted, stack, es[0]), es[1..]);
    }
  }

  /** Rules 1 and 2 leave only elements. */
  lemma {:induction false} KeepPieces(parts: seq<string>)
    requires forall i :: 0 <= i < |parts| ==> '/' !in parts[i]
    ensures forall i :: 0 <= i < |KeepElements(parts)| ==> IsElement(KeepElements(parts)[i])
  {
    if parts != [] {
      KeepPieces(parts[1..]);
    }
  }

  lemma ElementsAreElements(p: string)
    ensures forall i :: 0 <= i < |Elements(p)| ==> IsElement(Elements(p)[i])
  {
    SplitPieces(p, '/');
    KeepPieces(Split(p, '/'));
  }

  /** What Clean keeps is in normal form. */
  lemma CleanElementsNormal(p: string)
    ensures Normal(IsRooted(p), CleanElements(p))
  {
    ElementsAreElements(p);
    ResolveNormal(IsRooted(p), [], Elements(p));
  }

  lemma {:induction false} ResolveSnoc(rooted: bool, stack: seq<string>, es: seq<string>, e: string)
    ensures Resolve(rooted, stack, es + [e]) == Step(rooted, Resolve(rooted, stack, es), e)
    decreases |es|
  {
    if es == [] {
      assert Resolve(rooted, Step(rooted, stack, e), []) == Step(rooted, stack, e);
      assert [e][1..] == [];
    } else {
      assert (es + [e])[0] == es[0];
      assert (es + [e])[1..] == es[1..] + [e];
      ResolveSnoc(rooted, Step(rooted, stack, es[0]), es[1..], e);
    }
  }

  /** Rules 3 and 4 change nothing in normal form. */
  lemma {:induction false} ResolveOfNormal(rooted: bool, stack: seq<string>)
    requires Normal(rooted, stack)
    ensures Resolve(rooted, [], stack) == stack
    decreases |stack|
  {
    var n := |stack|;
    if n > 0 {
      var front := stack[..n - 1];
      assert Normal(rooted, front);
      ResolveOfNormal(rooted, front);
      assert stack == front + [stack[n - 1]];
      ResolveSnoc(rooted, [], front, stack[n - 1]);
      if stack[n - 1] == ".." && n > 1 {
        assert front[n - 2] == "..";
      }
    }
  }

  lemma {:induction false} KeepAppend(a: seq<string>, b: seq<string>)
    ensures KeepElements(a + b) == KeepElements(a) + KeepElements(b)
  {
    if a != [] {
      var head := if a[0] == "" || a[0] == "." then [] else [a[0]];
      assert (a + b)[0] == a[0];
      assert (a + b)[1..] == a[1..] + b;
      assert KeepElements(a + b) == head + KeepElements(a[1..] + b);
      KeepAppend(a[1..], b);
    } else {
      assert a + b == b;
    }
  }

  lemma {:induction false} KeepOfElements(es: seq<string>)
    requires forall i :: 0 <= i < |es| ==> IsElement(es[i])
    ensures KeepElements(es) == es
  {
    if es != [] {
      KeepOfElements(es[1..]);
    }
  }

  /** Reading a rendered normal form back gives the same elements and the
      same rootedness. */
  lemma RenderElements(rooted: bool, stack: seq<string>)
    requires Normal(rooted, stack)
    ensures Elements(Render(rooted, stack)) == stack
    ensures IsRooted(Render(rooted, stack)) == rooted
  {
    var j := Join(stack, '/');
    KeepOfElements(stack);
    if stack != [] {
      SplitJoin(stack, '/');
    }
    if rooted {
      assert "/" + j == "" + ['/'] + j;
      SplitAround("", j, '/');
      KeepAppend([""], Split(j, '/'));
      if stack == [] {
        assert Split("", '/') == [""];
      }
    } else if stack == [] {
      SplitPlain(".", '/');
    } else {
      JoinOfElements(stack);
    }
  }

  /** Clean is idempotent: a cleaned path is already clean. */
  lemma CleanIdempotent(p: string)
    ensures Clean(Clean(p)) == Clean(p)
  {
    var r, st := IsRooted(p), CleanElements(p);
    CleanElementsNormal(p);
    RenderElements(r, st);
    ResolveOfNormal(r, st);
  }

  /** Appending "/" and a name adds that name as one more element. */
  lemma {:induction false} ElementsChild(p: string, name: string)
    requires IsName(name)
    ensures Elements(p + "/" + name) == Elements(p) + [name]
  {
    assert p + "/" + name == p + ['/'] + name;
    SplitAround(p, name, '/');
    SplitPlain(name, '/');
    KeepAppend(Split(p, '/'), [name]);
    assert KeepElements([name]) == [name];
  }

  /** A join of elements starts with the first element; it is "." only when
      that is all there is. */
  lemma JoinOfElements(stack: seq<string>)
    requires |stack| >= 1
    requires forall i :: 0 <= i < |stack| ==> IsElement(stack[i])
    ensures |stack[0]| > 0 && |Join(stack, '/')| > 0 && Join(stack, '/')[0] == stack[0][0]
    ensures Join(stack, '/') != "."
  {
    if |stack| > 1 {
      assert Join(stack, '/') == stack[0] + ['/'] + Join(stack[1..], '/');
    }
  }

  /** Rendering one more (non-"..") element puts it under the rendering of
      the others. */
  lemma {:induction false} RenderChild(rooted: bool, stack: seq<string>, name: string)
    requires forall i :: 0 <= i < |stack| ==> IsElement(stack[i])
    requires IsName(name)
    ensures Render(rooted, stack + [name]) == Child(Render(rooted, stack), name)
  {
    if stack == [] {
      assert Join([name], '/') == name;
      assert Render(rooted, stack) == (if rooted then "/" else ".");
    } else {
      JoinSnoc(stack, name, '/');
      JoinOfElements(stack);
    }
  }

  /** Appending "/" and a name to a path and cleaning gives the name placed
      under the cleaned path. */
  lemma {:induction false} CleanChild(p: string, name: string)
    requires p != "" && IsName(name)
    ensures Clean(p + "/" + name) == Child(Clean(p), name)
  {
    var q := p + "/" + name;
    ElementsChild(p, name);
    assert IsRooted(q) == IsRooted(p);
    var r, st := IsRooted(p), CleanElements(p);
    ResolveSnoc(r, [], Elements(p), name);
    assert CleanElements(q) == st + [name];
    CleanElementsNormal(p);
    RenderChild(r, st, name);
  }

  /** path.Join of a non-empty directory and a name is the name under the
      cleaned directory. */
  lemma JoinPathChild(dir: string, name: string)
    requires dir != "" && IsName(name)
    ensures JoinPath(dir, name) == Child(Clean(dir), name)
  {
    CleanChild(dir, name);
  }

  /** Different names give different children of one directory. */
  lemma ChildInjective(c: string, a: string, b: string)
    requires Child(c, a) == Child(c, b)
    ensures a == b
  {
    var prefix := DirPrefix(c);
    assert a == (prefix + a)[|prefix|..];
    assert b == (prefix + b)[|prefix|..];
  }

  /** Cleaning keeps a path rooted exactly when it was. */
  lemma CleanRooted(p: string)
    ensures IsRooted(Clean(p)) == IsRooted(p)
  {
    CleanElementsNormal(p);
    RenderElements(IsRooted(p), CleanElements(p));
  }

  /** Rules 3 and 4 only push when there is no "..". */
  lemma {:induction false} ResolveWithoutDotDot(rooted: bool, stack: seq<string>, es: seq<string>)
    requires ".." !in es
    ensures Resolve(rooted, stack, es) == stack + es
    decreases |es|
  {
    if es != [] {
      assert es[0] != ".." && ".." !in es[1..];
      ResolveWithoutDotDot(rooted, stack + [es[0]], es[1..]);
      assert stack + [es[0]] + es[1..] == stack + es;
    }
  }

  /** A trailing slash changes nothing once cleaned. */
  lemma CleanTrailingSlash(p: string)
    requires p != ""
    ensures Clean(p + "/") == Clean(p)
  {
    assert Elements(p + "/") == Elements(p) by {
      assert p + "/" == p + ['/'] + "";
      SplitAround(p, "", '/');
      KeepAppend(Split(p, '/'), [""]);
      assert KeepElements([""]) == [];
    }
    assert IsRooted(p + "/") == IsRooted(p);
  }

  /** path.Dir undoes placing a name inside a cleaned directory. */
  lemma DirOfChild(c: string, name: string)
    requires c != "" && Clean(c) == c && IsName(name)
    ensures Dir(Child(c, name)) == c
  {
    var pre, p := DirPrefix(c), Child(c, name);
    var i := LastSlash(p);
    assert forall k :: |pre| <= k < |p| ==> p[k] == name[k - |pre|];
    assert i == |pre| - 1 by {
      if pre != [] {
        assert p[|pre| - 1] == '/';
      }
    }
    assert p[..i + 1] == pre;
    if c == "." {
      assert Clean("") == ".";
    } else if c == "/" {
      assert Clean("/") == "/" by {
        assert Elements("/") == [] by {
          assert Split("/", '/') == ["", ""];
        }
      }
    } else {
      CleanTrailingSlash(c);
    }
  }
}
