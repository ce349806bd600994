/**
 Slash-separated paths as `path/filepath` handles them on a Unix system:
 `Base`, `Dir`, `Ext`, `Join` and the lexical `Clean` they rely on, plus the
 two `strings` helpers used on file names (`TrimSuffix`, `ToLower`).

 `Clean` is stated as an element stack: the path is cut at every slash, empty
 and `.` elements vanish, `..` removes the element before it when there is
 one that is not itself `..`, is dropped at the root, and is kept otherwise.
 Rejoining the stack with single slashes (behind a leading slash for a rooted
 path) gives the cleaned path, and `.` when nothing is left.
 */
module Paths {

  /** Position of the last `c` in `s`, or -1 when `s` has none. */
  function LastIndex(s: string, c: char): (k: int)
    ensures -1 <= k < |s|
  {
    if |s| == 0 then -1
    else if s[|s| - 1] == c then |s| - 1
    else LastIndex(s[..|s| - 1], c)
  }

  /** The position found holds `c`, and no later one does. */
  lemma {:induction false} LastIndexSpec(s: string, c: char)
    ensures 0 <= LastIndex(s, c) ==> s[LastIndex(s, c)] == c
    ensures forall j :: LastIndex(s, c) < j < |s| ==> s[j] != c
  {
    if |s| > 0 && s[|s| - 1] != c {
      LastIndexSpec(s[..|s| - 1], c);
    }
  }

  /** The text after the last slash: the whole of `s` when it has none. */
  function AfterSlash(s: string): string {
    s[LastIndex(s, '/') + 1..]
  }

  /** The last element holds no slash and ends the path. */
  lemma AfterSlashSpec(s: string)
    ensures '/' !in AfterSlash(s)
    ensures |AfterSlash(s)| <= |s| && AfterSlash(s) == s[|s| - |AfterSlash(s)|..]
  {
    LastIndexSpec(s, '/');
  }

  /** The elements between slashes, in order. */
  function Elements(s: string): (es: seq<string>)
    ensures 1 <= |es|
    ensures es[|es| - 1] == AfterSlash(s)
  {
    var k := LastIndex(s, '/');
    if k < 0 then [s] else Elements(s[..k]) + [s[k + 1..]]
  }

  /** The elements rejoined with single slashes. */
  function JoinSlash(es: seq<string>): string {
    if |es| == 0 then ""
    else if |es| == 1 then es[0]
    else JoinSlash(es[..|es| - 1]) + "/" + es[|es| - 1]
  }

  predicate Rooted(s: string) {
    0 < |s| && s[0] == '/'
  }

  /** An element that names something: not empty, not `.`, not `..`. */
  predicate Named(e: string) {
    e != "" && e != "." && e != ".."
  }

  /** What one element does to the stack of a path being cleaned. */
  function Step(stack: seq<string>, e: string, rooted: bool): seq<string> {
    if e == "" || e == "." then stack
    else if e == ".." then
      if 0 < |stack| && stack[|stack| - 1] != ".." then stack[..|stack| - 1]
      else if rooted then stack
      else stack + [".."]
    else stack + [e]
  }

  /** The stack left after every element has been processed, left to right. */
  function Resolve(es: seq<string>, rooted: bool): seq<string> {
    if |es| == 0 then []
    else Step(Resolve(es[..|es| - 1], rooted), es[|es| - 1], rooted)
  }

  /** A stack written out as a path: behind a slash when rooted, `.` when nothing is left of a relative path. */
  function Render(stack: seq<string>, rooted: bool): string {
    if rooted then "/" + JoinSlash(stack)
    else if |stack| == 0 then "."
    else JoinSlash(stack)
  }

  /** `filepath.Clean`: the shortest lexically equivalent path. */
  function Clean(s: string): string {
    Render(Resolve(Elements(s), Rooted(s)), Rooted(s))
  }

  /** `filepath.Base`: the last element, trailing slashes ignored; `.` for the empty path, `/` for a path of slashes. */
  function Base(s: string): string {
    if s == "" then "."
    else
      var t := TrimTrailingSlashes(s);
      var b := AfterSlash(t);
      if b == "" then "/" else b
  }

  function TrimTrailingSlashes(s: string): (t: string)
    ensures |t| <= |s| && t == s[..|t|]
    ensures |t| == 0 || t[|t| - 1] != '/'
  {
    if 0 < |s| && s[|s| - 1] == '/' then TrimTrailingSlashes(s[..|s| - 1]) else s
  }

  /** `filepath.Dir`: everything up to the last slash, cleaned. */
  function Dir(s: string): string {
    Clean(s[..LastIndex(s, '/') + 1])
  }

  /** `filepath.Ext`: from the last dot of the last element on, or empty when that element has no dot. */
  function Ext(s: string): string {
    var name := AfterSlash(s);
    var k := LastIndex(name, '.');
    if k < 0 then "" else name[k..]
  }

  /** `filepath.Join` of two elements: empty elements are skipped, the rest joined by a slash and cleaned. */
  function Join(a: string, b: string): string {
    if a != "" then Clean(a + "/" + b)
    else if b != "" then Clean(b)
    else ""
  }

  predicate HasSuffix(s: string, suffix: string) {
    |suffix| <= |s| && s[|s| - |suffix|..] == suffix
  }

  /** `strings.TrimSuffix`: `s` without `suffix` when it ends with it, `s` unchanged otherwise. */
  function TrimSuffix(s: string, suffix: string): (r: string)
    ensures HasSuffix(s, suffix) ==> r + suffix == s
    ensures !HasSuffix(s, suffix) ==> r == s
  {
    if HasSuffix(s, suffix) then s[..|s| - |suffix|] else s
  }

  function LowerChar(c: char): char {
    if 'A' <= c <= 'Z' then (c as int + 32) as char else c
  }

  /**
   `strings.ToLower`, on ASCII letters. No other character lowers to an ASCII
   digit, dot or letter m or p, so comparing the result with `.mp3` is exact.
   */
  function LowerAscii(s: string): (r: string)
    ensures |r| == |s|
    ensures forall i :: 0 <= i < |s| ==> r[i] == LowerChar(s[i])
  {
    if |s| == 0 then [] else [LowerChar(s[0])] + LowerAscii(s[1..])
  }

  // ---------------------------------------------------------------------------
  // Properties
  // ---------------------------------------------------------------------------

  /** Cutting at the slashes and rejoining gives the path back. */
  lemma {:induction false} JoinElements(s: string)
    ensures JoinSlash(Elements(s)) == s
    decreases |s|
  {
    var k := LastIndex(s, '/');
    if 0 <= k {
      JoinElements(s[..k]);
      JoinSnoc(Elements(s[..k]), s[k + 1..]);
      LastIndexSpec(s, '/');
      SplitAt(s, k);
    }
  }

  lemma JoinSnoc(init: seq<string>, e: string)
    requires 1 <= |init|
    ensures JoinSlash(init + [e]) == JoinSlash(init) + "/" + e
  {
    assert (init + [e])[..|init|] == init;
  }

  lemma SplitAt(s: string, k: nat)
    requires k < |s| && s[k] == '/'
    ensures s == s[..k] + "/" + s[k + 1..]
  {
  }

  /** A last element that ends in a dot followed by no other dot has that ending as its extension. */
  lemma ExtOfDotTail(x: string, a: string, tail: string)
    requires AfterSlash(x) == a + tail
    requires 1 <= |tail| && tail[0] == '.' && '.' !in tail[1..]
    ensures Ext(x) == tail
  {
    LastIndexSpec(tail, '.');
    LastIndexConcat(a, tail, '.');
    assert (a + tail)[|a|..] == tail;
  }

  /** The extension is what ends the base name: the base name is the stem followed by it. */
  lemma ExtIsSuffix(s: string)
    ensures HasSuffix(AfterSlash(s), Ext(s))
  {
  }

  /** The text after the last slash of a path is a suffix of it, and so is the extension. */
  lemma ExtEndsPath(s: string)
    ensures HasSuffix(s, Ext(s))
  {
    ExtIsSuffix(s);
    AfterSlashSpec(s);
    var a := AfterSlash(s);
    var e := Ext(s);
    assert s[|s| - |e|..] == a[|a| - |e|..];
  }

  /** A path with a slash in front of `t` ends in `t`'s last element. */
  lemma AfterSlashBehind(p: string, t: string)
    ensures AfterSlash(p + "/" + t) == AfterSlash(t)
  {
    LastIndexConcat(p + "/", t, '/');
    LastIndexConcat(p, "/", '/');
    LastIndexSpec(t, '/');
    var k := LastIndex(t, '/');
    assert (p + "/" + t)[|p| + 1 + k + 1..] == t[k + 1..];
  }

  /** Appending text without a slash extends the last element by exactly that text. */
  lemma AfterSlashAppend(s: string, t: string)
    requires '/' !in t
    ensures AfterSlash(s + t) == AfterSlash(s) + t
  {
    LastIndexSpec(t, '/');
    LastIndexConcat(s, t, '/');
    var k := LastIndex(s, '/');
    assert (s + t)[k + 1..] == s[k + 1..] + t;
  }

  /** A path behind a leading slash keeps its last element. */
  lemma AfterSlashBehindRoot(t: string)
    ensures AfterSlash("/" + t) == AfterSlash(t)
  {
    LastIndexConcat("/", t, '/');
    var k := LastIndex(t, '/');
    assert ("/" + t)[k + 2..] == t[k + 1..];
  }

  /** The last `c` of `s + t` is the last one of `t` when `t` has one, and that of `s` otherwise. */
  lemma {:induction false} LastIndexConcat(s: string, t: string, c: char)
    ensures LastIndex(s + t, c) == if 0 <= LastIndex(t, c) then |s| + LastIndex(t, c) else LastIndex(s, c)
    decreases |t|
  {
    if |t| == 0 {
      assert s + t == s;
    } else if t[|t| - 1] != c {
      assert (s + t)[..|s + t| - 1] == s + t[..|t| - 1];
      LastIndexConcat(s, t[..|t| - 1], c);
    }
  }

  /** An element without a slash is its own last element. */
  lemma AfterSlashPlain(e: string)
    requires '/' !in e
    ensures AfterSlash(e) == e
  {
    LastIndexSpec(e, '/');
  }

  /** A path that ends in a slash has an empty last element. */
  lemma AfterSlashOfSlash(s: string)
    ensures AfterSlash(s + "/") == ""
  {
  }

  /** A named element pushed last stays on top of the stack. */
  lemma ResolveNamedLast(es: seq<string>, rooted: bool)
    requires 1 <= |es| && Named(es[|es| - 1])
    ensures var stack := Resolve(es, rooted);
            1 <= |stack| && stack[|stack| - 1] == es[|es| - 1]
  {
  }

  lemma AfterSlashJoin(es: seq<string>)
    requires 1 <= |es| && '/' !in es[|es| - 1]
    ensures AfterSlash(JoinSlash(es)) == es[|es| - 1]
  {
    if |es| == 1 {
      AfterSlashPlain(es[0]);
    } else {
      var init := JoinSlash(es[..|es| - 1]);
      AfterSlashAppend(init + "/", es[|es| - 1]);
      AfterSlashOfSlash(init);
    }
  }

  /**
   Cleaning keeps the last element of a path whose last element names
   something: only the directories in front of it are rewritten.
   */
  lemma CleanKeepsLast(s: string)
    requires Named(AfterSlash(s))
    ensures AfterSlash(Clean(s)) == AfterSlash(s)
  {
    var es := Elements(s);
    var stack := Resolve(es, Rooted(s));
    ResolveNamedLast(es, Rooted(s));
    AfterSlashSpec(s);
    AfterSlashJoin(stack);
    if Rooted(s) {
      AfterSlashBehindRoot(JoinSlash(stack));
    }
  }

  /** The last element a cleaned path ends in is its base name. */
  lemma BaseOfNamed(s: string)
    requires Named(AfterSlash(s))
    ensures Base(s) == AfterSlash(s)
  {
    var b := AfterSlash(s);
    assert s[|s| - 1] == b[|b| - 1];
  }

  /** Only the base name of a path of slashes holds a slash. */
  lemma BaseSlashFree(s: string)
    requires Base(s) != "/"
    ensures '/' !in Base(s)
  {
    if s != "" {
      var b := AfterSlash(TrimTrailingSlashes(s));
      AfterSlashSpec(TrimTrailingSlashes(s));
      assert Base(s) == b;
    }
  }

  // ---------------------------------------------------------------------------
  // Cleaned paths
  // ---------------------------------------------------------------------------

  /**
   A stack as cleaning leaves it: no empty, `.` or slash-holding element, and
   `..` only in a leading run, and never in a rooted path.
   */
  predicate Canonical(stack: seq<string>, rooted: bool) {
    forall i :: 0 <= i < |stack| ==> CanonicalAt(stack, rooted, i)
  }

  predicate CanonicalAt(stack: seq<string>, rooted: bool, i: nat)
    requires i < |stack|
  {
    && stack[i] != "" && stack[i] != "." && '/' !in stack[i]
    && (stack[i] == ".." ==> !rooted && forall j :: 0 <= j < i ==> stack[j] == "..")
  }

  predicate SlashFree(es: seq<string>) {
    forall i :: 0 <= i < |es| ==> '/' !in es[i]
  }

  lemma {:induction false} ElementsSlashFree(s: string)
    ensures SlashFree(Elements(s))
    decreases |s|
  {
    var k := LastIndex(s, '/');
    AfterSlashSpec(s);
    if 0 <= k {
      ElementsSlashFree(s[..k]);
      SlashFreeSnoc(Elements(s[..k]), AfterSlash(s));
    } else {
      SlashFreeSnoc([], s);
    }
  }

  lemma SlashFreeSnoc(es: seq<string>, e: string)
    requires SlashFree(es) && '/' !in e
    ensures SlashFree(es + [e])
  {
    forall i | 0 <= i < |es| + 1 ensures '/' !in (es + [e])[i] {
      if i < |es| {
        assert (es + [e])[i] == es[i];
      }
    }
  }

  lemma CanonicalPrefix(stack: seq<string>, rooted: bool, n: nat)
    requires Canonical(stack, rooted) && n <= |stack|
    ensures Canonical(stack[..n], rooted)
  {
    forall i | 0 <= i < n ensures CanonicalAt(stack[..n], rooted, i) {
      assert CanonicalAt(stack, rooted, i);
    }
  }

  /** One step keeps a stack canonical. */
  lemma StepCanonical(stack: seq<string>, e: string, rooted: bool)
    requires Canonical(stack, rooted) && '/' !in e
    ensures Canonical(Step(stack, e, rooted), rooted)
  {
    var r := Step(stack, e, rooted);
    if e == ".." && 0 < |stack| && stack[|stack| - 1] != ".." {
      CanonicalPrefix(stack, rooted, |stack| - 1);
    } else if e != "" && e != "." && !(e == ".." && rooted) {
      assert r == stack + [e];
      if e == ".." {
        assert 0 < |stack| ==> CanonicalAt(stack, rooted, |stack| - 1);
      }
      forall i | 0 <= i < |r| ensures CanonicalAt(r, rooted, i) {
        if i < |stack| {
          assert CanonicalAt(stack, rooted, i);
        }
      }
    }
  }

  /** Resolving slash-free elements leaves a canonical stack. */
  lemma {:induction false} ResolveCanonical(es: seq<string>, rooted: bool)
    requires SlashFree(es)
    ensures Canonical(Resolve(es, rooted), rooted)
  {
    if |es| > 0 {
      var init := es[..|es| - 1];
      assert SlashFree(init) by {
        forall i | 0 <= i < |init| ensures '/' !in init[i] {
          assert init[i] == es[i];
        }
      }
      ResolveCanonical(init, rooted);
      StepCanonical(Resolve(init, rooted), es[|es| - 1], rooted);
    }
  }

  /** Elements that resolve to nothing, followed by a canonical stack, resolve to that stack. */
  lemma {:induction false} ResolveAfter(pre: seq<string>, stack: seq<string>, rooted: bool)
    requires Resolve(pre, rooted) == [] && Canonical(stack, rooted)
    ensures Resolve(pre + stack, rooted) == stack
  {
    if |stack| == 0 {
      assert pre + stack == pre;
    } else {
      var init := stack[..|stack| - 1];
      var last := stack[|stack| - 1];
      CanonicalPrefix(stack, rooted, |stack| - 1);
      ResolveAfter(pre, init, rooted);
      assert (pre + stack)[..|pre + stack| - 1] == pre + init;
      assert CanonicalAt(stack, rooted, |stack| - 1);
      assert init + [last] == stack;
      if last == ".." && 0 < |init| {
        assert init[|init| - 1] == stack[|init| - 1];
      }
    }
  }

  lemma {:induction false} JoinSlashCons(stack: seq<string>)
    requires 1 <= |stack|
    ensures JoinSlash([""] + stack) == "/" + JoinSlash(stack)
  {
    var es := [""] + stack;
    assert es[..|es| - 1] == [""] + stack[..|stack| - 1];
    if |stack| > 1 {
      JoinSlashCons(stack[..|stack| - 1]);
    }
  }

  /** Rejoining slash-free elements and cutting again gives them back. */
  lemma {:induction false} ElementsOfJoin(es: seq<string>)
    requires 1 <= |es| && SlashFree(es)
    ensures Elements(JoinSlash(es)) == es
  {
    var last := es[|es| - 1];
    assert '/' !in last;
    if |es| == 1 {
      LastIndexSpec(last, '/');
      assert LastIndex(es[0], '/') == -1;
    } else {
      var init := es[..|es| - 1];
      var p := JoinSlash(init);
      assert SlashFree(init) by {
        forall i | 0 <= i < |init| ensures '/' !in init[i] {
          assert init[i] == es[i];
        }
      }
      ElementsOfJoin(init);
      assert JoinSlash(es) == p + "/" + last;
      ElementsSnoc(p, last);
      assert init + [last] == es;
    }
  }

  lemma {:induction false} JoinSlashHead(es: seq<string>)
    requires 1 <= |es| && es[0] != ""
    ensures 0 < |JoinSlash(es)| && JoinSlash(es)[0] == es[0][0]
  {
    if |es| > 1 {
      JoinSlashHead(es[..|es| - 1]);
    }
  }

  /** The elements that come before the stack when a canonical stack is written out. */
  function RenderPrefix(stack: seq<string>, rooted: bool): seq<string> {
    if rooted then (if |stack| == 0 then ["", ""] else [""])
    else if |stack| == 0 then ["."] else []
  }

  /** Writing a canonical stack out and cutting it again gives the stack back, behind elements that resolve to nothing. */
  lemma RenderElements(stack: seq<string>, rooted: bool)
    requires Canonical(stack, rooted)
    ensures Rooted(Render(stack, rooted)) == rooted
    ensures Elements(Render(stack, rooted)) == RenderPrefix(stack, rooted) + stack
    ensures Resolve(RenderPrefix(stack, rooted), rooted) == []
  {
    if |stack| == 0 {
      assert RenderPrefix(stack, rooted) + stack == RenderPrefix(stack, rooted);
      if rooted {
        assert Render(stack, rooted) == "/";
        RootElements();
      } else {
        assert Render(stack, rooted) == ".";
        DotElements();
      }
    } else {
      assert CanonicalAt(stack, rooted, 0);
      assert SlashFree(stack) by {
        forall i | 0 <= i < |stack| ensures '/' !in stack[i] {
          assert CanonicalAt(stack, rooted, i);
        }
      }
      if rooted {
        assert Render(stack, rooted) == "/" + JoinSlash(stack);
        assert RenderPrefix(stack, rooted) == [""];
        RootedElements(stack);
      } else {
        assert Render(stack, rooted) == JoinSlash(stack);
        assert RenderPrefix(stack, rooted) + stack == stack;
        RelativeElements(stack);
      }
    }
  }

  lemma RootElements()
    ensures Elements("/") == ["", ""]
    ensures Resolve(["", ""], true) == []
  {
    RootElementsOf("/");
    ResolveEmpties("", true);
  }

  lemma RootElementsOf(root: string)
    requires |root| == 1 && root[0] == '/'
    ensures Elements(root) == [root[..0], root[1..]]
  {
    assert LastIndex(root, '/') == 0;
    assert LastIndex(root[..0], '/') == -1;
  }

  lemma ResolveEmpties(e: string, rooted: bool)
    requires e == ""
    ensures Resolve([e, e], rooted) == []
  {
    var one := [e];
    assert one[..0] == [];
    assert Resolve(one, rooted) == Step(Resolve([], rooted), e, rooted) == [];
    var two := [e, e];
    assert two[..1] == one;
    assert Resolve(two, rooted) == Step(Resolve(one, rooted), e, rooted);
  }

  lemma DotElements()
    ensures Elements(".") == ["."]
    ensures Resolve(["."], false) == []
  {
    assert LastIndex(".", '/') == -1;
  }

  lemma RootedElements(stack: seq<string>)
    requires 1 <= |stack| && SlashFree(stack)
    ensures Elements("/" + JoinSlash(stack)) == [""] + stack
    ensures Resolve([""], true) == []
  {
    JoinSlashCons(stack);
    assert SlashFree([""] + stack) by {
      forall i | 0 <= i < |stack| + 1 ensures '/' !in ([""] + stack)[i] {
        if 0 < i {
          assert ([""] + stack)[i] == stack[i - 1];
        }
      }
    }
    ElementsOfJoin([""] + stack);
  }

  lemma RelativeElements(stack: seq<string>)
    requires 1 <= |stack| && SlashFree(stack) && stack[0] != ""
    ensures Elements(JoinSlash(stack)) == stack
    ensures !Rooted(JoinSlash(stack))
  {
    ElementsOfJoin(stack);
    JoinSlashHead(stack);
    assert stack[0][0] in stack[0];
  }

  /** A written-out canonical stack is already clean. */
  lemma CleanOfRender(stack: seq<string>, rooted: bool)
    requires Canonical(stack, rooted)
    ensures Clean(Render(stack, rooted)) == Render(stack, rooted)
  {
    RenderElements(stack, rooted);
    ResolveAfter(RenderPrefix(stack, rooted), stack, rooted);
  }

  /** Appending a slash and a slash-free element adds that element last. */
  lemma ElementsSnoc(d: string, n: string)
    requires '/' !in n
    ensures Elements(d + "/" + n) == Elements(d) + [n]
  {
    LastIndexSpec(n, '/');
    LastIndexConcat(d + "/", n, '/');
    LastIndexConcat(d, "/", '/');
    assert (d + "/" + n)[..|d|] == d;
    assert (d + "/" + n)[|d| + 1..] == n;
  }

  /** Joining a clean path and a named element pushes the element on the path's stack. */
  lemma JoinRender(stack: seq<string>, rooted: bool, n: string)
    requires Canonical(stack, rooted) && Named(n) && '/' !in n
    ensures Join(Render(stack, rooted), n) == Render(stack + [n], rooted)
  {
    var d := Render(stack, rooted);
    var pre := RenderPrefix(stack, rooted);
    var x := d + "/" + n;
    RenderElements(stack, rooted);
    RenderNonEmpty(stack, rooted);
    assert Join(d, n) == Clean(x);
    assert Rooted(x) == rooted by {
      assert x[0] == d[0];
    }
    assert Elements(x) == pre + stack + [n] by {
      ElementsSnoc(d, n);
    }
    ResolvePush(pre, stack, rooted, n);
  }

  lemma ResolvePush(pre: seq<string>, stack: seq<string>, rooted: bool, n: string)
    requires Resolve(pre, rooted) == [] && Canonical(stack, rooted) && Named(n) && '/' !in n
    ensures Resolve(pre + stack + [n], rooted) == stack + [n]
  {
    StepCanonical(stack, n, rooted);
    ResolveAfter(pre, stack + [n], rooted);
    assert pre + stack + [n] == pre + (stack + [n]);
  }

  /** A leading slash on the element joined to a clean path makes no difference. */
  lemma JoinRenderRooted(stack: seq<string>, rooted: bool, t: string)
    requires Canonical(stack, rooted) && Named(t) && '/' !in t
    ensures Join(Render(stack, rooted), "/" + t) == Render(stack + [t], rooted)
  {
    var d := Render(stack, rooted);
    var pre := RenderPrefix(stack, rooted);
    var x := d + "/" + ("/" + t);
    RenderElements(stack, rooted);
    RenderNonEmpty(stack, rooted);
    assert Join(d, "/" + t) == Clean(x);
    assert Rooted(x) == rooted by {
      assert x[0] == d[0];
    }
    assert Elements(x) == pre + stack + [""] + [t] by {
      ElementsTwice(d, t, x);
    }
    ResolveSkipEmpty(pre, stack, rooted, t);
  }

  lemma RenderNonEmpty(stack: seq<string>, rooted: bool)
    requires Canonical(stack, rooted)
    ensures Render(stack, rooted) != ""
  {
    if !rooted && 0 < |stack| {
      assert CanonicalAt(stack, rooted, 0);
      JoinSlashHead(stack);
    }
  }

  lemma ElementsTwice(d: string, t: string, y: string)
    requires '/' !in t && y == d + "/" + ("/" + t)
    ensures Elements(y) == Elements(d) + [""] + [t]
  {
    var x := d + "/" + "";
    assert y == x + "/" + t;
    ElementsSnoc(x, t);
    ElementsSnoc(d, "");
  }

  lemma ResolveSkipEmpty(pre: seq<string>, stack: seq<string>, rooted: bool, t: string)
    requires Resolve(pre, rooted) == [] && Canonical(stack, rooted) && Named(t)
    ensures Resolve(pre + stack + [""] + [t], rooted) == stack + [t]
  {
    ResolveAfter(pre, stack, rooted);
    var es := pre + stack + [""];
    assert es[..|es| - 1] == pre + stack;
    assert (es + [t])[..|es|] == es;
  }

  /** The directory of a clean path with one more element is the clean path without it. */
  lemma DirOfSnoc(stack: seq<string>, rooted: bool, n: string)
    requires Canonical(stack, rooted) && '/' !in n
    ensures Dir(Render(stack + [n], rooted)) == Render(stack, rooted)
  {
    if |stack| == 0 {
      assert stack + [n] == [n];
      if rooted {
        DirOfRootedName(n);
      } else {
        DirOfName(n);
      }
    } else {
      var d := Render(stack, rooted);
      JoinSnoc(stack, n);
      assert Render(stack + [n], rooted) == d + "/" + n;
      DirBehindSlash(d, n);
      DirOfSlash(stack, rooted);
    }
  }

  lemma DirOfRootedName(n: string)
    requires '/' !in n
    ensures Dir(Render([n], true)) == Render([], true)
  {
    var root := Render([], true);
    assert Render([n], true) == "" + "/" + n by {
      assert JoinSlash([n]) == n;
    }
    assert "" + "/" == root;
    DirBehindSlash("", n);
    CleanOfRender([], true);
  }

  lemma DirOfName(n: string)
    requires '/' !in n
    ensures Dir(Render([n], false)) == Render([], false)
  {
    var p := Render([n], false);
    assert JoinSlash([n]) == n;
    assert p == n;
    LastIndexSpec(n, '/');
    assert LastIndex(p, '/') == -1;
    assert p[..0] == "";
    assert Dir(p) == Clean("");
    EmptyElements();
    assert Clean("") == Render([], false);
  }

  lemma EmptyElements()
    ensures Elements("") == [""]
    ensures Resolve([""], false) == []
  {
    assert LastIndex("", '/') == -1;
    assert [""][..0] == [];
  }

  lemma DirBehindSlash(d: string, n: string)
    requires '/' !in n
    ensures Dir(d + "/" + n) == Clean(d + "/")
  {
    LastIndexSpec(n, '/');
    LastIndexConcat(d + "/", n, '/');
    LastIndexConcat(d, "/", '/');
    assert (d + "/" + n)[..|d| + 1] == d + "/";
  }

  /** A clean path followed by a slash cleans back to itself. */
  lemma DirOfSlash(stack: seq<string>, rooted: bool)
    requires Canonical(stack, rooted) && 0 < |stack|
    ensures Clean(Render(stack, rooted) + "/") == Render(stack, rooted)
  {
    var d := Render(stack, rooted);
    var pre := RenderPrefix(stack, rooted);
    RenderElements(stack, rooted);
    RenderNonEmpty(stack, rooted);
    ElementsSnoc(d, "");
    assert d + "/" + "" == d + "/";
    assert (d + "/")[0] == d[0];
    ResolveAfter(pre, stack, rooted);
    assert (pre + stack + [""])[..|pre + stack|] == pre + stack;
  }

  /** Joining a cleaned path with a named element and taking the directory gives the cleaned path back. */
  lemma DirOfJoin(x: string, n: string)
    requires Named(n) && '/' !in n
    ensures Dir(Join(Clean(x), n)) == Clean(x)
  {
    var stack := Resolve(Elements(x), Rooted(x));
    ElementsSlashFree(x);
    ResolveCanonical(Elements(x), Rooted(x));
    JoinRender(stack, Rooted(x), n);
    DirOfSnoc(stack, Rooted(x), n);
  }

  /** Cleaning a clean path changes nothing. */
  lemma CleanIdempotent(s: string)
    ensures Clean(Clean(s)) == Clean(s)
  {
    ElementsSlashFree(s);
    ResolveCanonical(Elements(s), Rooted(s));
    CleanOfRender(Resolve(Elements(s), Rooted(s)), Rooted(s));
  }
}
