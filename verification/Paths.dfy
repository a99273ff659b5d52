/**
  Absolute paths. The filesystem keys every table by a normalised path text; here a
  normalised path is the sequence of its components, the empty sequence being "/".
  `Resolve` is the normalisation as a fold of the components over a stack.
 */
module Paths {

  type Path = seq<string>

  function Parent(p: Path): Path
    requires p != []
  {
    p[..|p| - 1]
  }

  function Last(p: Path): string
    requires p != []
  {
    p[|p| - 1]
  }

  predicate ValidName(n: string) {
    n != "" && n != "." && n != ".." && '/' !in n
  }

  predicate Canonical(p: Path) {
    forall i :: 0 <= i < |p| ==> ValidName(p[i])
  }

  /** `str.split("/")`. */
  function Split(s: string): (parts: seq<string>)
    ensures |parts| > 0
    ensures forall i :: 0 <= i < |parts| ==> '/' !in parts[i]
  {
    if s == "" then [""]
    else
      var rest := Split(s[1..]);
      if s[0] == '/' then [""] + rest else Widen(s[0], rest)
  }

  /** The parts of a text that starts with one more character. */
  function Widen(c: char, parts: seq<string>): (r: seq<string>)
    requires |parts| > 0
    ensures |r| == |parts| && r[0] == [c] + parts[0]
    ensures forall i :: 1 <= i < |r| ==> r[i] == parts[i]
  {
    [[c] + parts[0]] + parts[1..]
  }

  /** One component met while normalising an absolute path. */
  function Visit(stack: Path, part: string): Path {
    if part == "" || part == "." then stack
    else if part == ".." then (if stack == [] then [] else Parent(stack))
    else stack + [part]
  }

  function Normalise(stack: Path, parts: seq<string>): Path
    decreases |parts|
  {
    if parts == [] then stack else Normalise(Visit(stack, parts[0]), parts[1..])
  }

  predicate Absolute(raw: string) {
    raw != "" && raw[0] == '/'
  }

  /** The path an absolute text stands for; the empty text stands for "/". */
  function Resolve(raw: string): Path
    requires raw == "" || Absolute(raw)
  {
    Normalise([], Split(raw))
  }

  /** `os.path.join(base, text)` followed by normalisation. */
  function JoinText(base: Path, text: string): Path {
    if Absolute(text) then Resolve(text) else Normalise(base, Split(text))
  }

  function Render(p: Path): string {
    if p == [] then "/" else RenderParts(p)
  }

  function RenderParts(p: Path): string {
    if p == [] then "" else RenderParts(Parent(p)) + "/" + Last(p)
  }

  lemma {:induction false} NormaliseAppend(stack: Path, a: seq<string>, b: seq<string>)
    ensures Normalise(stack, a + b) == Normalise(Normalise(stack, a), b)
    decreases |a|
  {
    if a == [] {
      assert a + b == b;
    } else {
      assert (a + b)[1..] == a[1..] + b;
      NormaliseAppend(Visit(stack, a[0]), a[1..], b);
    }
  }

  lemma {:induction false} NormaliseCanonical(stack: Path, parts: seq<string>)
    requires Canonical(stack)
    requires forall i :: 0 <= i < |parts| ==> '/' !in parts[i]
    ensures Canonical(Normalise(stack, parts))
    decreases |parts|
  {
    if parts != [] {
      NormaliseCanonical(Visit(stack, parts[0]), parts[1..]);
    }
  }

  lemma WidenAppend(c: char, a: seq<string>, b: seq<string>)
    requires |a| > 0
    ensures Widen(c, a + b) == Widen(c, a) + b
  {
  }

  lemma {:induction false} SplitAtSlash(a: string, b: string)
    ensures Split(a + "/" + b) == Split(a) + Split(b)
  {
    hide Widen;
    var whole := a + "/" + b;
    if a == "" {
      assert whole[1..] == b;
    } else {
      assert whole[0] == a[0] && whole[1..] == a[1..] + "/" + b;
      SplitAtSlash(a[1..], b);
      WidenAppend(a[0], Split(a[1..]), Split(b));
      assert [""] + (Split(a[1..]) + Split(b)) == ([""] + Split(a[1..])) + Split(b);
    }
  }

  lemma {:induction false} SplitName(n: string)
    requires '/' !in n
    ensures Split(n) == [n]
  {
    if n != "" {
      SplitName(n[1..]);
      assert Split(n) == Widen(n[0], [n[1..]]);
      assert n == [n[0]] + n[1..];
    }
  }

  /** Every resolved path is canonical: no empty or "." component survives, and no ".." but
      those a relative text starts with. */
  lemma ResolveCanonical(raw: string)
    ensures if raw == "" || Absolute(raw) then Canonical(Resolve(raw)) else RelativeForm(ResolveRelative(raw))
  {
    if raw == "" || Absolute(raw) {
      NormaliseCanonical([], Split(raw));
    } else {
      RelativeFormed([], Split(raw));
    }
  }

  // ----- relative texts -----

  /** One component met while normalising a relative path: ".." with nothing to undo stays. */
  function VisitRelative(stack: seq<string>, part: string): seq<string> {
    if part == "" || part == "." then stack
    else if part == ".." && stack != [] && Last(stack) != ".." then Parent(stack)
    else stack + [part]
  }

  function NormaliseRelative(stack: seq<string>, parts: seq<string>): seq<string>
    decreases |parts|
  {
    if parts == [] then stack else NormaliseRelative(VisitRelative(stack, parts[0]), parts[1..])
  }

  function ResolveRelative(raw: string): seq<string> {
    NormaliseRelative([], Split(raw))
  }

  predicate RelativeForm(p: seq<string>) {
    && (forall i :: 0 <= i < |p| ==> p[i] == ".." || ValidName(p[i]))
    && (forall i :: 0 < i < |p| && p[i] == ".." ==> p[i - 1] == "..")
  }

  function RenderRelative(p: seq<string>): string {
    if p == [] then "." else if |p| == 1 then p[0] else RenderRelative(Parent(p)) + "/" + Last(p)
  }

  lemma {:induction false} RelativeFormed(stack: seq<string>, parts: seq<string>)
    requires RelativeForm(stack) && forall i :: 0 <= i < |parts| ==> '/' !in parts[i]
    ensures RelativeForm(NormaliseRelative(stack, parts))
    decreases |parts|
  {
    if parts != [] {
      RelativeFormed(VisitRelative(stack, parts[0]), parts[1..]);
    }
  }

  lemma {:induction false} SplitRelative(p: seq<string>)
    requires p != [] && forall i :: 0 <= i < |p| ==> '/' !in p[i]
    ensures Split(RenderRelative(p)) == p
    decreases |p|
  {
    SplitName(Last(p));
    if |p| > 1 {
      SplitRelative(Parent(p));
      SplitAtSlash(RenderRelative(Parent(p)), Last(p));
    }
    assert Parent(p) + [Last(p)] == p;
  }

  lemma {:induction false} NormaliseFormed(stack: seq<string>, parts: seq<string>)
    requires RelativeForm(stack + parts)
    ensures NormaliseRelative(stack, parts) == stack + parts
    decreases |parts|
  {
    if parts != [] {
      assert stack + parts == stack + [parts[0]] + parts[1..];
      assert (stack + parts)[|stack|] == parts[0] && (stack != [] ==> (stack + parts)[|stack| - 1] == Last(stack));
      NormaliseFormed(stack + [parts[0]], parts[1..]);
    }
  }

  /** Resolution is the identity on normalised relative texts too. */
  lemma ResolveRenderRelative(p: seq<string>)
    requires RelativeForm(p)
    ensures RenderRelative(p) != "" && !Absolute(RenderRelative(p))
    ensures ResolveRelative(RenderRelative(p)) == p
  {
    RelativeText(p);
    if p == [] {
      SplitName(".");
      assert ["."][1..] == [];
    } else {
      SplitRelative(p);
      NormaliseFormed([], p);
      assert [] + p == p;
    }
  }

  lemma {:induction false} RelativeText(p: seq<string>)
    requires RelativeForm(p)
    ensures RenderRelative(p) != "" && !Absolute(RenderRelative(p))
    decreases |p|
  {
    if |p| > 1 { RelativeText(Parent(p)); }
  }

  /** Joining two texts and then resolving folds the second over the resolved first. */
  lemma ResolveJoin(a: string, b: string)
    requires a == "" || Absolute(a)
    requires Absolute(a + "/" + b)
    ensures Resolve(a + "/" + b) == Normalise(Resolve(a), Split(b))
  {
    SplitAtSlash(a, b);
    NormaliseAppend([], Split(a), Split(b));
  }

  lemma {:induction false} ResolveRenderParts(p: Path)
    requires Canonical(p)
    ensures Normalise([], Split(RenderParts(p))) == p
    ensures p != [] ==> Absolute(RenderParts(p))
    decreases |p|
  {
    if p == [] {
      assert Split("") == [""] && [""][1..] == [];
      assert Normalise([], [""]) == Normalise([], []);
    } else {
      var n := Last(p);
      ResolveRenderParts(Parent(p));
      SplitAtSlash(RenderParts(Parent(p)), n);
      SplitName(n);
      NormaliseAppend([], Split(RenderParts(Parent(p))), [n]);
      assert [n][1..] == [];
      assert Normalise(Parent(p), [n]) == Normalise(Visit(Parent(p), n), []);
      assert Parent(p) + [n] == p;
    }
  }

  /** Resolution is the identity on normalised texts, so resolving twice is resolving once. */
  lemma ResolveRender(p: Path)
    requires Canonical(p)
    ensures Absolute(Render(p))
    ensures Resolve(Render(p)) == p
  {
    if p == [] {
      assert Split("/"[1..]) == [""];
      assert Split("/") == ["", ""];
      assert ["", ""][1..] == [""] && [""][1..] == [];
    } else {
      ResolveRenderParts(p);
    }
  }

  /** Joining a component to a base names the child of the base. */
  lemma JoinName(base: Path, n: string)
    requires ValidName(n)
    ensures JoinText(base, n) == base + [n]
  {
    SplitName(n);
    assert Split(n) == [n] && [n][1..] == [];
    assert Normalise(base, [n]) == Normalise(Visit(base, n), []);
  }

  // ----- the laws of resolution, on texts -----

  /** What one more component does to an absolute text: a name goes down, ".." goes up and
      stays at the root, "." and the empty component do nothing. */
  lemma ResolveComponent(a: string, n: string)
    requires a == "" || Absolute(a)
    ensures Resolve("") == [] && Resolve("/") == []
    ensures ValidName(n) ==> Resolve(a + "/" + n) == Resolve(a) + [n]
    ensures Resolve(a + "/..") == if Resolve(a) == [] then [] else Resolve(a)[..|Resolve(a)| - 1]
    ensures Resolve(a + "/.") == Resolve(a)
    ensures Resolve(a + "/") == Resolve(a)
  {
    RootTexts();
    if ValidName(n) { OneMore(a, n); }
    OneMore(a, "..");
    OneMore(a, ".");
    OneMore(a, "");
    hide Resolve;
    assert a + "/" + ".." == a + "/.." && a + "/" + "." == a + "/." && a + "/" + "" == a + "/";
  }

  lemma RootTexts()
    ensures Resolve("") == [] && Resolve("/") == []
  {
    ResolveRender([]);
    assert Split("") == [""] && [""][1..] == [];
  }

  lemma OneMore(a: string, n: string)
    requires (a == "" || Absolute(a)) && '/' !in n
    ensures Resolve(a + "/" + n) == Visit(Resolve(a), n)
  {
    hide Resolve, Visit;
    SplitName(n);
    ResolveJoin(a, n);
    One(Resolve(a), n);
  }

  lemma One(stack: Path, n: string)
    ensures Normalise(stack, [n]) == Visit(stack, n)
    ensures NormaliseRelative(stack, [n]) == VisitRelative(stack, n)
  {
    assert [n][1..] == [];
  }

  /** Going down and up again is going nowhere. */
  lemma ResolveUndo(a: string, n: string)
    requires (a == "" || Absolute(a)) && ValidName(n)
    ensures Resolve(a + "/" + n + "/..") == Resolve(a)
  {
    ResolveComponent(a, n);
    ResolveComponent(a + "/" + n, n);
  }

  lemma {:induction false} NormaliseRelativeAppend(stack: seq<string>, a: seq<string>, b: seq<string>)
    ensures NormaliseRelative(stack, a + b) == NormaliseRelative(NormaliseRelative(stack, a), b)
    decreases |a|
  {
    if a == [] {
      assert a + b == b;
    } else {
      assert (a + b)[1..] == a[1..] + b;
      NormaliseRelativeAppend(VisitRelative(stack, a[0]), a[1..], b);
    }
  }

  lemma ResolveRelativeJoin(a: string, b: string)
    ensures ResolveRelative(a + "/" + b) == NormaliseRelative(ResolveRelative(a), Split(b))
  {
    SplitAtSlash(a, b);
    NormaliseRelativeAppend([], Split(a), Split(b));
  }

  /** The same for relative texts, where ".." stays after nothing or another "..". */
  lemma ResolveRelativeComponent(a: string, n: string)
    ensures ResolveRelative(".") == [] && (ValidName(n) || n == ".." ==> ResolveRelative(n) == [n])
    ensures ValidName(n) ==> ResolveRelative(a + "/" + n) == ResolveRelative(a) + [n]
    ensures
      var r := ResolveRelative(a);
      ResolveRelative(a + "/..") == if r == [] || r[|r| - 1] == ".." then r + [".."] else r[..|r| - 1]
    ensures ResolveRelative(a + "/.") == ResolveRelative(a)
    ensures ResolveRelative(a + "/") == ResolveRelative(a)
  {
    One([], n);
    One([], ".");
    SplitName(".");
    if ValidName(n) || n == ".." { SplitName(n); }
    if ValidName(n) { OneMoreRelative(a, n); }
    OneMoreRelative(a, "..");
    OneMoreRelative(a, ".");
    OneMoreRelative(a, "");
    assert a + "/" + ".." == a + "/.." && a + "/" + "." == a + "/." && a + "/" + "" == a + "/";
  }

  lemma OneMoreRelative(a: string, n: string)
    requires '/' !in n
    ensures ResolveRelative(a + "/" + n) == VisitRelative(ResolveRelative(a), n)
  {
    hide ResolveRelative, VisitRelative;
    SplitName(n);
    ResolveRelativeJoin(a, n);
    One(ResolveRelative(a), n);
  }

  lemma ResolveRelativeUndo(a: string, n: string)
    requires ValidName(n)
    ensures ResolveRelative(a + "/" + n + "/..") == ResolveRelative(a)
  {
    ResolveRelativeComponent(a, n);
    ResolveRelativeComponent(a + "/" + n, n);
  }

  /** Joining a text to a directory and resolving: an absolute text stands for itself, any
      other is read from the directory. */
  lemma JoinResolves(base: Path, text: string)
    requires Canonical(base)
    ensures Absolute(text) ==> JoinText(base, text) == Resolve(text)
    ensures !Absolute(text) ==> Absolute(Render(base) + "/" + text)
    ensures !Absolute(text) ==> JoinText(base, text) == Resolve(Render(base) + "/" + text)
  {
    ResolveRender(base);
    if !Absolute(text) { ResolveJoin(Render(base), text); }
  }
}
