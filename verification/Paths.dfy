/** Go's path.Clean and path.Join as lexical functions on slash-separated components. */
module Paths {
  import opened Text

  predicate IsRooted(path: string) {
    StartsWith(path, '/')
  }

  /** One step of path.Clean: what a component does to the components kept so far. */
  function Push(kept: seq<string>, component: string, rooted: bool): seq<string> {
    if component == "" || component == "." then kept
    else if component != ".." then kept + [component]
    else if kept != [] && kept[|kept| - 1] != ".." then kept[..|kept| - 1]
    else if rooted then kept
    else kept + [component]
  }

  function Reduce(kept: seq<string>, components: seq<string>, rooted: bool): seq<string>
    decreases components
  {
    if components == [] then kept
    else Reduce(Push(kept, components[0], rooted), components[1..], rooted)
  }

  function Render(rooted: bool, components: seq<string>): string {
    if rooted then "/" + Join(components, '/')
    else if components == [] then "."
    else Join(components, '/')
  }

  /** path.Clean */
  function Clean(path: string): string {
    if path == "" then "." else Render(IsRooted(path), Components(path))
  }

  /** The components path.Clean keeps. */
  function Components(path: string): seq<string> {
    Reduce([], Split(path, '/'), IsRooted(path))
  }

  /** path.Join: empty leading elements are skipped, the rest is joined and cleaned. */
  function JoinPaths(elements: seq<string>): string {
    if elements == [] then ""
    else if elements[0] != "" then Clean(Join(elements, '/'))
    else JoinPaths(elements[1..])
  }

  predicate NormalComponent(component: string) {
    component != "" && component != "." && '/' !in component
  }

  /** The shape of every cleaned path: `..` only at the front of a relative path. */
  ghost predicate Normal(rooted: bool, components: seq<string>) {
    && (forall i :: 0 <= i < |components| ==> NormalComponent(components[i]))
    && (forall i :: 0 <= i < |components| && components[i] == ".." ==>
          !rooted && forall j :: 0 <= j < i ==> components[j] == "..")
  }

  lemma {:induction false} ReduceIsNormal(kept: seq<string>, components: seq<string>, rooted: bool)
    requires Normal(rooted, kept)
    requires forall component :: component in components ==> '/' !in component
    ensures Normal(rooted, Reduce(kept, components, rooted))
    decreases components
  {
    if components != [] {
      var next := Push(kept, components[0], rooted);
      if components[0] == ".." && !(kept != [] && kept[|kept| - 1] != "..") && !rooted {
        forall j | 0 <= j < |kept| ensures kept[j] == ".." {
        }
      }
      assert Normal(rooted, next);
      ReduceIsNormal(next, components[1..], rooted);
    }
  }

  lemma CleanIsNormal(path: string)
    ensures Normal(IsRooted(path), Components(path))
  {
    ReduceIsNormal([], Split(path, '/'), IsRooted(path));
  }

  lemma {:induction false} ReduceConcat(kept: seq<string>, a: seq<string>, b: seq<string>, rooted: bool)
    ensures Reduce(kept, a + b, rooted) == Reduce(Reduce(kept, a, rooted), b, rooted)
    decreases a
  {
    if a == [] {
      assert a + b == b;
    } else {
      assert (a + b)[1..] == a[1..] + b;
      ReduceConcat(Push(kept, a[0], rooted), a[1..], b, rooted);
    }
  }

  /** Normal components survive cleaning unchanged. */
  lemma {:induction false} ReduceNormal(kept: seq<string>, components: seq<string>, rooted: bool)
    requires Normal(rooted, kept + components)
    ensures Reduce(kept, components, rooted) == kept + components
    decreases components
  {
    if components == [] {
      assert kept + components == kept;
    } else {
      var whole := kept + components;
      assert whole[|kept|] == components[0];
      if components[0] == ".." && kept != [] {
        assert whole[|kept| - 1] == "..";
      }
      assert (kept + [components[0]]) + components[1..] == whole;
      ReduceNormal(kept + [components[0]], components[1..], rooted);
    }
  }

  lemma RenderEmptyReduces(rooted: bool)
    ensures Reduce([], Split(Render(rooted, []), '/'), rooted) == []
  {
    if rooted {
      assert Render(true, []) == "/";
      assert Split("/"[1..], '/') == [""];
      assert ["", ""][1..] == [""] && [""][1..] == [];
    } else {
      SplitWhole(".", '/');
      assert ["."][1..] == [];
    }
  }

  lemma JoinHead(components: seq<string>)
    requires components != [] && NormalComponent(components[0])
    ensures Join(components, '/') != "" && Join(components, '/')[0] == components[0][0] != '/'
  {
  }

  lemma SplitSlash(s: string)
    ensures Split("/" + s, '/') == [""] + Split(s, '/')
  {
    assert ("/" + s)[1..] == s;
  }

  /** The components of a rendered path, as Split sees them, reduce to themselves. */
  lemma RenderReduces(rooted: bool, components: seq<string>)
    requires Normal(rooted, components)
    ensures Reduce([], Split(Render(rooted, components), '/'), rooted) == components
    ensures Render(rooted, components) != ""
    ensures IsRooted(Render(rooted, components)) == rooted
  {
    if components == [] {
      RenderEmptyReduces(rooted);
    } else {
      SplitJoin(components, '/');
      JoinHead(components);
      assert [] + components == components;
      ReduceNormal([], components, rooted);
      if rooted {
        SplitSlash(Join(components, '/'));
        assert ([""] + components)[1..] == components;
      }
    }
  }

  /** path.Clean is idempotent. */
  lemma CleanIdempotent(path: string)
    ensures Clean(Clean(path)) == Clean(path)
  {
    if path == "" {
      RenderReduces(false, []);
      assert Clean(path) == Render(false, []);
    } else {
      CleanIsNormal(path);
      RenderReduces(IsRooted(path), Components(path));
    }
  }

  /** Cleaning a rendered path followed by more components appends them. */
  lemma CleanAppend(rooted: bool, components: seq<string>, more: seq<string>)
    requires Normal(rooted, components) && more != []
    requires forall component :: component in more ==> '/' !in component
    ensures Clean(Render(rooted, components) + "/" + Join(more, '/'))
            == Render(rooted, Reduce(components, more, rooted))
  {
    var text := Render(rooted, components);
    var whole := text + "/" + Join(more, '/');
    RenderReduces(rooted, components);
    SplitConcat(text, '/', Join(more, '/'));
    SplitJoin(more, '/');
    ReduceConcat([], Split(text, '/'), more, rooted);
    assert whole[0] == text[0];
  }

  // ---------- how components act ----------

  lemma ComponentsConcat(p: string, q: string)
    requires p != ""
    ensures IsRooted(p + "/" + q) == IsRooted(p)
    ensures Components(p + "/" + q) == Reduce(Components(p), Split(q, '/'), IsRooted(p))
  {
    SplitConcat(p, '/', q);
    assert p + ['/'] + q == p + "/" + q;
    ReduceConcat([], Split(p, '/'), Split(q, '/'), IsRooted(p));
  }

  /** One more component is pushed onto those of the path before it. */
  lemma ComponentsSnoc(p: string, component: string)
    requires p != "" && '/' !in component
    ensures IsRooted(p + "/" + component) == IsRooted(p)
    ensures Components(p + "/" + component) == Push(Components(p), component, IsRooted(p))
  {
    ComponentsConcat(p, component);
    SplitWhole(component, '/');
    assert [component][1..] == [];
  }

  /** Cleaning the front first changes nothing. */
  lemma CleanPrefix(p: string, q: string)
    requires p != ""
    ensures Clean(p + "/" + q) == Clean(Clean(p) + "/" + q)
  {
    ComponentsConcat(p, q);
    CleanIsNormal(p);
    JoinSplit(q, '/');
    CleanAppend(IsRooted(p), Components(p), Split(q, '/'));
  }

  /** Dots and empty components vanish. */
  lemma CleanSkips(p: string)
    requires p != ""
    ensures Clean(p + "/") == Clean(p) && Clean(p + "/.") == Clean(p)
  {
    ComponentsSnoc(p, "");
    ComponentsSnoc(p, ".");
    assert p + "/" + "" == p + "/" && p + "/" + "." == p + "/.";
  }

  /** A parent step takes back exactly the one component before it. */
  lemma CleanParent(p: string, name: string)
    requires p != "" && NormalComponent(name) && name != ".."
    ensures Clean(p + "/" + name + "/..") == Clean(p)
  {
    var child := p + "/" + name;
    ComponentsSnoc(p, name);
    ComponentsSnoc(child, "..");
    assert child + "/" + ".." == child + "/..";
    var kept := Components(p);
    assert (kept + [name])[..|kept|] == kept;
  }

  /** At the root it stays there; in a path that has nothing left to take back it is kept. */
  lemma CleanParentOfTop(p: string)
    requires p != ""
    ensures Clean(p) == "/" ==> Clean(p + "/..") == "/"
    ensures Clean(p) == "." ==> Clean(p + "/..") == ".."
  {
    CleanPrefix(p, "..");
    assert p + "/" + ".." == p + "/..";
    if Clean(p) == "/" {
      ComponentsSnoc("/", "..");
      RenderEmptyReduces(true);
      assert Render(true, []) == "/" && Components("/") == [];
    }
    if Clean(p) == "." {
      ComponentsSnoc(".", "..");
      RenderEmptyReduces(false);
      assert Components(".") == [] && Render(false, [".."]) == "..";
    }
  }

  /** A name is appended behind a slash. */
  lemma CleanChild(p: string, name: string)
    requires p != "" && NormalComponent(name) && name != ".."
    ensures Clean(p + "/" + name)
            == if Clean(p) == "/" then "/" + name else if Clean(p) == "." then name else Clean(p) + "/" + name
  {
    ComponentsSnoc(p, name);
    CleanIsNormal(p);
    var rooted, kept := IsRooted(p), Components(p);
    if kept == [] {
      assert [] + [name] == [name] && Join([name], '/') == name;
    } else {
      JoinConcat(kept, [name], '/');
      JoinHead(kept);
      NotDot(kept);
    }
  }

  lemma NotDot(components: seq<string>)
    requires components != [] && forall i :: 0 <= i < |components| ==> NormalComponent(components[i])
    ensures Join(components, '/') != "."
  {
    var text := Join(components, '/');
    if |components| > 1 {
      assert text[|components[0]|] == '/';
    }
  }

  /** Paths in normal shape stay as they are: parent steps at the front of a relative path only, and no other dots. */
  lemma NormalIsClean(rooted: bool, components: seq<string>)
    requires Normal(rooted, components)
    ensures Clean(Render(rooted, components)) == Render(rooted, components)
    ensures Clean("") == "."
  {
    RenderReduces(rooted, components);
  }
}
