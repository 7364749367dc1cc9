/** Paths put together from paths, and directories made below directories just made. */
module PathLaws {
  import opened Paths
  import opened PathScanner

  // ----- joining paths

  lemma {:induction false} JoinBoth(a: seq<string>, b: seq<string>)
    requires a != [] && b != []
    ensures Join(a + b) == Join(a) + "/" + Join(b)
    decreases |a|
  {
    if |a| == 1 {
      assert a == [a[0]];
      JoinMore(a[0], b);
    } else {
      assert a + b == [a[0]] + (a[1..] + b);
      JoinBoth(a[1..], b);
      JoinMore(a[0], a[1..] + b);
      JoinMore(a[0], a[1..]);
      assert [a[0]] + a[1..] == a;
      assert a[0] + "/" + (Join(a[1..]) + "/" + Join(b)) == (a[0] + "/" + Join(a[1..])) + "/" + Join(b);
    }
  }

  lemma EndsBoth(p: string, q: string, i: int, a: string, b: string)
    requires 0 <= i <= |p| && Ends(p, i, a) && Ends(q, 0, b)
    ensures Ends(p + "/" + q, i, a + "/" + b)
  {
  }

  /** The components of a path with another behind a slash: those of the one, then those of the other. */
  lemma CompsJoined(p: string, q: string)
    requires p != ""
    ensures Rooted(p + "/" + q) == Rooted(p) && Comps(p + "/" + q) == Comps(p) + Split(q, 0)
  {
    var i := if Rooted(p) then 1 else 0;
    assert (p + "/" + q)[0] == p[0];
    JoinSplit(p, i);
    JoinSplit(q, 0);
    JoinBoth(Comps(p), Split(q, 0));
    EndsBoth(p, q, i, Join(Comps(p)), Join(Split(q, 0)));
    SplitJoin(p + "/" + q, i, Comps(p) + Split(q, 0));
  }

  /** Resolving a path with another behind it is resolving the one, and the other from there. */
  lemma ResolveJoined(t: Tree, root: int, base: int, p: string, q: string)
    requires Ok(t) && Node(t, root) && Node(t, base) && p != "" && !Rooted(q)
    ensures var r := Resolve(t, root, base, p);
            && (r.Found? ==> Node(t, r.node))
            && Resolve(t, root, base, p + "/" + q) == if r.Missing? then Missing else Resolve(t, root, r.node, q)
  {
    CompsJoined(p, q);
    WalkSteps(t, if Rooted(p) then root else base, Comps(p), Split(q, 0));
  }

  /** Only a path without a slash at its head depends on where it starts. */
  lemma AbsoluteAnywhere(t: Tree, root: int, a: int, b: int, p: string)
    requires Ok(t) && Node(t, root) && Node(t, a) && Node(t, b) && p != "" && p[0] == '/'
    ensures Resolve(t, root, a, p) == Resolve(t, root, b, p)
  {
  }

  lemma SplitName(name: string)
    requires '/' !in name
    ensures Split(name, 0) == [name] && (name == "" || !Rooted(name))
  {
    SplitJoin(name, 0, [name]);
  }

  /** A name resolves from a directory as it is looked up there. */
  lemma ResolveName(t: Tree, root: int, d: int, name: string)
    requires Ok(t) && Node(t, root) && Node(t, d) && '/' !in name
    ensures Resolve(t, root, d, name) == Lookup(t, d, name)
  {
    SplitName(name);
    LookupNode(t, d, name);
    var c := Comps(name);
    assert c == [name] && c[1..] == [];
    assert Walk(t, d, c) == Lookup(t, d, name) by {
      if Lookup(t, d, name).Found? { assert Walk(t, Lookup(t, d, name).node, c[1..]) == Lookup(t, d, name); }
    }
  }

  /** A path with "/." behind it, or just "/", leads where it led; with "/.." behind it, to the
      parent of that. */
  lemma DotsBehind(t: Tree, root: int, base: int, p: string)
    requires Ok(t) && Node(t, root) && Node(t, base) && p != ""
    ensures Resolve(t, root, base, p + "/" + ".") == Resolve(t, root, base, p)
    ensures Resolve(t, root, base, p + "/" + "") == Resolve(t, root, base, p)
    ensures Resolve(t, root, base, p).Found? ==>
              && Node(t, Resolve(t, root, base, p).node)
              && Resolve(t, root, base, p + "/" + "..") == Found(t[Resolve(t, root, base, p).node].parent)
  {
    SplitName(".");
    SplitName("");
    SplitName("..");
    ResolveJoined(t, root, base, p, ".");
    ResolveJoined(t, root, base, p, "");
    ResolveJoined(t, root, base, p, "..");
    var r := Resolve(t, root, base, p);
    if r.Found? {
      ResolveName(t, root, r.node, ".");
      ResolveName(t, root, r.node, "");
      ResolveName(t, root, r.node, "..");
    }
  }

  // ----- directories below directories

  lemma NameBehind(p: string, name: string)
    requires p != "" && '/' !in name
    ensures Rooted(p + "/" + name) == Rooted(p)
    ensures Init(Comps(p + "/" + name)) == Comps(p) && Last(Comps(p + "/" + name)) == name
  {
    CompsJoined(p, name);
    SplitName(name);
  }

  /** A directory just made under a fresh name can be made into: the way to its own first entry
      leads to it, it is a directory, and it is empty. */
  lemma MkdirBelow(t: Tree, root: int, p: string, dir: int, name: string)
    requires Ok(t) && Node(t, root) && Node(t, dir) && p != "" && !Special(Last(Comps(p)))
    requires Walk(t, root, Init(Comps(p))) == Found(dir) && Lookup(t, dir, Last(Comps(p))) == Missing
    requires '/' !in name && !Special(name)
    ensures var t' := Made(t, dir, Last(Comps(p)));
            && Ok(t') && Walk(t', root, Init(Comps(p + "/" + name))) == Found(|t|)
            && Node(t', |t|) && t'[|t|].mode == FILE_MODE_DIR
            && Ok(Made(t', |t|, name)) && Resolve(Made(t', |t|, name), root, root, p + "/" + name) == Found(|t| + 1)
  {
    var t' := Made(t, dir, Last(Comps(p)));
    NameBehind(p, name);
    MkdirFresh(t, root, root, p, dir);
    MadeEmpty(t, dir, Last(Comps(p)), name);
    MkdirFresh(t', root, root, p + "/" + name, |t|);
  }

  /** So a second `mkdir` below a directory just made succeeds, and both paths then lead to
      what was made. */
  method MakeNested(fs: FileSystem, p: string, name: string) returns (first: int, second: int)
    requires fs.Valid() && p != "" && '\0' !in p && !Special(Last(Comps(p))) && |Last(Comps(p))| < NAME_SIZE
    requires '\0' !in name && '/' !in name && !Special(name) && |name| < NAME_SIZE
    requires var d := Walk(fs.tree, fs.root, Init(Comps(p)));
             && d.Found? && Node(fs.tree, d.node) && fs.tree[d.node].mode == FILE_MODE_DIR
             && Lookup(fs.tree, d.node, Last(Comps(p))) == Missing
    modifies fs`tree
    ensures fs.Valid() && first == 0 && second == 0
    ensures Resolve(fs.tree, fs.root, fs.root, p + "/" + name) == Found(|old(fs.tree)| + 1)
    ensures |fs.tree| == |old(fs.tree)| + 2
  {
    ghost var d := Walk(fs.tree, fs.root, Init(Comps(p)));
    NameBehind(p, name);
    MkdirBelow(fs.tree, fs.root, p, d.node, name);
    first := fs.SysMkdir(p);
    second := fs.SysMkdir(p + "/" + name);
  }

  // ----- modes

  /** Every entry that `mkdir` and `mount` ever make is a directory. */
  lemma {:induction false} RunModes(ts: seq<Tree>, es: seq<Event>, i: int)
    requires |ts| == |es| + 1 && ts[0] == [Entry("/", FILE_MODE_DIR, 0, [], -1)]
    requires forall k :: 0 <= k < |es| ==> Step(ts[k], es[k], ts[k + 1])
    requires Node(ts[|es|], i)
    ensures |ts[|es|]| == |es| + 1 && ts[|es|][i].mode == 3
    decreases |es|
  {
    if |es| > 0 {
      var n := |es| - 1;
      var before, events := ts[..n + 1], es[..n];
      RunModes(before, events, 0);
      if i < |ts[n]| { RunModes(before, events, i); }
      assert Step(ts[n], es[n], ts[n + 1]);
    }
  }
}
