/** Path resolution as the source does it: one pass over the characters of the path, and
    loops over children and mounts. */
module PathScanner {
  import opened Paths

  /** The first of several components taken. */
  lemma OneFurther(t: Tree, d: int, name: string, rest: seq<string>)
    requires Ok(t) && Node(t, d) && rest != []
    ensures var r := Lookup(t, d, name);
            && (r.Found? ==> Node(t, r.node))
            && Walk(t, d, Init([name] + rest)) == (if r.Missing? then Missing else Walk(t, r.node, Init(rest)))
            && Last([name] + rest) == Last(rest)
  {
    LookupNode(t, d, name);
    assert Init([name] + rest) == [name] + Init(rest);
    assert ([name] + Init(rest))[1..] == Init(rest);
  }

  /** The last component is not taken: it is what the walk leaves over. */
  lemma NothingLeft(t: Tree, d: int, path: string, last: int)
    requires Ok(t) && Node(t, d) && 0 <= last <= |path| && Slash(path, last) == |path|
    ensures Walk(t, d, Init(Split(path, last))) == Found(d)
    ensures Last(Split(path, last)) == Sub(path, last, |path|)
  {
    assert Init(Split(path, last)) == [];
  }

  lemma UnlinkedOk(t: Tree, e: Entry)
    requires Ok(t) && e == Entry("/", FILE_MODE_DIR, |t|, [], -1)
    ensures Ok(t + [e])
  {
    forall i | 0 <= i < |t + [e]| ensures EntryOk(t + [e], i) {
      if i < |t| { assert EntryOk(t, i); }
    }
  }

  class FileSystem {
    var tree: Tree
    var root: int
    var pwd: int

    ghost predicate Valid()
      reads this
    {
      Ok(tree) && Node(tree, root) && Node(tree, pwd)
    }

    /** `mount_root`, up to the mounting of the root. */
    constructor ()
      ensures Valid() && tree == [Entry("/", FILE_MODE_DIR, 0, [], -1)] && root == 0 && pwd == 0
    {
      tree := [Entry("/", FILE_MODE_DIR, 0, [], -1)];
      root, pwd := 0, 0;
      new;
      assert EntryOk(tree, 0);
    }

    method Follow(i: int) returns (top: int)
      requires Valid() && Node(tree, i)
      ensures top == Top(tree, i)
    {
      top := i;
      while tree[top].mounted != -1
        invariant Node(tree, top) && Top(tree, top) == Top(tree, i)
        decreases |tree| - top
      {
        assert EntryOk(tree, top);
        top := tree[top].mounted;
      }
    }

    method LookupIn(dir: int, name: string) returns (r: Result)
      requires Valid() && Node(tree, dir)
      ensures r == Lookup(tree, dir, name)
    {
      if |name| == 1 && name[0] == '.' { return Found(dir); }
      if |name| == 2 && name[0] == '.' && name[1] == '.' { return Found(tree[dir].parent); }
      if |name| == 0 { return Found(dir); }
      var cs := tree[dir].children;
      assert EntryOk(tree, dir);
      for k := 0 to |cs|
        invariant Named(tree, cs, name) == Named(tree, cs[k..], name)
      {
        if tree[cs[k]].name == name {
          var top := Follow(cs[k]);
          return Found(top);
        }
      }
      r := Missing;
    }

    /** Runs over one component from `start` on, to the slash or the end of text behind it. */
    method ScanName(path: string, text: string, start: int) returns (len: int, c: char)
      requires text == path + "\0" && '\0' !in path && 0 <= start <= |path|
      ensures 0 <= len && start + len == Slash(path, start)
      ensures c == text[start + len] && (c == '\0' <==> start + len == |path|)
    {
      len := 0;
      var next := start;
      c := text[next];
      next := next + 1;
      while c != '\0' && c != '/'
        invariant 0 <= len && start + len <= |path| && next == start + len + 1 && c == text[start + len]
        invariant forall i :: start <= i < start + len ==> path[i] != '/'
        decreases |path| - len
      {
        len := len + 1;
        c := text[next];
        next := next + 1;
      }
      SlashAt(path, start, start + len);
    }

    /** One turn of the loop: the component before the slash at `last + len` is taken. */
    method Enter(path: string, last: int, len: int, dir: int) returns (r: Result)
      requires Valid() && Node(tree, dir) && 0 <= last <= |path| && 0 <= len && last + len == Slash(path, last) < |path|
      ensures r.Missing? ==> Walk(tree, dir, Init(Split(path, last))) == Missing
      ensures r.Found? ==>
                && Node(tree, r.node)
                && Walk(tree, r.node, Init(Split(path, last + len + 1))) == Walk(tree, dir, Init(Split(path, last)))
                && Last(Split(path, last + len + 1)) == Last(Split(path, last))
    {
      r := LookupIn(dir, Sub(path, last, last + len));
      OneFurther(tree, dir, Sub(path, last, last + len), Split(path, last + len + 1));
    }

    /** The two-phase loop, from character `start` and directory `d` on. */
    method Descend(path: string, text: string, start: int, d: int) returns (r: Result, last: int, len: int)
      requires Valid() && Node(tree, d) && text == path + "\0" && '\0' !in path && 0 <= start <= |path|
      ensures r == Walk(tree, d, Init(Split(path, start)))
      ensures r.Found? ==> Node(tree, r.node) && 0 <= last && 0 <= len && last + len <= |path|
                           && Sub(path, last, last + len) == Last(Split(path, start))
    {
      var dir := d;
      last := start;
      ghost var goal, name := Walk(tree, d, Init(Split(path, start))), Last(Split(path, start));
      var c;
      len, c := ScanName(path, text, last);
      while c != '\0'
        invariant start <= last <= |path| && Node(tree, dir)
        invariant 0 <= len && last + len == Slash(path, last) && (c == '\0' <==> last + len == |path|)
        invariant Walk(tree, dir, Init(Split(path, last))) == goal && Last(Split(path, last)) == name
        decreases |path| - last
      {
        var step := Enter(path, last, len, dir);
        if step.Missing? { return Missing, 0, 0; }
        dir := step.node;
        last := last + len + 1;
        len, c := ScanName(path, text, last);
      }
      NothingLeft(tree, dir, path, last);
      r := Found(dir);
    }

    /** The directory that holds the last component, and where that component stands. */
    method GetParentDirEntry(path: string, base: int) returns (r: Result, last: int, len: int)
      requires Valid() && Node(tree, base) && '\0' !in path
      ensures r == Walk(tree, if Rooted(path) then root else base, Init(Comps(path)))
      ensures r.Found? ==> Node(tree, r.node) && 0 <= last && 0 <= len && last + len <= |path|
                           && Sub(path, last, last + len) == Last(Comps(path))
    {
      var text := path + "\0";
      if text[0] == '/' {
        r, last, len := Descend(path, text, 1, root);
      } else {
        r, last, len := Descend(path, text, 0, base);
      }
    }

    method Namei(path: string) returns (r: Result)
      requires Valid() && '\0' !in path
      ensures r == Resolve(tree, root, pwd, path)
    {
      var last, len;
      r, last, len := GetParentDirEntry(path, pwd);
      ghost var from, comps := if Rooted(path) then root else pwd, Comps(path);
      assert comps == Init(comps) + [Last(comps)];
      WalkSteps(tree, from, Init(comps), [Last(comps)]);
      if r.Missing? { return; }
      LookupNode(tree, r.node, Last(comps));
      r := LookupIn(r.node, Sub(path, last, last + len));
    }

    /** Makes a directory; a relative path starts from the root here, not from `pwd`. */
    method SysMkdir(path: string) returns (ret: int)
      requires Valid() && '\0' !in path && |Last(Comps(path))| < NAME_SIZE
      modifies this`tree
      ensures Valid()
      ensures var d := Walk(old(tree), root, Init(Comps(path)));
              if d.Found? && Node(old(tree), d.node) && old(tree)[d.node].mode == FILE_MODE_DIR
              then ret == 0 && tree == Made(old(tree), d.node, Last(Comps(path)))
                   && Step(old(tree), Mkdir(d.node, Last(Comps(path))), tree)
              else ret == -1 && tree == old(tree)
    {
      var r, last, len := GetParentDirEntry(path, root);
      if r.Missing? { return -1; }
      var dir := r.node;
      if tree[dir].mode != FILE_MODE_DIR { return -1; }
      MadeOk(tree, dir, Last(Comps(path)));
      var entry := Entry(Sub(path, last, last + len), FILE_MODE_DIR, dir, [], -1);
      tree := tree + [entry];
      tree := tree[dir := tree[dir].(children := [|tree| - 1] + tree[dir].children)];
      assert tree == Made(old(tree), dir, Last(Comps(path)));
      ret := 0;
    }

    /** The file system's fresh root, linked over the directory that the mounts lead to. */
    method Attach(d: int)
      requires Valid() && Node(tree, d) && tree[d].mounted == -1
      modifies this`tree
      ensures Valid() && tree == MountedOver(old(tree), d)
    {
      MountOk(tree, d);
      var top := |tree|;
      tree := tree + [Entry("/", FILE_MODE_DIR, top, [], -1)];
      UnlinkedOk(old(tree), tree[top]);
      var dir := Follow(d);
      tree := tree[dir := tree[dir].(mounted := top)];
      assert tree == MountedOver(old(tree), dir);
    }

    /** Mounts a new file system over a directory; `known` tells whether the type is registered. */
    method SysMount(device: string, path: string, known: bool) returns (ret: int)
      requires Valid() && '\0' !in device && '\0' !in path
      modifies this`tree
      ensures Valid()
      ensures var v, d := Resolve(old(tree), root, pwd, device), Resolve(old(tree), root, pwd, path);
              if && known && v.Found? && Node(old(tree), v.node)
                 && (old(tree)[v.node].mode == FILE_MODE_DIR || old(tree)[v.node].mode == FILE_MODE_BLK)
                 && d.Found? && Node(old(tree), d.node)
                 && old(tree)[d.node].mode == FILE_MODE_DIR && old(tree)[d.node].mounted == -1
              then ret == 0 && tree == MountedOver(old(tree), d.node) && Step(old(tree), Mount(d.node), tree)
              else ret == -1 && tree == old(tree)
    {
      if !known { return -1; }
      var v := Namei(device);
      if v.Missing? { return -1; }
      WalkNode(tree, if Rooted(device) then root else pwd, Comps(device));
      if tree[v.node].mode != FILE_MODE_DIR && tree[v.node].mode != FILE_MODE_BLK { return -1; }
      var d := Namei(path);
      if d.Missing? { return -1; }
      WalkNode(tree, if Rooted(path) then root else pwd, Comps(path));
      var dir := d.node;
      if tree[dir].mode != FILE_MODE_DIR { return -1; }
      if tree[dir].mounted != -1 { return -1; }
      Attach(dir);
      ret := 0;
    }
  }
}
