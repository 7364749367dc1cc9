/** Directory entries, mount points and path resolution (fs/fs.c:420-679). */
module Paths {

  const FILE_MODE_BLK := 1
  const FILE_MODE_DIR := 3
  const NAME_SIZE := 256

  /** A `struct dir_entry`: entries refer to each other by index. `children` lists the newest
      first; `mounted` is the root mounted over the entry, -1 for none. */
  datatype Entry = Entry(name: string, mode: int, parent: int, children: seq<int>, mounted: int)

  type Tree = seq<Entry>

  datatype Result = Found(node: int) | Missing

  predicate Node(t: Tree, i: int) { 0 <= i < |t| }

  /** Links stay in the tree; children know their parent; a mount leads to a newer entry, the
      root of its own file system, which is its own parent. */
  ghost predicate EntryOk(t: Tree, i: int)
    requires Node(t, i)
  {
    && Node(t, t[i].parent)
    && (forall k :: 0 <= k < |t[i].children| ==> i < t[i].children[k] < |t| && t[t[i].children[k]].parent == i)
    && (t[i].mounted != -1 ==> i < t[i].mounted < |t| && t[t[i].mounted].parent == t[i].mounted)
  }

  ghost predicate Ok(t: Tree) { |t| > 0 && forall i :: 0 <= i < |t| ==> EntryOk(t, i) }

  // ----- one component

  /** The entry that covers `i`, following mounts. */
  ghost function Top(t: Tree, i: int): (top: int)
    requires Ok(t) && Node(t, i)
    ensures i <= top < |t| && t[top].mounted == -1
    decreases |t| - i
  {
    assert EntryOk(t, i);
    if t[i].mounted == -1 then i else Top(t, t[i].mounted)
  }

  /** The first of `cs` called `name`, -1 for none. */
  function Named(t: Tree, cs: seq<int>, name: string): int
    requires forall k :: 0 <= k < |cs| ==> 0 <= cs[k] < |t|
  {
    if cs == [] then -1 else if t[cs[0]].name == name then cs[0] else Named(t, cs[1..], name)
  }

  predicate Stays(name: string) { name == "" || name == "." }

  predicate Special(name: string) { Stays(name) || name == ".." }

  lemma NamedAt(t: Tree, cs: seq<int>, name: string)
    requires forall k :: 0 <= k < |cs| ==> 0 <= cs[k] < |t|
    ensures Named(t, cs, name) == -1 || (Named(t, cs, name) in cs && t[Named(t, cs, name)].name == name)
    ensures Named(t, cs, name) == -1 <==> forall k :: 0 <= k < |cs| ==> t[cs[k]].name != name
  {
  }

  ghost function ChildNamed(t: Tree, d: int, name: string): (c: int)
    requires Ok(t) && Node(t, d)
    ensures c == -1 || (d < c < |t| && t[c].name == name && t[c].parent == d)
  {
    assert EntryOk(t, d);
    NamedAt(t, t[d].children, name);
    Named(t, t[d].children, name)
  }

  ghost function Lookup(t: Tree, d: int, name: string): Result
    requires Ok(t) && Node(t, d)
  {
    if Stays(name) then Found(d)
    else if name == ".." then Found(t[d].parent)
    else
      var c := ChildNamed(t, d, name);
      if c == -1 then Missing else Found(Top(t, c))
  }

  lemma LookupNode(t: Tree, d: int, name: string)
    requires Ok(t) && Node(t, d)
    ensures Lookup(t, d, name).Found? ==> Node(t, Lookup(t, d, name).node)
  {
    assert EntryOk(t, d);
  }

  /** An entry found by its name is never one that is mounted over. */
  lemma Uncovered(t: Tree, d: int, name: string)
    requires Ok(t) && Node(t, d) && !Special(name) && Lookup(t, d, name).Found?
    ensures Node(t, Lookup(t, d, name).node) && t[Lookup(t, d, name).node].mounted == -1
  {
    LookupNode(t, d, name);
  }

  lemma {:induction false} TopRoot(t: Tree, i: int)
    requires Ok(t) && Node(t, i)
    ensures t[i].mounted != -1 ==> t[Top(t, i)].parent == Top(t, i)
    decreases |t| - i
  {
    assert EntryOk(t, i);
    if t[i].mounted != -1 { TopRoot(t, t[i].mounted); }
  }

  /** ".." undoes a step down exactly when the child stepped to is not a mount point. */
  lemma UpUndoesDown(t: Tree, d: int, name: string)
    requires Ok(t) && Node(t, d) && !Special(name) && Lookup(t, d, name).Found?
    ensures Node(t, Lookup(t, d, name).node)
    ensures var c := ChildNamed(t, d, name);
            Node(t, c) && (Lookup(t, Lookup(t, d, name).node, "..") == Found(d) <==> t[c].mounted == -1)
  {
    TopRoot(t, ChildNamed(t, d, name));
  }

  // ----- paths

  /** Characters [i, j) of a text. */
  function Sub(s: string, i: int, j: int): (t: string)
    requires 0 <= i <= j <= |s|
    ensures |t| == j - i && forall k :: 0 <= k < j - i ==> t[k] == s[i + k]
  {
    seq(j - i, k requires 0 <= k < j - i => s[i + k])
  }

  /** The place of the next '/' from `i` on, or the end of the text. */
  function Slash(s: string, i: int): (n: int)
    requires 0 <= i <= |s|
    ensures i <= n <= |s| && (forall k :: i <= k < n ==> s[k] != '/') && (n < |s| ==> s[n] == '/')
    decreases |s| - i
  {
    if i == |s| || s[i] == '/' then i else Slash(s, i + 1)
  }

  /** The components between the slashes, from `i` on; no slash makes one component. */
  function Split(s: string, i: int): (c: seq<string>)
    requires 0 <= i <= |s|
    ensures c != []
    decreases |s| - i
  {
    var n := Slash(s, i);
    if n == |s| then [Sub(s, i, n)] else [Sub(s, i, n)] + Split(s, n + 1)
  }

  function Join(c: seq<string>): string
    requires c != []
  {
    if |c| == 1 then c[0] else c[0] + "/" + Join(c[1..])
  }

  /** `t` is what stands in `s` from `i` on. */
  predicate Ends(s: string, i: int, t: string) {
    0 <= i && i + |t| == |s| && forall k :: 0 <= k < |t| ==> t[k] == s[i + k]
  }

  lemma JoinMore(name: string, c: seq<string>)
    requires c != []
    ensures Join([name] + c) == name + "/" + Join(c)
  {
    assert ([name] + c)[1..] == c;
  }

  /** Joining the components with slashes gives the text back. */
  lemma {:induction false} JoinSplit(s: string, i: int)
    requires 0 <= i <= |s|
    ensures Ends(s, i, Join(Split(s, i))) && forall k :: 0 <= k < |Split(s, i)| ==> '/' !in Split(s, i)[k]
    decreases |s| - i
  {
    var n := Slash(s, i);
    if n < |s| {
      var rest := Split(s, n + 1);
      JoinSplit(s, n + 1);
      JoinMore(Sub(s, i, n), rest);
    }
  }

  lemma {:induction false} SlashAt(s: string, i: int, n: int)
    requires 0 <= i <= n <= |s|
    requires (forall k :: i <= k < n ==> s[k] != '/') && (n < |s| ==> s[n] == '/')
    ensures Slash(s, i) == n
    decreases n - i
  {
    if i < n { SlashAt(s, i + 1, n); }
  }

  /** A name at the end of the text. */
  lemma LastName(s: string, i: int, name: string)
    requires '/' !in name && Ends(s, i, name)
    ensures Slash(s, i) == |s| && Sub(s, i, |s|) == name
  {
    assert forall k :: i <= k < |s| ==> s[k] == name[k - i];
    SlashAt(s, i, |s|);
  }

  /** A name with a slash behind it. */
  lemma FirstName(s: string, i: int, name: string, rest: string)
    requires '/' !in name && Ends(s, i, name + "/" + rest)
    ensures Slash(s, i) == i + |name| < |s| && Sub(s, i, i + |name|) == name && Ends(s, i + |name| + 1, rest)
  {
    var t, n := name + "/" + rest, i + |name|;
    assert forall k :: i <= k < n ==> s[k] == t[k - i] == name[k - i];
    assert s[n] == t[|name|] == '/';
    SlashAt(s, i, n);
    assert forall k :: 0 <= k < |rest| ==> rest[k] == t[|name| + 1 + k];
  }

  /** Names joined with slashes are split into the same names. */
  lemma {:induction false} SplitJoin(s: string, i: int, c: seq<string>)
    requires c != [] && (forall k :: 0 <= k < |c| ==> '/' !in c[k]) && Ends(s, i, Join(c))
    ensures Split(s, i) == c
    decreases |c|
  {
    if |c| == 1 {
      LastName(s, i, c[0]);
    } else {
      FirstName(s, i, c[0], Join(c[1..]));
      SplitJoin(s, i + |c[0]| + 1, c[1..]);
    }
  }

  /** Folding `Lookup` over components. */
  ghost function Walk(t: Tree, d: int, comps: seq<string>): Result
    requires Ok(t) && Node(t, d)
    decreases |comps|
  {
    if comps == [] then Found(d) else
      LookupNode(t, d, comps[0]);
      var r := Lookup(t, d, comps[0]);
      if r.Missing? then Missing else Walk(t, r.node, comps[1..])
  }

  lemma WalkNode(t: Tree, d: int, comps: seq<string>)
    requires Ok(t) && Node(t, d)
    ensures Walk(t, d, comps).Found? ==> Node(t, Walk(t, d, comps).node)
    decreases |comps|
  {
    if comps != [] {
      LookupNode(t, d, comps[0]);
      if Lookup(t, d, comps[0]).Found? { WalkNode(t, Lookup(t, d, comps[0]).node, comps[1..]); }
    }
  }

  lemma {:induction false} WalkSteps(t: Tree, d: int, a: seq<string>, b: seq<string>)
    requires Ok(t) && Node(t, d)
    ensures Walk(t, d, a).Found? ==> Node(t, Walk(t, d, a).node)
    ensures Walk(t, d, a + b) == if Walk(t, d, a).Missing? then Missing else Walk(t, Walk(t, d, a).node, b)
    decreases |a|
  {
    if a == [] {
      assert a + b == b;
    } else {
      LookupNode(t, d, a[0]);
      assert (a + b)[1..] == a[1..] + b;
      if Lookup(t, d, a[0]).Found? { WalkSteps(t, Lookup(t, d, a[0]).node, a[1..], b); }
    }
  }

  function Moves(comps: seq<string>): seq<string> {
    if comps == [] then [] else (if Stays(comps[0]) then [] else [comps[0]]) + Moves(comps[1..])
  }

  /** Empty and "." components never change where a walk leads. */
  lemma {:induction false} StaysSkipped(t: Tree, d: int, comps: seq<string>)
    requires Ok(t) && Node(t, d)
    ensures Walk(t, d, comps) == Walk(t, d, Moves(comps))
    decreases |comps|
  {
    if comps != [] {
      LookupNode(t, d, comps[0]);
      if Stays(comps[0]) {
        StaysSkipped(t, d, comps[1..]);
        assert Moves(comps) == Moves(comps[1..]);
      } else {
        assert Moves(comps)[1..] == Moves(comps[1..]);
        if Lookup(t, d, comps[0]).Found? { StaysSkipped(t, Lookup(t, d, comps[0]).node, comps[1..]); }
      }
    }
  }

  function Rooted(path: string): bool { |path| > 0 && path[0] == '/' }

  /** The components of a path, without the slash that makes it absolute. */
  function Comps(path: string): (c: seq<string>)
    ensures c != []
  {
    Split(path, if Rooted(path) then 1 else 0)
  }

  function Init(c: seq<string>): seq<string>
    requires c != []
  {
    c[..|c| - 1]
  }

  function Last(c: seq<string>): string
    requires c != []
  {
    c[|c| - 1]
  }

  ghost function Resolve(t: Tree, root: int, base: int, path: string): Result
    requires Ok(t) && Node(t, root) && Node(t, base)
  {
    Walk(t, if Rooted(path) then root else base, Comps(path))
  }

  /** Paths that differ only in empty and "." components lead to the same entry. */
  lemma SameMoves(t: Tree, root: int, base: int, p: string, q: string)
    requires Ok(t) && Node(t, root) && Node(t, base)
    requires Rooted(p) == Rooted(q) && Moves(Comps(p)) == Moves(Comps(q))
    ensures Resolve(t, root, base, p) == Resolve(t, root, base, q)
  {
    var d := if Rooted(p) then root else base;
    StaysSkipped(t, d, Comps(p));
    StaysSkipped(t, d, Comps(q));
  }

  // ----- mkdir

  function Made(t: Tree, dir: int, name: string): Tree
    requires Node(t, dir)
  {
    t[dir := t[dir].(children := [|t|] + t[dir].children)] + [Entry(name, FILE_MODE_DIR, dir, [], -1)]
  }

  lemma MadeOk(t: Tree, dir: int, name: string)
    requires Ok(t) && Node(t, dir)
    ensures Ok(Made(t, dir, name))
  {
    var t' := Made(t, dir, name);
    forall i | 0 <= i < |t'| ensures EntryOk(t', i) {
      if i < |t| { assert EntryOk(t, i); }
    }
  }

  lemma {:induction false} MadeTop(t: Tree, dir: int, name: string, i: int)
    requires Ok(t) && Node(t, dir) && Node(t, i)
    ensures Ok(Made(t, dir, name)) && Top(Made(t, dir, name), i) == Top(t, i)
    decreases |t| - i
  {
    MadeOk(t, dir, name);
    assert EntryOk(t, i);
    if t[i].mounted != -1 { MadeTop(t, dir, name, t[i].mounted); }
  }

  lemma {:induction false} NamedKept(t: Tree, t': Tree, cs: seq<int>, name: string)
    requires forall k :: 0 <= k < |cs| ==> 0 <= cs[k] < |t|
    requires |t| <= |t'| && forall i :: 0 <= i < |t| ==> t'[i].name == t[i].name
    ensures Named(t', cs, name) == Named(t, cs, name)
    decreases |cs|
  {
    if cs != [] { NamedKept(t, t', cs[1..], name); }
  }

  /** A look-up of anything else is not affected by the new entry. */
  lemma MadeLookup(t: Tree, dir: int, name: string, d: int, n: string)
    requires Ok(t) && Node(t, dir) && Node(t, d)
    ensures Ok(Made(t, dir, name))
    ensures (d == dir && n == name && !Special(n)) || Lookup(Made(t, dir, name), d, n) == Lookup(t, d, n)
    ensures d == dir && n == name && !Special(n) ==> Lookup(Made(t, dir, name), d, n) == Found(|t|)
  {
    var t' := Made(t, dir, name);
    MadeOk(t, dir, name);
    assert EntryOk(t, d);
    if !Special(n) {
      NamedAt(t, t[d].children, n);
      NamedKept(t, t', t[d].children, n);
      assert d == dir ==> t'[d].children[1..] == t[d].children;
      var c := Named(t, t[d].children, n);
      if c != -1 { MadeTop(t, dir, name, c); }
    }
  }

  /** The walk asks directory `dir` for `name`. */
  ghost predicate Uses(t: Tree, d: int, comps: seq<string>, dir: int, name: string)
    requires Ok(t) && Node(t, d)
    decreases |comps|
  {
    comps != [] && ((d == dir && comps[0] == name) || (
      LookupNode(t, d, comps[0]);
      Lookup(t, d, comps[0]).Found? && Uses(t, Lookup(t, d, comps[0]).node, comps[1..], dir, name)))
  }

  /** Walks that do not ask for the new name in its directory lead where they led before. */
  lemma {:induction false} MadeWalk(t: Tree, dir: int, name: string, d: int, comps: seq<string>)
    requires Ok(t) && Node(t, dir) && Node(t, d) && !Uses(t, d, comps, dir, name)
    ensures Ok(Made(t, dir, name)) && Walk(Made(t, dir, name), d, comps) == Walk(t, d, comps)
    decreases |comps|
  {
    MadeOk(t, dir, name);
    if comps != [] {
      MadeLookup(t, dir, name, d, comps[0]);
      LookupNode(t, d, comps[0]);
      if Lookup(t, d, comps[0]).Found? { MadeWalk(t, dir, name, Lookup(t, d, comps[0]).node, comps[1..]); }
    }
  }

  /** Where a walk leads once `dir` has the empty directory `name` in it: stepping into it,
      the only way on is back up. Ends in `dir`. */
  ghost predicate ComesTo(t: Tree, d: int, comps: seq<string>, dir: int, name: string)
    requires Ok(t) && Node(t, d) && Node(t, dir)
    decreases |comps|
  {
    if comps == [] then d == dir
    else if d == dir && comps[0] == name then
      |comps| > 1 && comps[1] == ".." && ComesTo(t, dir, comps[2..], dir, name)
    else
      LookupNode(t, d, comps[0]);
      Lookup(t, d, comps[0]).Found? && ComesTo(t, Lookup(t, d, comps[0]).node, comps[1..], dir, name)
  }

  /** In the new, empty directory every component but "..", "." and "" is missing. */
  lemma MadeEmpty(t: Tree, dir: int, name: string, n: string)
    requires Ok(t) && Node(t, dir)
    ensures Ok(Made(t, dir, name))
    ensures Lookup(Made(t, dir, name), |t|, n) ==
            if Stays(n) then Found(|t|) else if n == ".." then Found(dir) else Missing
  {
    MadeOk(t, dir, name);
  }

  lemma {:induction false} MadeComesTo(t: Tree, dir: int, name: string, d: int, comps: seq<string>)
    requires Ok(t) && Node(t, dir) && Node(t, d) && !Special(name)
    requires forall k :: 0 <= k < |comps| ==> !Stays(comps[k])
    ensures Ok(Made(t, dir, name))
    ensures Walk(Made(t, dir, name), d, comps) == Found(dir) <==> ComesTo(t, d, comps, dir, name)
    decreases |comps|
  {
    var t' := Made(t, dir, name);
    MadeOk(t, dir, name);
    if comps != [] {
      MadeLookup(t, dir, name, d, comps[0]);
      LookupNode(t, d, comps[0]);
      if d == dir && comps[0] == name {
        if |comps| > 1 {
          MadeEmpty(t, dir, name, comps[1]);
          assert comps[1..][1..] == comps[2..];
          if comps[1] == ".." { MadeComesTo(t, dir, name, dir, comps[2..]); }
        }
      } else if Lookup(t, d, comps[0]).Found? {
        MadeComesTo(t, dir, name, Lookup(t, d, comps[0]).node, comps[1..]);
      }
    }
  }

  lemma {:induction false} MovesMove(comps: seq<string>)
    ensures forall k :: 0 <= k < |Moves(comps)| ==> !Stays(Moves(comps)[k])
    decreases |comps|
  {
    if comps != [] { MovesMove(comps[1..]); }
  }

  /** Only the step by the new name in `dir` leads to the new entry. */
  lemma LeadsToNew(t: Tree, dir: int, name: string, d: int, n: string)
    requires Ok(t) && Node(t, dir) && 0 <= d <= |t|
    ensures Ok(Made(t, dir, name))
    ensures Lookup(Made(t, dir, name), d, n) == Found(|t|) <==>
              (d == dir && n == name && !Special(n)) || (d == |t| && Stays(n))
  {
    MadeOk(t, dir, name);
    if d == |t| { MadeEmpty(t, dir, name, n); } else { MadeLookup(t, dir, name, d, n); LookupNode(t, d, n); }
  }

  /** A directory made under a name with a meaning of its own is never found. */
  lemma {:induction false} SpecialHidden(t: Tree, dir: int, name: string, d: int, comps: seq<string>)
    requires Ok(t) && Node(t, dir) && Node(t, d) && Special(name)
    ensures Ok(Made(t, dir, name)) && Walk(Made(t, dir, name), d, comps) == Walk(t, d, comps)
    decreases |comps|
  {
    MadeOk(t, dir, name);
    if comps != [] {
      MadeLookup(t, dir, name, d, comps[0]);
      LookupNode(t, d, comps[0]);
      if Lookup(t, d, comps[0]).Found? { SpecialHidden(t, dir, name, Lookup(t, d, comps[0]).node, comps[1..]); }
    }
  }

  lemma MkdirOrdinary(t: Tree, from: int, comps: seq<string>, dir: int)
    requires Ok(t) && Node(t, from) && Node(t, dir) && comps != [] && !Special(Last(comps))
    ensures Ok(Made(t, dir, Last(comps)))
    ensures Walk(Made(t, dir, Last(comps)), from, comps) == Found(|t|) <==>
              ComesTo(t, from, Moves(Init(comps)), dir, Last(comps))
  {
    var name := Last(comps);
    var t' := Made(t, dir, name);
    MadeOk(t, dir, name);
    assert comps == Init(comps) + [name];
    WalkSteps(t', from, Init(comps), [name]);
    StaysSkipped(t', from, Init(comps));
    MovesMove(Init(comps));
    MadeComesTo(t, dir, name, from, Moves(Init(comps)));
    var r := Walk(t', from, Init(comps));
    if r.Found? {
      LeadsToNew(t, dir, name, r.node, name);
      LookupNode(t', r.node, name);
    }
  }

  /** After `mkdir path`, resolving `path` gives the new entry exactly when the last component
      is an ordinary name and the way to it does not get lost in the new directory, which
      hides an older entry of the same name. */
  lemma MkdirFound(t: Tree, root: int, base: int, path: string, dir: int)
    requires Ok(t) && Node(t, root) && Node(t, base) && Node(t, dir)
    ensures Ok(Made(t, dir, Last(Comps(path))))
    ensures var name, from := Last(Comps(path)), if Rooted(path) then root else base;
            Resolve(Made(t, dir, name), root, base, path) == Found(|t|) <==>
              !Special(name) && ComesTo(t, from, Moves(Init(Comps(path))), dir, name)
  {
    var name, from := Last(Comps(path)), if Rooted(path) then root else base;
    if Special(name) {
      SpecialHidden(t, dir, name, from, Comps(path));
      WalkNode(t, from, Comps(path));
    } else {
      MkdirOrdinary(t, from, Comps(path), dir);
    }
  }

  /** Nothing is hidden when `dir` had no entry of that name: the way there is as before. */
  lemma {:induction false} FreshName(t: Tree, d: int, comps: seq<string>, dir: int, name: string)
    requires Ok(t) && Node(t, d) && Node(t, dir) && !Special(name)
    requires Walk(t, d, comps) == Found(dir) && Lookup(t, dir, name) == Missing
    ensures ComesTo(t, d, comps, dir, name)
    decreases |comps|
  {
    if comps != [] {
      LookupNode(t, d, comps[0]);
      FreshName(t, Lookup(t, d, comps[0]).node, comps[1..], dir, name);
    }
  }

  /** `mkdir` of a name its directory does not have yet: the path then leads to it. */
  lemma MkdirFresh(t: Tree, root: int, base: int, path: string, dir: int)
    requires Ok(t) && Node(t, root) && Node(t, base) && Node(t, dir) && !Special(Last(Comps(path)))
    requires Walk(t, if Rooted(path) then root else base, Init(Comps(path))) == Found(dir)
    requires Lookup(t, dir, Last(Comps(path))) == Missing
    ensures Ok(Made(t, dir, Last(Comps(path))))
    ensures Resolve(Made(t, dir, Last(Comps(path))), root, base, path) == Found(|t|)
  {
    var from := if Rooted(path) then root else base;
    StaysSkipped(t, from, Init(Comps(path)));
    FreshName(t, from, Moves(Init(Comps(path))), dir, Last(Comps(path)));
    MkdirFound(t, root, base, path, dir);
  }

  /** The shadowing case happens: in a root with `a` holding `b`, making "a/b/../../a"
      succeeds, and afterwards that path leads nowhere. */
  lemma MkdirLost()
    ensures var t := [Entry("/", FILE_MODE_DIR, 0, [1], -1), Entry("a", FILE_MODE_DIR, 0, [2], -1),
                     Entry("b", FILE_MODE_DIR, 1, [], -1)];
            && Ok(t) && Ok(Made(t, 0, "a")) && Walk(t, 0, ["a", "b", "..", ".."]) == Found(0)
            && Walk(Made(t, 0, "a"), 0, ["a", "b", "..", "..", "a"]) == Missing
  {
    var t := [Entry("/", FILE_MODE_DIR, 0, [1], -1), Entry("a", FILE_MODE_DIR, 0, [2], -1),
                     Entry("b", FILE_MODE_DIR, 1, [], -1)];
    assert EntryOk(t, 0) && EntryOk(t, 1) && EntryOk(t, 2);
    assert Ok(t);
    MadeOk(t, 0, "a");
    assert Lookup(t, 0, "a") == Found(1) && Lookup(t, 1, "b") == Found(2);
    assert Lookup(t, 2, "..") == Found(1) && Lookup(t, 1, "..") == Found(0);
    var comps := ["a", "b", "..", ".."];
    assert comps[1..] == ["b", "..", ".."] && comps[1..][1..] == ["..", ".."] && comps[1..][1..][1..] == [".."];
    assert Walk(t, 1, [".."]) == Found(0) by { assert Walk(t, 0, []) == Found(0); }
    assert Walk(t, 2, ["..", ".."]) == Found(0) by { assert ["..", ".."][1..] == [".."]; }
    assert Walk(t, 1, ["b", "..", ".."]) == Found(0);
    MadeLookup(t, 0, "a", 0, "a");
    MadeEmpty(t, 0, "a", "b");
    var longer := ["a", "b", "..", "..", "a"];
    assert longer[1..][0] == "b";
  }

  // ----- mount

  /** A new root mounted over `dir`. */
  function MountedOver(t: Tree, dir: int): Tree
    requires Node(t, dir)
  {
    t[dir := t[dir].(mounted := |t|)] + [Entry("/", FILE_MODE_DIR, |t|, [], -1)]
  }

  lemma MountOk(t: Tree, dir: int)
    requires Ok(t) && Node(t, dir) && t[dir].mounted == -1
    ensures Ok(MountedOver(t, dir))
  {
    var t' := MountedOver(t, dir);
    forall i | 0 <= i < |t'| ensures EntryOk(t', i) {
      if i < |t| { assert EntryOk(t, i); }
    }
  }

  lemma {:induction false} MountTop(t: Tree, dir: int, i: int)
    requires Ok(t) && Node(t, dir) && t[dir].mounted == -1 && Node(t, i)
    ensures Ok(MountedOver(t, dir))
    ensures Top(MountedOver(t, dir), i) == if Top(t, i) == dir then |t| else Top(t, i)
    decreases |t| - i
  {
    var t' := MountedOver(t, dir);
    MountOk(t, dir);
    assert EntryOk(t, i);
    if i == dir {
      assert Top(t', |t|) == |t|;
    } else if t[i].mounted != -1 {
      MountTop(t, dir, t[i].mounted);
    }
  }

  /** A mount changes exactly the look-ups by name that gave the directory: they give the
      new root. "." and ".." see no mount. */
  lemma MountCovers(t: Tree, dir: int, d: int, n: string)
    requires Ok(t) && Node(t, dir) && t[dir].mounted == -1 && Node(t, d)
    ensures Ok(MountedOver(t, dir))
    ensures Lookup(MountedOver(t, dir), d, n) ==
            if !Special(n) && Lookup(t, d, n) == Found(dir) then Found(|t|) else Lookup(t, d, n)
  {
    var t' := MountedOver(t, dir);
    MountOk(t, dir);
    assert EntryOk(t, d);
    if !Special(n) {
      NamedAt(t, t[d].children, n);
      NamedKept(t, t', t[d].children, n);
      var c := Named(t, t[d].children, n);
      if c != -1 { MountTop(t, dir, c); }
    }
  }

  /** A path to a directory whose last component is a name leads to the new root after the
      mount, when the way there did not pass through that directory before. */
  lemma {:induction false} MountFound(t: Tree, dir: int, d: int, comps: seq<string>)
    requires Ok(t) && Node(t, dir) && t[dir].mounted == -1 && Node(t, d)
    requires comps != [] && Walk(t, d, comps) == Found(dir) && !Special(Last(comps))
    requires forall k :: 0 < k < |comps| ==> Walk(t, d, comps[..k]) != Found(dir)
    ensures Ok(MountedOver(t, dir)) && Walk(MountedOver(t, dir), d, comps) == Found(|t|)
    decreases |comps|
  {
    MountCovers(t, dir, d, comps[0]);
    LookupNode(t, d, comps[0]);
    var e := Lookup(t, d, comps[0]).node;
    if |comps| > 1 {
      assert Walk(t, e, []) == Found(e) && comps[..1][1..] == [];
      assert e != dir;
      forall k | 0 < k < |comps[1..]| ensures Walk(t, e, comps[1..][..k]) != Found(dir) {
        assert comps[..k + 1][1..] == comps[1..][..k];
      }
      MountFound(t, dir, e, comps[1..]);
    } else {
      assert comps[1..] == [];
    }
  }

  // ----- whole runs

  datatype Event = Mkdir(dir: int, name: string) | Mount(dir: int)

  ghost predicate Step(t: Tree, e: Event, t': Tree) {
    && Node(t, e.dir) && t[e.dir].mode == FILE_MODE_DIR
    && match e
       case Mkdir(dir, name) => t' == Made(t, dir, name)
       case Mount(dir) => t[dir].mounted == -1 && t' == MountedOver(t, dir)
  }

  lemma StepOk(t: Tree, e: Event, t': Tree)
    requires Ok(t) && Step(t, e, t')
    ensures Ok(t')
  {
    match e
    case Mkdir(dir, name) => MadeOk(t, dir, name);
    case Mount(dir) => MountOk(t, dir);
  }

  /** In every reachable tree mounts lead strictly forward, so following them ends. */
  lemma {:induction false} RunOk(ts: seq<Tree>, es: seq<Event>)
    requires |ts| == |es| + 1 && ts[0] == [Entry("/", FILE_MODE_DIR, 0, [], -1)]
    requires forall k :: 0 <= k < |es| ==> Step(ts[k], es[k], ts[k + 1])
    ensures Ok(ts[|es|])
    decreases |es|
  {
    if |es| > 0 {
      RunOk(ts[..|es|], es[..|es| - 1]);
      StepOk(ts[|es| - 1], es[|es| - 1], ts[|es|]);
    } else {
      assert EntryOk(ts[0], 0);
    }
  }
}
