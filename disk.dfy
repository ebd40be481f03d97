/** The local filesystem as the disk backend sees it through Node's `fs` and
    `path` modules: a tree of files and directories below the working directory,
    each entry addressed by its path segments, together with the order in which
    the entries were created, which is the order a directory read reports them in. */
module Disk {
  import opened Results
  import opened Strings
  import opened Storage

  /** Path segments below the working directory; [] is the working directory itself. */
  type Path = seq<string>

  datatype Node = File(data: Bytes) | Dir

  datatype Tree = Tree(nodes: map<Path, Node>, order: seq<Path>)

  const ENOENT := "ENOENT: no such file or directory"
  const ENOTDIR := "ENOTDIR: not a directory"
  const EISDIR := "EISDIR: illegal operation on a directory"
  const EEXIST := "EEXIST: file already exists"

  /** `dir` is `p` or one of its ancestors. */
  predicate Within(dir: Path, p: Path) {
    |dir| <= |p| && p[..|dir|] == dir
  }

  /** `p` is an entry directly inside `dir`. */
  predicate IsChild(dir: Path, p: Path) {
    |p| == |dir| + 1 && p[..|dir|] == dir
  }

  /** `fs.existsSync`: the working directory always exists. */
  predicate Exists(t: Tree, p: Path) {
    p == [] || p in t.nodes
  }

  predicate IsDir(t: Tree, p: Path) {
    p == [] || (p in t.nodes && t.nodes[p].Dir?)
  }

  /** The entry at `p` sits in a directory. */
  predicate InDir(t: Tree, p: Path) {
    |p| > 0 && IsDir(t, p[..|p| - 1])
  }

  /** Every entry is listed once in the creation order, and sits in a directory. */
  ghost predicate Valid(t: Tree) {
    && Distinct(t.order)
    && (forall p :: p in t.nodes <==> p in t.order)
    && (forall p {:trigger InDir(t, p)} :: p in t.nodes ==> InDir(t, p))
  }

  /** The segments of a path string that are not empty (`path.join` drops the rest). */
  function NonEmpty(segs: seq<string>): (r: Path)
    ensures forall s :: s in r <==> s in segs && s != ""
  {
    if segs == [] then []
    else
      var rest := NonEmpty(segs[1..]);
      assert forall s :: s in segs <==> s == segs[0] || s in segs[1..];
      if segs[0] == "" then rest else [segs[0]] + rest
  }

  /** `path.join(base, ...parts)`: the parts are joined with "/" and cut into
      segments, empty ones dropped; "." and ".." are kept as ordinary names. */
  function PathJoin(base: Path, parts: seq<string>): Path {
    base + NonEmpty(Split(Join(parts, "/"), '/'))
  }

  /** The string `path.join` gives for a path. */
  function PathString(p: Path): string {
    if p == [] then "." else Join(p, "/")
  }

  /** The entries directly inside `dir`, in creation order. */
  function Children(order: seq<Path>, dir: Path): (r: seq<Path>)
    ensures forall q :: q in r <==> q in order && IsChild(dir, q)
    ensures Distinct(order) ==> Distinct(r)
  {
    if order == [] then []
    else
      var rest := Children(order[1..], dir);
      assert forall q :: q in order <==> q == order[0] || q in order[1..];
      if IsChild(dir, order[0]) then [order[0]] + rest else rest
  }

  /** The last segment of each of a directory's children. */
  function Names(dir: Path, ps: seq<Path>): (r: seq<string>)
    requires forall i :: 0 <= i < |ps| ==> IsChild(dir, ps[i])
    ensures |r| == |ps| && forall i :: 0 <= i < |ps| ==> ps[i] == dir + [r[i]]
  {
    forall i | 0 <= i < |ps| ensures |ps[i]| == |dir| + 1 && ps[i] == dir + [ps[i][|dir|]] {
      assert IsChild(dir, ps[i]);
      assert ps[i] == ps[i][..|dir|] + [ps[i][|dir|]];
    }
    seq(|ps|, i requires 0 <= i < |ps| => ps[i][|dir|])
  }

  /** The names a directory read reports, in creation order. */
  function Entries(t: Tree, dir: Path): (r: seq<string>)
    ensures forall name :: name in r <==> dir + [name] in t.order
  {
    var cs := Children(t.order, dir);
    var r := Names(dir, cs);
    assert forall name :: name in r ==> dir + [name] in cs;
    assert forall q :: IsChild(dir, q) ==> q == dir + [q[|dir|]];
    r
  }

  /** A proper ancestor of `p` is a file, so the lookup of `p` stops there. */
  predicate FileAbove(t: Tree, p: Path) {
    exists a :: a in t.nodes && Within(a, p) && a != p && t.nodes[a].File?
  }

  /** The error Node reports for a path that is not a directory: ENOTDIR when
      the path is a file or lies below one, ENOENT when it is simply missing. */
  function NotDirError(t: Tree, p: Path): string {
    if Exists(t, p) || FileAbove(t, p) then ENOTDIR else ENOENT
  }

  /** `fs.readdirSync(dir)`: fails when `dir` is missing, is a file or lies below a file. */
  function ReadDir(t: Tree, dir: Path): (r: Result<seq<string>>)
    ensures r.Ok? <==> IsDir(t, dir)
    ensures r.Ok? ==> r.value == Entries(t, dir)
    ensures r.Err? ==> (r.error == ENOTDIR <==> Exists(t, dir) || FileAbove(t, dir))
    ensures r.Err? ==> (r.error == ENOENT <==> !Exists(t, dir) && !FileAbove(t, dir))
  {
    if IsDir(t, dir) then Ok(Entries(t, dir))
    else Err(NotDirError(t, dir))
  }

  /** The children of `dir` that are directories (`readdirSync` with file types,
      filtered on `isDirectory()`), in creation order. */
  function DirChildren(t: Tree, cs: seq<Path>): (r: seq<Path>)
    ensures forall q :: q in r <==> q in cs && q in t.nodes && t.nodes[q].Dir?
    ensures Distinct(cs) ==> Distinct(r)
  {
    if cs == [] then []
    else
      var rest := DirChildren(t, cs[1..]);
      assert forall q :: q in cs <==> q == cs[0] || q in cs[1..];
      if cs[0] in t.nodes && t.nodes[cs[0]].Dir? then [cs[0]] + rest else rest
  }

  /** The names of the subdirectories of `dir`. */
  function SubDirNames(t: Tree, dir: Path): (r: seq<string>)
    ensures forall name :: name in r <==> dir + [name] in t.order && dir + [name] in t.nodes && t.nodes[dir + [name]].Dir?
  {
    var ds := DirChildren(t, Children(t.order, dir));
    var r := Names(dir, ds);
    assert forall name :: name in r ==> dir + [name] in ds;
    assert forall q :: IsChild(dir, q) ==> q == dir + [q[|dir|]];
    r
  }

  /** No entry on the way to `dir`, `dir` included, is a file. */
  predicate NoFileOnWay(t: Tree, dir: Path) {
    forall a :: Within(a, dir) && a in t.nodes ==> t.nodes[a].Dir?
  }

  /** The way to `dir` is the way to its parent and `dir` itself. */
  lemma NoFileOnWayStep(t: Tree, dir: Path)
    requires dir != []
    ensures NoFileOnWay(t, dir) <==>
      NoFileOnWay(t, dir[..|dir| - 1]) && (dir in t.nodes ==> t.nodes[dir].Dir?)
  {
    var parent := dir[..|dir| - 1];
    forall a ensures Within(a, dir) <==> Within(a, parent) || a == dir {
      if Within(a, parent) {
        assert dir[..|a|] == parent[..|a|];
      }
    }
  }

  /** `fs.mkdirSync(dir, { recursive: true })`: creates the missing ancestors
      of `dir` and `dir` itself; fails exactly when one of them is a file, with
      EEXIST when that file is `dir` itself and ENOTDIR when it lies above. */
  function MakeDirs(t: Tree, dir: Path): (r: Result<Tree>)
    requires Valid(t)
    ensures r.Ok? <==> NoFileOnWay(t, dir)
    ensures r.Err? ==> (r.error == EEXIST <==> dir in t.nodes && t.nodes[dir].File?)
    ensures r.Err? ==> (r.error == ENOTDIR <==> FileAbove(t, dir))
    ensures r.Ok? ==> Valid(r.value) && IsDir(r.value, dir)
    ensures r.Ok? ==> forall p :: p in t.nodes ==> p in r.value.nodes && r.value.nodes[p] == t.nodes[p]
    ensures r.Ok? ==> forall p :: p in r.value.nodes && p !in t.nodes ==> Within(p, dir) && r.value.nodes[p] == Dir
    decreases |dir|
  {
    if dir == [] then
      assert [] !in t.nodes by {
        assert [] in t.nodes ==> InDir(t, []);
      }
      Ok(t)
    else if dir in t.nodes && t.nodes[dir].File? then
      assert !FileAbove(t, dir) by {
        forall a | a in t.nodes && Within(a, dir) && a != dir ensures t.nodes[a].Dir? {
          assert InDir(t, a);
          AncestorIsDir(t, a, dir);
        }
      }
      Err(EEXIST)
    else
      NoFileOnWayStep(t, dir);
      FileAboveStep(t, dir);
      match MakeDirs(t, dir[..|dir| - 1])
      case Err(_) => Err(ENOTDIR)
      case Ok(t1) =>
        if dir in t1.nodes then
          Ok(t1)
        else
          var t2 := Tree(t1.nodes[dir := Dir], t1.order + [dir]);
          AddDirValid(t1, dir);
          Ok(t2)
  }

  /** A file above `dir` is a file on the way to its parent, and back. */
  lemma FileAboveStep(t: Tree, dir: Path)
    requires dir != []
    ensures FileAbove(t, dir) <==> !NoFileOnWay(t, dir[..|dir| - 1])
  {
    var parent := dir[..|dir| - 1];
    forall a ensures Within(a, dir) && a != dir <==> Within(a, parent) {
      if Within(a, parent) {
        assert dir[..|a|] == parent[..|a|];
      }
    }
  }

  /** Adding a directory inside an existing directory keeps a tree valid. */
  lemma AddDirValid(t: Tree, dir: Path)
    requires Valid(t) && dir !in t.nodes && InDir(t, dir)
    ensures Valid(Tree(t.nodes[dir := Dir], t.order + [dir]))
  {
    var t2 := Tree(t.nodes[dir := Dir], t.order + [dir]);
    forall p | p in t2.nodes ensures InDir(t2, p) {
      if p != dir {
        assert InDir(t, p);
      }
    }
    forall i, j | 0 <= i < j < |t2.order| ensures t2.order[i] != t2.order[j] {
      if j == |t.order| {
        assert t2.order[i] in t.order;
      }
    }
  }

  /** The creation order without `p`. */
  function Without(order: seq<Path>, p: Path): (r: seq<Path>)
    ensures forall q :: q in r <==> q in order && q != p
    ensures Distinct(order) ==> Distinct(r)
  {
    if order == [] then []
    else
      var rest := Without(order[1..], p);
      assert forall q :: q in order <==> q == order[0] || q in order[1..];
      assert Distinct(order) ==> order[0] !in order[1..];
      if order[0] == p then rest else [order[0]] + rest
  }

  /** `fs.promises.rename(src, dst)` for a regular file `src`: it replaces a file
      at `dst`; it fails exactly when `src` is missing or a directory, when
      `dst`'s directory is missing or is a file, or when `dst` is a directory. */
  function Rename(t: Tree, src: Path, dst: Path): (r: Result<Tree>)
    requires Valid(t)
    ensures r.Ok? <==> src in t.nodes && t.nodes[src].File? && InDir(t, dst) && !(dst in t.nodes && t.nodes[dst].Dir?)
    ensures r.Ok? ==> Valid(r.value)
    ensures r.Ok? ==> src in t.nodes && t.nodes[src].File?
    ensures r.Ok? ==> InDir(t, dst) && !(dst in t.nodes && t.nodes[dst].Dir?)
    ensures r.Ok? ==> dst in r.value.nodes && r.value.nodes[dst] == t.nodes[src]
    ensures r.Ok? && src != dst ==> src !in r.value.nodes
    ensures r.Ok? ==> forall p :: p in t.nodes && p != src && p != dst ==> p in r.value.nodes && r.value.nodes[p] == t.nodes[p]
    ensures r.Ok? ==> forall p :: p in r.value.nodes ==> p in t.nodes || p == dst
    ensures src !in t.nodes ==> r == Err(if FileAbove(t, src) then ENOTDIR else ENOENT)
    ensures src in t.nodes && t.nodes[src].File? && dst != [] && !IsDir(t, dst[..|dst| - 1]) ==>
      r == Err(if FileAbove(t, dst) then ENOTDIR else ENOENT)
  {
    if src !in t.nodes then Err(if FileAbove(t, src) then ENOTDIR else ENOENT)
    else if t.nodes[src].Dir? then Err(EISDIR)
    else if dst == [] then Err(EISDIR)
    else if !IsDir(t, dst[..|dst| - 1]) then
      ParentNotDir(t, dst);
      Err(NotDirError(t, dst[..|dst| - 1]))
    else if dst in t.nodes && t.nodes[dst].Dir? then Err(EISDIR)
    else if src == dst then Ok(t)
    else
      var nodes := (t.nodes - {src})[dst := t.nodes[src]];
      var order := if dst in t.nodes then Without(t.order, src) else Without(t.order, src) + [dst];
      MoveFileValid(t, src, dst);
      Ok(Tree(nodes, order))
  }

  /** When the parent of `p` is not a directory, the lookup of `p` stops at a
      file exactly when the parent is a file or lies below one. */
  lemma ParentNotDir(t: Tree, p: Path)
    requires p != [] && !IsDir(t, p[..|p| - 1])
    ensures NotDirError(t, p[..|p| - 1]) == (if FileAbove(t, p) then ENOTDIR else ENOENT)
  {
    var parent := p[..|p| - 1];
    forall a ensures Within(a, p) && a != p <==> Within(a, parent) {
      if Within(a, parent) {
        assert p[..|a|] == parent[..|a|];
      }
    }
    if Exists(t, parent) {
      assert parent in t.nodes && Within(parent, p) && parent != p;
    }
  }

  /** Moving a file to a new place inside an existing directory keeps a tree valid. */
  lemma MoveFileValid(t: Tree, src: Path, dst: Path)
    requires Valid(t) && src in t.nodes && t.nodes[src].File? && src != dst
    requires InDir(t, dst) && !(dst in t.nodes && t.nodes[dst].Dir?)
    ensures var order := if dst in t.nodes then Without(t.order, src) else Without(t.order, src) + [dst];
      Valid(Tree((t.nodes - {src})[dst := t.nodes[src]], order))
  {
    var order := if dst in t.nodes then Without(t.order, src) else Without(t.order, src) + [dst];
    var t2 := Tree((t.nodes - {src})[dst := t.nodes[src]], order);
    var w := Without(t.order, src);
    assert InDir(t, src);
    forall p | p in t2.nodes ensures InDir(t2, p) {
      if p != dst {
        assert InDir(t, p);
      }
      var q := p[..|p| - 1];
      assert IsDir(t, q);
      assert q != src;
      assert |dst| > 0 && |q| < |p|;
      assert q != dst;
    }
    if dst !in t.nodes {
      forall i, j | 0 <= i < j < |order| ensures order[i] != order[j] {
        if j == |w| {
          assert order[i] in w;
        }
      }
    }
  }

  /** Every proper ancestor of an entry is a directory. */
  lemma {:induction false} AncestorIsDir(t: Tree, a: Path, q: Path)
    requires Valid(t) && q in t.nodes && Within(a, q) && a != q
    ensures IsDir(t, a)
    decreases |q|
  {
    assert InDir(t, q);
    var parent := q[..|q| - 1];
    if parent != a && a != [] {
      assert parent[..|a|] == a;
      AncestorIsDir(t, a, parent);
    }
  }

  /** The entries outside the subtree at `dir`. */
  function Pruned(nodes: map<Path, Node>, dir: Path): map<Path, Node> {
    map p | p in nodes && !Within(dir, p) :: nodes[p]
  }

  /** The creation order without the subtree at `dir`. */
  function PrunedOrder(order: seq<Path>, dir: Path): (r: seq<Path>)
    ensures forall q :: q in r <==> q in order && !Within(dir, q)
    ensures Distinct(order) ==> Distinct(r)
  {
    if order == [] then []
    else
      var rest := PrunedOrder(order[1..], dir);
      assert forall q :: q in order <==> q == order[0] || q in order[1..];
      if Within(dir, order[0]) then rest else [order[0]] + rest
  }

  /** `fs.rmdirSync(dir, { recursive: true })`: removes the directory and
      everything below it; fails when `dir` is missing or is a file. */
  function RemoveTree(t: Tree, dir: Path): (r: Result<Tree>)
    requires Valid(t)
    ensures r.Ok? <==> IsDir(t, dir)
    ensures r.Ok? ==> Valid(r.value) && r.value.nodes == Pruned(t.nodes, dir)
    ensures r.Err? ==> (r.error == ENOTDIR <==> Exists(t, dir) || FileAbove(t, dir))
  {
    if !IsDir(t, dir) then Err(NotDirError(t, dir))
    else
      var t2 := Tree(Pruned(t.nodes, dir), PrunedOrder(t.order, dir));
      PruneValid(t, dir);
      Ok(t2)
  }

  /** Removing a whole subtree keeps a tree valid. */
  lemma PruneValid(t: Tree, dir: Path)
    requires Valid(t)
    ensures Valid(Tree(Pruned(t.nodes, dir), PrunedOrder(t.order, dir)))
  {
    var t2 := Tree(Pruned(t.nodes, dir), PrunedOrder(t.order, dir));
    forall p | p in t2.nodes ensures InDir(t2, p) {
      assert InDir(t, p);
      var q := p[..|p| - 1];
      if |dir| <= |q| {
        assert q[..|dir|] == p[..|dir|];
      }
    }
  }
}
