/** Paths of folders in the table view: printing a node's path by climbing to
    the root, and finding a node again by descending along a path. */
module FolderPath {
  import opened DirectoryTree
  import opened FolderTable

  // ---------- printing

  /** The path of `n` below the root. */
  ghost function RelativePath(shape: Shape, n: TableIndex): (r: string)
    decreases if n in shape.rank && shape.root in shape.rank then shape.rank[shape.root] as int - shape.rank[n] as int else 0
  {
    if shape.Climbs(n) && shape.parent[n] != shape.root
    then RelativePath(shape, shape.parent[n]) + [SEPARATOR] + n.name
    else n.name
  }

  ghost function FullPath(shape: Shape, n: TableIndex): (r: string) {
    if n == shape.root then n.name else shape.root.name + [SEPARATOR] + RelativePath(shape, n)
  }

  /** The root's path is its name; any other node's is its parent's, a backslash and its name. */
  lemma PathGrows(shape: Shape, n: TableIndex)
    requires shape.Valid() && n in shape.nodes
    ensures n == shape.root ==> FullPath(shape, n) == n.name
    ensures n != shape.root ==>
      shape.parent[n] != null && FullPath(shape, n) == FullPath(shape, shape.parent[n]) + ['\\'] + n.name
  {
    shape.Facts(n);
    if n != shape.root && shape.parent[n] != shape.root {
      var p := shape.parent[n];
      hide Shape.Valid;
      assert RelativePath(shape, n) == RelativePath(shape, p) + [SEPARATOR] + n.name;
    }
  }

  /** `getRootPath` */
  method GetRootPath(node: TableIndex, ghost shape: Shape) returns (path: string)
    requires shape.Valid() && shape.Built() && node in shape.nodes
    ensures path == if node.isFolder then FullPath(shape, node) else ""
  {
    if !node.isFolder {
      return "";
    }
    path := node.name;
    shape.Facts(node);
    var p := node.parent;
    ghost var at := node;
    hide Shape.Valid, Shape.Climbs, RelativePath, Suffix;
    SuffixStart(shape, node);
    while p != null
      invariant at in shape.nodes && p == shape.parent[at]
      invariant p == null <==> at == shape.root
      invariant at == shape.root ==> path == FullPath(shape, node)
      invariant at != shape.root ==> RelativePath(shape, node) == Suffix(shape, at, path)
      invariant node == shape.root ==> at == shape.root
      decreases if p == null then 0 else shape.rank[shape.root] - shape.rank[p] + 1
    {
      shape.Facts(at);
      shape.Facts(p);
      SuffixStep(shape, at, p, path);
      path := p.name + [SEPARATOR] + path;
      at := p;
      p := p.parent;
    }
  }

  /** `path` continues the relative path of `at`, whose own name it begins with. */
  ghost function Suffix(shape: Shape, at: TableIndex, path: string): string {
    if shape.Climbs(at) && shape.parent[at] != shape.root
    then RelativePath(shape, shape.parent[at]) + [SEPARATOR] + path
    else path
  }

  lemma SuffixStart(shape: Shape, n: TableIndex)
    ensures RelativePath(shape, n) == Suffix(shape, n, n.name)
  {
  }

  lemma SuffixStep(shape: Shape, at: TableIndex, p: TableIndex, path: string)
    requires shape.Climbs(at) && shape.parent[at] == p
    ensures p == shape.root ==> Suffix(shape, at, path) == path
    ensures p != shape.root ==> Suffix(shape, at, path) == Suffix(shape, p, p.name + [SEPARATOR] + path)
  {
    if p != shape.root && shape.Climbs(p) && shape.parent[p] != shape.root {
      var q := RelativePath(shape, shape.parent[p]);
      assert q + [SEPARATOR] + p.name + [SEPARATOR] + path == q + [SEPARATOR] + (p.name + [SEPARATOR] + path);
    }
  }

  // ---------- finding

  /** The first folder with this name. */
  function FindFolder(folders: seq<TableIndex>, name: string): (r: TableIndex?)
    ensures r != null ==> r in folders && r.name == name
    ensures r == null ==> forall c :: c in folders ==> c.name != name
  {
    if folders == [] then null
    else if folders[0].name == name then folders[0]
    else FindFolder(folders[1..], name)
  }

  ghost function FoldersOf(shape: Shape, n: TableIndex): seq<TableIndex> {
    if n in shape.folders then shape.folders[n] else []
  }

  /** `index_node`, on the links as a value. */
  ghost function Resolve(shape: Shape, n: TableIndex, path: string): (r: TableIndex?)
    decreases |path|
  {
    var k := FirstSeparator(path);
    var child := FindFolder(FoldersOf(shape, n), path[..k]);
    if k == |path| then (if path == "" then null else child)
    else if child == null then null
    else Resolve(shape, child, path[k + 1..])
  }

  method IndexNode(n: TableIndex, path: string, ghost shape: Shape) returns (r: TableIndex?)
    requires shape.Valid() && shape.Built() && n in shape.nodes
    ensures r == Resolve(shape, n, path)
    decreases |path|
  {
    shape.Facts(n);
    hide Shape.Valid;
    var firstPos := FirstSeparator(path);
    if firstPos == |path| {
      if path == "" {
        return null;
      }
      assert path[..firstPos] == path;
      return FindFolder(n.folders, path);
    }
    var child := FindFolder(n.folders, path[..firstPos]);
    if child == null {
      return null;
    }
    r := IndexNode(child, path[firstPos + 1..], shape);
  }

  ghost function ResolveFull(shape: Shape, path: string): (r: TableIndex?) {
    var k := FirstSeparator(path);
    if k == |path| then (if path != "" then shape.root else null)
    else Resolve(shape, shape.root, path[k + 1..])
  }

  /** One step along a path, whatever the name: the first folder of this name,
      and from there on the rest. Of a full path the first name is dropped. */
  lemma ResolveStep(shape: Shape, n: TableIndex, name: string, rest: string)
    requires Plain(name)
    ensures var c := FindFolder(FoldersOf(shape, n), name);
      && Resolve(shape, n, name + ['\\'] + rest) == (if c == null then null else Resolve(shape, c, rest))
      && Resolve(shape, n, name) == if name == "" then null else c
    ensures ResolveFull(shape, name + ['\\'] + rest) == Resolve(shape, shape.root, rest)
    ensures ResolveFull(shape, name) == if name == "" then null else shape.root
  {
    hide FindFolder;
    SeparatorAfter(name, rest);
    var path := name + [SEPARATOR] + rest;
    assert path[..|name|] == name && path[|name| + 1..] == rest && name[..|name|] == name;
  }

  /** `indexByPath` */
  method IndexByPath(root: TableIndex, path: string, ghost shape: Shape) returns (r: TableIndex?)
    requires shape.Valid() && shape.Built() && root == shape.root
    ensures r == ResolveFull(shape, path)
  {
    var firstPos := FirstSeparator(path);
    if firstPos == |path| {
      return if |path| > 0 then root else null;
    }
    r := IndexNode(root, path[firstPos + 1..], shape);
  }

  // ---------- round trip

  /** Folder names are not empty, hold no separator, and differ among siblings. */
  ghost predicate WellNamed(shape: Shape)
    requires shape.Valid()
  {
    && Plain(shape.root.name)
    && (forall n, c :: n in shape.nodes && c in shape.folders[n] ==> c.name != "" && Plain(c.name))
    && (forall n, c, d :: n in shape.nodes && c in shape.folders[n] && d in shape.folders[n] && c.name == d.name ==> c == d)
  }

  /** Going one folder further along a path. */
  lemma {:induction false} ResolveFurther(shape: Shape, n: TableIndex, path: string, name: string, m: TableIndex)
    requires Resolve(shape, n, path) == m && Plain(name) && name != ""
    ensures Resolve(shape, n, path + [SEPARATOR] + name) == FindFolder(FoldersOf(shape, m), name)
    decreases |path|
  {
    hide FindFolder;
    var k := FirstSeparator(path);
    var longer := path + [SEPARATOR] + name;
    if k == |path| {
      SeparatorAfter(path, name);
      SeparatorAfter(name, "");
      assert longer[..k] == path && longer[k + 1..] == name && path[..k] == path && name[..|name|] == name;
    } else {
      SeparatorAfter(path[..k], path[k + 1..] + [SEPARATOR] + name);
      assert longer == path[..k] + [SEPARATOR] + (path[k + 1..] + [SEPARATOR] + name);
      assert longer[k + 1..] == path[k + 1..] + [SEPARATOR] + name && longer[..k] == path[..k];
      ResolveFurther(shape, FindFolder(FoldersOf(shape, n), path[..k]), path[k + 1..], name, m);
    }
  }

  lemma OnlyFolder(shape: Shape, n: TableIndex, c: TableIndex)
    requires shape.Valid() && WellNamed(shape) && n in shape.nodes && c in shape.folders[n]
    ensures FindFolder(FoldersOf(shape, n), c.name) == c && c.name != "" && Plain(c.name)
  {
    var d := FindFolder(FoldersOf(shape, n), c.name);
    hide Shape.Linked, FindFolder;
    if d != null {
      assert d in shape.folders[n] && c in shape.folders[n] && d.name == c.name;
    }
  }

  lemma {:induction false} RelativeBack(shape: Shape, n: TableIndex)
    requires shape.Valid() && WellNamed(shape)
    requires n in shape.nodes && n != shape.root && (shape.Facts(n); n in shape.folders[shape.parent[n]])
    ensures Resolve(shape, shape.root, RelativePath(shape, n)) == n
    decreases shape.rank[shape.root] - shape.rank[n]
  {
    shape.Facts(n);
    var p := shape.parent[n];
    OnlyFolder(shape, p, n);
    if p == shape.root {
      SeparatorAfter(n.name, "");
      assert n.name[..|n.name|] == n.name;
    } else {
      shape.Facts(p);
      ParentIsFolder(shape, n);
      RelativeBack(shape, p);
      ResolveFurther(shape, shape.root, RelativePath(shape, p), n.name, p);
    }
  }

  lemma ParentIsFolder(shape: Shape, n: TableIndex)
    requires shape.Valid() && n in shape.nodes && n != shape.root
    ensures shape.parent[n] != null && shape.parent[n] in shape.nodes
    ensures shape.parent[n] != shape.root ==> (shape.Facts(shape.parent[n]); shape.parent[n] in shape.folders[shape.parent[shape.parent[n]]])
  {
    shape.Facts(n);
    var p := shape.parent[n];
    shape.Facts(p);
    if p != shape.root {
      shape.Facts(shape.parent[p]);
    }
  }

  /** Printing the path of a folder and resolving it gives the folder back. */
  lemma PathBack(shape: Shape, n: TableIndex)
    requires shape.Valid() && WellNamed(shape)
    requires n in shape.nodes && n != shape.root && (shape.Facts(n); n in shape.folders[shape.parent[n]])
    ensures ResolveFull(shape, FullPath(shape, n)) == n
  {
    RelativeBack(shape, n);
    SeparatorAfter(shape.root.name, RelativePath(shape, n));
    assert FullPath(shape, n)[|shape.root.name| + 1..] == RelativePath(shape, n);
  }

  /** The root's own path leads back to it exactly when it has a name. */
  lemma RootPathBack(shape: Shape)
    requires Plain(shape.root.name)
    ensures ResolveFull(shape, FullPath(shape, shape.root)) == shape.root <==> shape.root.name != ""
  {
    SeparatorAfter(shape.root.name, "");
  }

  /** Folders and files are listed where they belong. */
  ghost predicate Kinds(shape: Shape)
    requires shape.Valid()
  {
    && (forall n, c :: n in shape.nodes && c in shape.folders[n] ==> c.isFolder)
    && (forall n, c :: n in shape.nodes && c in shape.files[n] ==> !c.isFolder)
  }

  /** Printing a node's path and looking it up: every folder with a path leads
      back to itself, a file to nothing. */
  method OpenOwnPath(n: TableIndex, root: TableIndex, ghost shape: Shape) returns (r: TableIndex?)
    requires shape.Valid() && shape.Built() && root == shape.root && n in shape.nodes
    requires WellNamed(shape) && Kinds(shape)
    ensures n.isFolder && (n != root || root.name != "") ==> r == n
    ensures !n.isFolder ==> r == null
  {
    shape.Facts(n);
    if n != root && n.isFolder {
      assert n in shape.folders[shape.parent[n]];
      PathBack(shape, n);
    }
    RootPathBack(shape);
    hide FullPath, ResolveFull, Shape.Valid, Shape.Built, WellNamed, Kinds;
    var path := GetRootPath(n, shape);
    EmptyPath(shape);
    r := IndexByPath(root, path, shape);
  }

  lemma EmptyPath(shape: Shape)
    ensures ResolveFull(shape, "") == null
  {
  }
}
