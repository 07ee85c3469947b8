/** Both folder views of one directory: how the table is built, and that table
    and tree lead every path to the same directory entry. */
module FolderViews {
  import opened Bytes
  import opened DirectoryTree
  import opened FolderPath
  import opened FolderTable
  import FolderTree

  type Shown = map<TableIndex, Node>

  // ---------- what a table shows

  function NodesOf(list: seq<TableIndex>, shown: Shown): (r: seq<Node>)
    requires forall n :: n in list ==> n in shown
    ensures |r| == |list|
  {
    seq(|list|, i requires 0 <= i < |list| => shown[list[i]])
  }

  /** The node shows its directory entry, and lists that directory's folders and its files, each sorted by name. */
  predicate NodeShows(shape: Shape, shown: Shown, n: TableIndex) {
    && n in shape.folders && n in shape.files && n in shown
    && n.entry == shown[n].entry && n.name == shown[n].name && n.isFolder == shown[n].Folder?
    && (forall c :: c in shape.folders[n] ==> c in shown && shown[c].Folder?)
    && (forall c :: c in shape.files[n] ==> c in shown && shown[c].FileNode?)
    && Arrangement(NodesOf(shape.folders[n], shown), FoldersIn(shown[n]))
    && Arrangement(NodesOf(shape.files[n], shown), FilesIn(shown[n]))
  }

  ghost predicate TableShows(shape: Shape, shown: Shown) {
    shown.Keys == shape.nodes && forall n :: n in shape.nodes ==> NodeShows(shape, shown, n)
  }

  /** The lists of a node, told from its directory: all its children, each as
      often as it occurs, the folders in one list and the files in the other,
      both in alphabetical order; a file has none. */
  lemma TableLists(shape: Shape, shown: Shown, n: TableIndex)
    requires shape.Valid() && TableShows(shape, shown) && n in shape.nodes
    ensures shown[n].Folder? ==>
      var folders, files := NodesOf(shape.folders[n], shown), NodesOf(shape.files[n], shown);
      && multiset(folders) + multiset(files) == multiset(shown[n].children)
      && (forall c :: c in folders ==> c.Folder?) && (forall c :: c in files ==> c.FileNode?)
    ensures shown[n].FileNode? ==> shape.folders[n] == shape.files[n] == []
    ensures forall i, j :: 0 <= i < j < |shape.folders[n]| ==> NameLeq(shape.folders[n][i].name, shape.folders[n][j].name)
    ensures forall i, j :: 0 <= i < j < |shape.files[n]| ==> NameLeq(shape.files[n][i].name, shape.files[n][j].name)
  {
    hide Shape.Linked, NameLeq, Arrangement;
    assert NodeShows(shape, shown, n);
    Rearranged(NodesOf(shape.folders[n], shown), FoldersIn(shown[n]));
    Rearranged(NodesOf(shape.files[n], shown), FilesIn(shown[n]));
    if shown[n].Folder? {
      AllChildren(shown[n].children);
    }
    SortedList(shape, shown, shape.folders[n], FoldersIn(shown[n]));
    SortedList(shape, shown, shape.files[n], FilesIn(shown[n]));
  }

  lemma SortedList(shape: Shape, shown: Shown, list: seq<TableIndex>, nodes: seq<Node>)
    requires TableShows(shape, shown) && (forall c :: c in list ==> c in shown) && Arrangement(NodesOf(list, shown), nodes)
    ensures forall i, j :: 0 <= i < j < |list| ==> NameLeq(list[i].name, list[j].name)
  {
    hide NameLeq;
    var sorted := NodesOf(list, shown);
    forall i | 0 <= i < |list|
      ensures list[i].name == sorted[i].name
    {
      assert list[i] in list && NodeShows(shape, shown, list[i]);
    }
  }

  // ---------- looking up

  lemma {:induction false} FindShown(list: seq<TableIndex>, shown: Shown, name: string)
    requires forall n :: n in list ==> n in shown && n.name == shown[n].name
    ensures var n := FindFolder(list, name);
      First(NodesOf(list, shown), name) == if n == null then None else Some(shown[n])
  {
    if list != [] {
      FindShown(list[1..], shown, name);
      assert NodesOf(list, shown)[1..] == NodesOf(list[1..], shown);
    }
  }

  lemma FolderFound(shape: Shape, shown: Shown, n: TableIndex, name: string)
    requires shape.Valid() && TableShows(shape, shown) && n in shape.nodes && UniqueBelow(shown[n])
    ensures var c := FindFolder(FoldersOf(shape, n), name);
      if c == null then First(FoldersIn(shown[n]), name) == None
      else c in shape.nodes && First(FoldersIn(shown[n]), name) == Some(shown[c]) && UniqueBelow(shown[c])
  {
    assert NodeShows(shape, shown, n);
    forall c | c in shape.folders[n]
      ensures c in shape.nodes && c.name == shown[c].name
    {
      assert c in shown && NodeShows(shape, shown, c);
    }
    FindShown(shape.folders[n], shown, name);
    Rearranged(NodesOf(shape.folders[n], shown), FoldersIn(shown[n]));
    hide Arrangement, First, NodeShows, FoldersIn;
    UniqueFolders(shown[n]);
    UniqueFound(NodesOf(shape.folders[n], shown), FoldersIn(shown[n]), name);
    var c := FindFolder(FoldersOf(shape, n), name);
    if c != null {
      UniqueChild(shown[n], shown[c]);
    }
  }

  lemma UniqueFolders(d: Node)
    requires UniqueBelow(d)
    ensures NamesUnique(FoldersIn(d))
  {
  }

  /** In a table built from a directory with sibling-unique folder names, a path
      leads to the node of the folder it leads to in the directory. */
  lemma {:induction false} TableResolves(shape: Shape, shown: Shown, n: TableIndex, path: string)
    requires shape.Valid() && TableShows(shape, shown) && n in shape.nodes && UniqueBelow(shown[n])
    ensures var r := Resolve(shape, n, path);
      if r == null then ResolveNode(shown[n], path) == None
      else r in shape.nodes && ResolveNode(shown[n], path) == Some(shown[r])
    decreases |path|
  {
    hide TableShows, UniqueBelow, First, FindFolder, Shape.Valid, FoldersOf, FoldersIn, NodeShows, FirstSeparator;
    var k := FirstSeparator(path);
    FolderFound(shape, shown, n, path[..k]);
    var c := FindFolder(FoldersOf(shape, n), path[..k]);
    if k < |path| && c != null {
      TableResolves(shape, shown, c, path[k + 1..]);
    }
  }

  lemma FullPathResolves(shape: Shape, shown: Shown, path: string)
    requires shape.Valid() && TableShows(shape, shown) && UniqueBelow(shown[shape.root])
    ensures var r := ResolveFull(shape, path);
      if r == null then ResolveFullNode(shown[shape.root], path) == None
      else r in shape.nodes && ResolveFullNode(shown[shape.root], path) == Some(shown[r])
  {
    hide Shape.Linked, NodeShows, UniqueBelow, ResolveNode, Resolve, FirstSeparator;
    assert shape.root in shape.nodes;
    var k := FirstSeparator(path);
    if k < |path| {
      TableResolves(shape, shown, shape.root, path[k + 1..]);
    }
  }

  // ---------- what building leaves in the objects

  /** What the node shows, and that its children know it. */
  ghost predicate NodeBuilt(n: TableIndex, shown: Shown)
    requires n in shown
    reads n, shown.Keys`parent
  {
    ChildsBuilt(n, n.folders, n.files, shown) && NodeOwn(n, shown)
  }

  ghost predicate NodeOwn(n: TableIndex, shown: Shown)
    requires n in shown
    reads n`folders, n`files
  {
    && n.entry == shown[n].entry && n.name == shown[n].name && n.isFolder == shown[n].Folder?
    && (forall c :: c in n.folders ==> c in shown)
    && (forall c :: c in n.files ==> c in shown)
    && Arrangement(NodesOf(n.folders, shown), FoldersIn(shown[n]))
    && Arrangement(NodesOf(n.files, shown), FilesIn(shown[n]))
    && (shown[n].FileNode? ==> n.folders == [] && n.files == [])
  }

  ghost predicate ChildsBuilt(n: TableIndex, folders: seq<TableIndex>, files: seq<TableIndex>, shown: Shown)
    reads shown.Keys`parent
  {
    && (forall c :: c in folders ==> c in shown && shown[c].Folder? && c.parent == n)
    && (forall c :: c in files ==> c in shown && shown[c].FileNode? && c.parent == n)
  }

  /** The node is one of the roots, under `up`, or listed by its parent. */
  ghost predicate Placed(roots: set<TableIndex>, up: TableIndex?, n: TableIndex, shown: Shown)
    reads n`parent, shown.Keys`folders, shown.Keys`files
  {
    if n in roots then n.parent == up
    else n.parent != null && n.parent in shown && (n in n.parent.folders || n in n.parent.files)
  }

  /** Finished subtables with these roots, all hanging under `up`. */
  ghost predicate TablesBuilt(roots: set<TableIndex>, up: TableIndex?, shown: Shown, bound: nat)
    reads shown.Keys
  {
    && roots <= shown.Keys
    && forall n :: n in shown ==> NodeBuilt(n, shown) && Placed(roots, up, n, shown) && Size(shown[n]) <= bound
  }

  lemma StillBuilt(n: TableIndex, shown: Shown, more: Shown)
    requires n in shown && NodeBuilt(n, shown) && forall c :: c in shown ==> c in more && more[c] == shown[c]
    ensures NodeBuilt(n, more)
  {
    hide Arrangement, FoldersIn, FilesIn;
    assert NodesOf(n.folders, more) == NodesOf(n.folders, shown) && NodesOf(n.files, more) == NodesOf(n.files, shown);
  }

  /** Subtables side by side. */
  lemma SideBySide(a: set<TableIndex>, b: set<TableIndex>, up: TableIndex?, shown: Shown, below: Shown, bound: nat)
    requires TablesBuilt(a, up, shown, bound) && TablesBuilt(b, up, below, bound) && shown.Keys !! below.Keys
    ensures TablesBuilt(a + b, up, shown + below, bound)
  {
    hide NodeBuilt;
    var all := shown + below;
    forall n | n in all
      ensures NodeBuilt(n, all) && Placed(a + b, up, n, all) && Size(all[n]) <= bound
    {
      if n in shown {
        StillBuilt(n, shown, all);
      } else {
        StillBuilt(n, below, all);
      }
    }
  }

  lemma HigherBound(roots: set<TableIndex>, up: TableIndex?, shown: Shown, bound: nat, more: nat)
    requires TablesBuilt(roots, up, shown, bound) && bound <= more
    ensures TablesBuilt(roots, up, shown, more)
  {
    hide NodeBuilt, Placed;
  }

  /** A root over its subtables. */
  lemma RootOver(t: TableIndex, d: Node, up: TableIndex?, roots: set<TableIndex>, shown: Shown)
    requires d.Folder? && t !in shown && TablesBuilt(roots, t, shown, SizeOfAll(d.children))
    requires t.entry == d.entry && t.name == d.name && t.isFolder && t.parent == up
    requires roots == Members(t.folders + t.files) && ChildsBuilt(t, t.folders, t.files, shown)
    requires Arrangement(NodesOf(t.folders, shown), Folders(d.children))
    requires Arrangement(NodesOf(t.files, shown), Files(d.children))
    ensures TablesBuilt({t}, up, shown[t := d], Size(d))
  {
    var all := shown[t := d];
    RootBuilt(t, d, shown);
    hide NodeBuilt, ChildsBuilt, Arrangement, Folders, Files;
    forall n | n in shown
      ensures NodeBuilt(n, all) && Placed({t}, up, n, all) && Size(all[n]) <= Size(d)
    {
      StillBuilt(n, shown, all);
      assert Placed(roots, t, n, shown);
      assert n in roots ==> n in t.folders + t.files;
    }
  }

  lemma RootBuilt(t: TableIndex, d: Node, shown: Shown)
    requires d.Folder? && t !in shown && t.entry == d.entry && t.name == d.name && t.isFolder
    requires ChildsBuilt(t, t.folders, t.files, shown) && Arrangement(NodesOf(t.folders, shown), Folders(d.children))
    requires Arrangement(NodesOf(t.files, shown), Files(d.children))
    ensures NodeBuilt(t, shown[t := d])
  {
    hide Arrangement, Folders, Files;
    assert NodesOf(t.folders, shown[t := d]) == NodesOf(t.folders, shown);
    assert NodesOf(t.files, shown[t := d]) == NodesOf(t.files, shown);
  }

  // ---------- the objects as a shape

  /** The links of all nodes, read off the objects. */
  ghost function ShapeOf(t: TableIndex, shown: Shown): (r: Shape)
    reads shown.Keys
  {
    Shape(t, shown.Keys, map n | n in shown :: n.parent, map n | n in shown :: n.folders, map n | n in shown :: n.files,
          map n | n in shown :: Size(shown[n]))
  }

  /** A built table is a tree, and shows its directory. */
  lemma BuiltIsTree(t: TableIndex, d: Node, shown: Shown)
    requires TablesBuilt({t}, null, shown, Size(d)) && t in shown && shown[t] == d
    ensures ShapeOf(t, shown).Valid() && ShapeOf(t, shown).Built() && TableShows(ShapeOf(t, shown), shown)
  {
    hide ShapeOf, Shape.Linked, NodeBuilt, Placed, NodeShows, TablesBuilt, Size;
    var shape := ShapeOf(t, shown);
    ShapeAt(t, shown, t);
    ParentLinked(t, d, shown, t);
    forall n | n in shown
      ensures shape.Linked(n) && NodeShows(shape, shown, n)
      ensures n.parent == shape.parent[n] && n.folders == shape.folders[n] && n.files == shape.files[n]
    {
      NodeLinked(t, d, shown, n);
      ShapeAt(t, shown, n);
    }
  }

  lemma NodeLinked(t: TableIndex, d: Node, shown: Shown, n: TableIndex)
    requires TablesBuilt({t}, null, shown, Size(d)) && t in shown && shown[t] == d && n in shown
    ensures ShapeOf(t, shown).Linked(n) && NodeShows(ShapeOf(t, shown), shown, n)
  {
    hide Arrangement, FoldersIn, FilesIn, Size, TablesBuilt, ShapeOf, NodeShows, NodeBuilt, Placed;
    ShapeAt(t, shown, n);
    ParentLinked(t, d, shown, n);
    ChildsLinked(t, d, shown, n);
  }

  lemma ShapeAt(t: TableIndex, shown: Shown, n: TableIndex)
    requires n in shown
    ensures var shape := ShapeOf(t, shown);
      && shape.root == t && shape.nodes == shown.Keys
      && shape.parent.Keys == shape.folders.Keys == shape.files.Keys == shape.rank.Keys == shown.Keys
      && shape.parent[n] == n.parent && shape.folders[n] == n.folders && shape.files[n] == n.files
      && shape.rank[n] == Size(shown[n])
  {
    hide Size;
  }

  lemma ParentLinked(t: TableIndex, d: Node, shown: Shown, n: TableIndex)
    requires TablesBuilt({t}, null, shown, Size(d)) && t in shown && shown[t] == d && n in shown
    ensures ShapeOf(t, shown).rank[n] <= ShapeOf(t, shown).rank[t]
    ensures n.parent == null <==> n == t
    ensures var shape := ShapeOf(t, shown);
      n.parent != null ==>
        && n.parent in shown && shape.rank[n] < shape.rank[n.parent]
        && (n in shape.folders[n.parent] || n in shape.files[n.parent])
  {
    assert NodeBuilt(n, shown) && Placed({t}, null, n, shown);
    ShapeAt(t, shown, n);
    ShapeAt(t, shown, t);
    hide Arrangement, FoldersIn, FilesIn, Size, NodeBuilt, ShapeOf;
    if n != t {
      assert NodeBuilt(n.parent, shown);
      ShapeAt(t, shown, n.parent);
      SmallerBelow(n.parent, shown, n);
    }
  }

  lemma ShowsItsNode(t: TableIndex, shown: Shown, n: TableIndex)
    requires n in shown && NodeBuilt(n, shown)
    ensures NodeShows(ShapeOf(t, shown), shown, n) && ChildsBuilt(n, n.folders, n.files, shown)
  {
    ShapeAt(t, shown, n);
    hide ShapeOf, Arrangement, FoldersIn, FilesIn, NodesOf;
  }

  lemma ChildsLinked(t: TableIndex, d: Node, shown: Shown, n: TableIndex)
    requires TablesBuilt({t}, null, shown, Size(d)) && n in shown
    ensures NodeShows(ShapeOf(t, shown), shown, n)
    ensures forall c :: c in n.folders ==> c in shown && ShapeOf(t, shown).parent[c] == n
    ensures forall c :: c in n.files ==>
      c in shown && ShapeOf(t, shown).parent[c] == n && ShapeOf(t, shown).folders[c] == [] && ShapeOf(t, shown).files[c] == []
  {
    ShowsItsNode(t, shown, n);
    hide NodeShows, ShapeOf, NodeBuilt, Placed, Size;
    forall c | c in n.folders || c in n.files
      ensures c in shown && ShapeOf(t, shown).parent[c] == n
      ensures c in n.files ==> ShapeOf(t, shown).folders[c] == [] && ShapeOf(t, shown).files[c] == []
    {
      ShapeAt(t, shown, c);
      if c in n.files {
        FileIsLeaf(c, shown);
      }
    }
  }

  lemma FileIsLeaf(c: TableIndex, shown: Shown)
    requires c in shown && NodeBuilt(c, shown) && shown[c].FileNode?
    ensures c.folders == [] && c.files == []
  {
  }

  lemma SmallerBelow(p: TableIndex, shown: Shown, c: TableIndex)
    requires p in shown && NodeBuilt(p, shown) && (c in p.folders || c in p.files)
    ensures c in shown && Size(shown[c]) < Size(shown[p])
  {
    if c in p.folders {
      var k :| 0 <= k < |p.folders| && p.folders[k] == c;
      Rearranged(NodesOf(p.folders, shown), FoldersIn(shown[p]));
      assert NodesOf(p.folders, shown)[k] in multiset(FoldersIn(shown[p]));
      var i :| 0 <= i < |shown[p].children| && shown[p].children[i] == shown[c];
      SizeOfChild(shown[p].children, i);
    }
  }

  // ---------- building

  lemma OneMoreListed(children: seq<Node>, i: nat, folders: seq<TableIndex>, files: seq<TableIndex>, child: TableIndex,
                      shown: Shown, more: Shown)
    requires i < |children| && (forall n :: n in folders || n in files ==> n in shown)
    requires NodesOf(folders, shown) == Folders(children[..i]) && NodesOf(files, shown) == Files(children[..i])
    requires (forall n :: n in shown ==> n in more && more[n] == shown[n]) && child in more && more[child] == children[i]
    ensures NodesOf(folders + if children[i].Folder? then [child] else [], more) == Folders(children[..i + 1])
    ensures NodesOf(files + if children[i].Folder? then [] else [child], more) == Files(children[..i + 1])
  {
    OneMoreChild(children, i);
    ListedStill(folders, child, shown, more);
    ListedStill(files, child, shown, more);
    hide Folders, Files, NodesOf;
  }

  lemma ListedStill(list: seq<TableIndex>, child: TableIndex, shown: Shown, more: Shown)
    requires (forall n :: n in list ==> n in shown) && child in more
    requires forall n :: n in shown ==> n in more && more[n] == shown[n]
    ensures NodesOf(list + [], more) == NodesOf(list, shown)
    ensures NodesOf(list + [child], more) == NodesOf(list, shown) + [more[child]]
  {
  }

  function Members(list: seq<TableIndex>): (r: set<TableIndex>) {
    set c | c in list
  }

  lemma SameMembers(a: seq<TableIndex>, b: seq<TableIndex>)
    requires multiset(a) == multiset(b)
    ensures forall n :: n in a <==> n in b
  {
    assert forall n :: n in a <==> n in multiset(a);
    assert forall n :: n in b <==> n in multiset(b);
  }

  lemma {:induction false} RearrangedNodes(sorted: seq<TableIndex>, list: seq<TableIndex>, shown: Shown)
    requires multiset(sorted) == multiset(list) && forall n :: n in list ==> n in shown
    ensures forall n :: n in sorted ==> n in shown
    ensures multiset(NodesOf(sorted, shown)) == multiset(NodesOf(list, shown))
  {
    SameMembers(sorted, list);
    if sorted == [] {
      assert |multiset(list)| == |list|;
    } else {
      var x := sorted[0];
      assert x in sorted;
      var rest := TakeOut(list, x, shown);
      assert sorted == [x] + sorted[1..];
      assert multiset(sorted[1..]) == multiset(sorted) - multiset{x};
      hide NodesOf;
      RearrangedNodes(sorted[1..], rest, shown);
      TakeFirst(sorted, shown);
    }
  }

  lemma TakeOut(list: seq<TableIndex>, x: TableIndex, shown: Shown) returns (rest: seq<TableIndex>)
    requires x in list && forall n :: n in list ==> n in shown
    ensures multiset(rest) == multiset(list) - multiset{x} && forall n :: n in rest ==> n in shown
    ensures multiset(NodesOf(list, shown)) == multiset(NodesOf(rest, shown)) + multiset{shown[x]}
  {
    var i :| 0 <= i < |list| && list[i] == x;
    rest := list[..i] + list[i + 1..];
    assert list == list[..i] + [x] + list[i + 1..];
    var before, after := NodesOf(list[..i], shown), NodesOf(list[i + 1..], shown);
    assert NodesOf(list, shown) == before + [shown[x]] + after;
    assert NodesOf(rest, shown) == before + after;
  }

  lemma TakeFirst(list: seq<TableIndex>, shown: Shown)
    requires list != [] && forall n :: n in list ==> n in shown
    ensures multiset(NodesOf(list, shown)) == multiset(NodesOf(list[1..], shown)) + multiset{shown[list[0]]}
  {
    assert NodesOf(list, shown) == [shown[list[0]]] + NodesOf(list[1..], shown);
  }

  predicate SortedByName(list: seq<TableIndex>) {
    forall i, j :: 0 <= i < j < |list| ==> NameLeq(list[i].name, list[j].name)
  }

  /** Sorts by name; how equal names are ordered is not promised. */
  method SortTable(list: seq<TableIndex>) returns (r: seq<TableIndex>)
    ensures multiset(r) == multiset(list) && SortedByName(r)
  {
    r := [];
    for i := 0 to |list|
      invariant multiset(r) == multiset(list[..i]) && SortedByName(r)
    {
      assert list[..i + 1] == list[..i] + [list[i]];
      r := InsertByName(list[i], r);
    }
    assert list[..|list|] == list;
  }

  method InsertByName(x: TableIndex, list: seq<TableIndex>) returns (r: seq<TableIndex>)
    requires SortedByName(list)
    ensures multiset(r) == multiset(list) + multiset{x} && SortedByName(r)
  {
    hide SortedByName;
    var k := 0;
    while k < |list| && !NameLeq(x.name, list[k].name)
      invariant k <= |list| && forall i :: 0 <= i < k ==> NameLeq(list[i].name, x.name)
    {
      NameOrder(x.name, list[k].name);
      k := k + 1;
    }
    r := list[..k] + [x] + list[k..];
    assert list == list[..k] + list[k..];
    Spliced(x, list, k);
  }

  lemma Spliced(x: TableIndex, list: seq<TableIndex>, k: nat)
    requires SortedByName(list) && k <= |list| && (k < |list| ==> NameLeq(x.name, list[k].name))
    requires forall i :: 0 <= i < k ==> NameLeq(list[i].name, x.name)
    ensures SortedByName(list[..k] + [x] + list[k..])
  {
    forall j | k <= j < |list|
      ensures NameLeq(x.name, list[j].name)
    {
      if k < j {
        NameLeqTransitive(x.name, list[k].name, list[j].name);
      }
    }
    hide NameLeq;
    var r := list[..k] + [x] + list[k..];
    assert forall i :: 0 <= i < |r| ==> r[i] == if i < k then list[i] else if i == k then x else list[i - 1];
  }

  lemma SortedArrangement(sorted: seq<TableIndex>, list: seq<TableIndex>, shown: Shown)
    requires multiset(sorted) == multiset(list) && SortedByName(sorted)
    requires forall n :: n in list ==> n in shown && n.name == shown[n].name
    ensures forall n :: n in sorted ==> n in shown
    ensures Arrangement(NodesOf(sorted, shown), NodesOf(list, shown))
  {
    SameMembers(sorted, list);
    RearrangedNodes(sorted, list, shown);
  }

  lemma NamesShown(list: seq<TableIndex>, shown: Shown, roots: set<TableIndex>, up: TableIndex?, bound: nat)
    requires TablesBuilt(roots, up, shown, bound) && forall n :: n in list ==> n in shown
    ensures forall n :: n in list ==> n.name == shown[n].name
  {
    forall n | n in list
      ensures n.name == shown[n].name
    {
      assert NodeBuilt(n, shown);
    }
  }

  /** The entry of a finished child into its parent's list, in `insertChild`. */
  method InsertChild(t: TableIndex, child: TableIndex)
    modifies t`folders, t`files
    ensures t.folders == old(t.folders) + if child.isFolder then [child] else []
    ensures t.files == old(t.files) + if child.isFolder then [] else [child]
  {
    if child.isFolder {
      t.folders := t.folders + [child];
    } else {
      t.files := t.files + [child];
    }
  }

  /** The constructor and `resetChilds`, down the whole directory. The link to
      the parent and its mark, which the source sets on the finished child, are
      set first; nothing reads them in between. */
  method BuildTable(d: Node, up: TableIndex?) returns (t: TableIndex, ghost shown: Shown)
    requires up != null ==> up.checked == Unchecked
    ensures t in shown && shown[t] == d && fresh(shown.Keys) && t.parent == up
    ensures TablesBuilt({t}, up, shown, Size(d))
    ensures forall n :: n in shown ==> n.checked == Unchecked
    decreases d
  {
    hide TablesBuilt, ChildsBuilt, NodeBuilt, Placed, Folders, Files, Size, SizeOfAll, Arrangement;
    t := new TableIndex(Unchecked, d.entry, d.name, d.Folder?);
    if up != null {
      t.parent, t.checked := up, up.checked;
    }
    if d.FileNode? {
      shown := map[t := d];
      OneFile(t, d, up, shown);
      return;
    }
    shown := BuildChilds(t, d.children);
    SortChilds(t, d.children, shown);
    RootOver(t, d, up, Members(t.folders + t.files), shown);
    shown := shown[t := d];
  }

  /** The sorting at the end of `resetChilds`. */
  method SortChilds(t: TableIndex, ghost children: seq<Node>, ghost shown: Shown)
    requires t !in shown && TablesBuilt(Members(t.folders + t.files), t, shown, SizeOfAll(children))
    requires ChildsBuilt(t, t.folders, t.files, shown)
    requires NodesOf(t.folders, shown) == Folders(children) && NodesOf(t.files, shown) == Files(children)
    modifies t`folders, t`files
    ensures TablesBuilt(Members(t.folders + t.files), t, shown, SizeOfAll(children))
    ensures ChildsBuilt(t, t.folders, t.files, shown) && Arrangement(NodesOf(t.folders, shown), Folders(children))
    ensures Arrangement(NodesOf(t.files, shown), Files(children))
  {
    hide TablesBuilt, NodeBuilt, Placed, Folders, Files, SizeOfAll, Arrangement, SortedByName, ChildsBuilt, NodesOf, Members;
    ghost var roots, bound := Members(t.folders + t.files), SizeOfAll(children);
    ListsShown(t, t.folders, t.files, shown);
    var folders := SortList(t.folders, shown, roots, t, bound);
    var files := SortList(t.files, shown, roots, t, bound);
    ChildsReordered(t, t.folders, t.files, folders, files, shown);
    ListsShown(t, folders, files, shown);
    t.folders, t.files := folders, files;
  }

  lemma ListsShown(t: TableIndex, folders: seq<TableIndex>, files: seq<TableIndex>, shown: Shown)
    requires ChildsBuilt(t, folders, files, shown)
    ensures forall c :: c in folders || c in files ==> c in shown
  {
  }

  /** One of the two lists. */
  method SortList(list: seq<TableIndex>, ghost shown: Shown, ghost roots: set<TableIndex>, ghost up: TableIndex?, ghost bound: nat)
    returns (r: seq<TableIndex>)
    requires TablesBuilt(roots, up, shown, bound) && forall n :: n in list ==> n in shown
    ensures forall n :: n in r <==> n in list
    ensures Arrangement(NodesOf(r, shown), NodesOf(list, shown))
  {
    NamesShown(list, shown, roots, up, bound);
    hide TablesBuilt, Arrangement, SortedByName, NodesOf;
    r := SortTable(list);
    SortedArrangement(r, list, shown);
    SameMembers(r, list);
  }

  lemma OneFile(t: TableIndex, d: Node, up: TableIndex?, shown: Shown)
    requires d.FileNode? && shown == map[t := d] && t.parent == up && t.folders == [] && t.files == []
    requires t.entry == d.entry && t.name == d.name && !t.isFolder
    ensures TablesBuilt({t}, up, shown, Size(d))
  {
    assert NodesOf([], shown) == [];
  }

  lemma ChildsReordered(t: TableIndex, folders: seq<TableIndex>, files: seq<TableIndex>,
                        folders': seq<TableIndex>, files': seq<TableIndex>, shown: Shown)
    requires ChildsBuilt(t, folders, files, shown)
    requires forall n :: (n in folders <==> n in folders') && (n in files <==> n in files')
    ensures ChildsBuilt(t, folders', files', shown)
    ensures Members(folders' + files') == Members(folders + files)
  {
  }

  /** The loop of `resetChilds`. */
  method BuildChilds(t: TableIndex, children: seq<Node>) returns (ghost shown: Shown)
    requires t.folders == [] && t.files == [] && t.checked == Unchecked
    modifies t`folders, t`files
    ensures t !in shown && fresh(shown.Keys)
    ensures TablesBuilt(Members(t.folders + t.files), t, shown, SizeOfAll(children))
    ensures ChildsBuilt(t, t.folders, t.files, shown)
    ensures NodesOf(t.folders, shown) == Folders(children) && NodesOf(t.files, shown) == Files(children)
    ensures forall n :: n in shown ==> n.checked == Unchecked
    decreases children
  {
    hide TablesBuilt, ChildsBuilt, NodeBuilt, Placed, Folders, Files, Size, SizeOfAll;
    ghost var bound := SizeOfAll(children);
    shown := map[];
    ghost var roots := {};
    NothingBuilt(t, children, bound);
    for i := 0 to |children|
      invariant t !in shown && fresh(shown.Keys) && t.checked == Unchecked
      invariant roots == Members(t.folders + t.files)
      invariant TablesBuilt(roots, t, shown, bound) && ChildsBuilt(t, t.folders, t.files, shown)
      invariant (forall c :: c in t.folders || c in t.files ==> c in shown)
      invariant NodesOf(t.folders, shown) == Folders(children[..i]) && NodesOf(t.files, shown) == Files(children[..i])
      invariant forall n :: n in shown ==> n.checked == Unchecked
    {
      var child, below := BuildTable(children[i], t);
      SizeOfChild(children, i);
      HigherBound({child}, t, below, Size(children[i]), bound);
      RootKind(child, t, below, bound);
      ghost var folders, files := t.folders, t.files;
      InsertChild(t, child);
      SideBySide(roots, {child}, t, shown, below, bound);
      OneMoreListed(children, i, folders, files, child, shown, shown + below);
      OneMoreBuilt(t, folders, files, child, shown, below);
      roots, shown := roots + {child}, shown + below;
    }
    assert children[..|children|] == children;
  }

  lemma NothingBuilt(t: TableIndex, children: seq<Node>, bound: nat)
    ensures TablesBuilt({}, t, map[], bound) && ChildsBuilt(t, [], [], map[])
    ensures NodesOf([], map[]) == Folders(children[..0]) && NodesOf([], map[]) == Files(children[..0])
  {
  }

  lemma RootKind(child: TableIndex, up: TableIndex?, below: Shown, bound: nat)
    requires TablesBuilt({child}, up, below, bound)
    ensures child in below && child.isFolder == below[child].Folder?
  {
    assert NodeBuilt(child, below);
  }

  lemma OneMoreBuilt(t: TableIndex, folders: seq<TableIndex>, files: seq<TableIndex>, child: TableIndex, shown: Shown, below: Shown)
    requires ChildsBuilt(t, folders, files, shown) && shown.Keys !! below.Keys
    requires child in below && child.parent == t && child.isFolder == below[child].Folder?
    ensures ChildsBuilt(t, folders + if child.isFolder then [child] else [], files + if child.isFolder then [] else [child], shown + below)
  {
  }

  /** A new table has right marks everywhere, so clicking can start. */
  lemma NewTableConsistent(shape: Shape)
    requires shape.Valid() && forall n :: n in shape.nodes ==> n.checked == Unchecked
    ensures shape.AllConsistent(shape.Marks())
  {
    shape.UniformConsistent(shape.Marks(), Unchecked);
  }

  /** Folders are listed among the folders, files among the files. */
  lemma NewTableKinds(shape: Shape, shown: Shown)
    requires shape.Valid() && TableShows(shape, shown)
    ensures Kinds(shape)
  {
    forall n, c | n in shape.nodes && (c in shape.folders[n] || c in shape.files[n])
      ensures if c in shape.folders[n] then c.isFolder else !c.isFolder
    {
      assert NodeShows(shape, shown, n);
      shape.Facts(n);
      assert NodeShows(shape, shown, c);
    }
  }

  // ---------- both views

  /** The table of a directory: a tree that shows it, with right marks everywhere. */
  method OpenTable(d: Node) returns (root: TableIndex, ghost shape: Shape, ghost shown: Shown)
    ensures shape.root == root && shape.Valid() && shape.Built() && Kinds(shape) && fresh(shape.nodes)
    ensures TableShows(shape, shown) && root in shown && shown[root] == d
    ensures shape.AllConsistent(shape.Marks()) && forall n :: n in shape.nodes ==> n.checked == Unchecked
  {
    root, shown := BuildTable(d, null);
    BuiltIsTree(root, d, shown);
    shape := ShapeOf(root, shown);
    NewTableConsistent(shape);
    NewTableKinds(shape, shown);
  }

  /** The table and the tree built from one directory, in which no two folders
      of a directory share a name, lead every path to the same entry, or both to nothing. */
  method OpenInBothViews(d: Node, path: string) returns (r: TableIndex?, t: FolderTree.TreeIndex?)
    requires d.Folder? && UniqueBelow(d)
    ensures r == null <==> t == null
    ensures r != null ==> r.entry == t.entry
    ensures r == null <==> ResolveFullNode(d, path) == None
    ensures r != null ==> r.entry == ResolveFullNode(d, path).value.entry
  {
    var root, shape, shown := OpenTable(d);
    var treeRoot, treeShown := FolderTree.BuildTree(d);
    r := IndexByPath(root, path, shape);
    t := FolderTree.IndexByPath(treeRoot, path, treeShown);
    FullPathResolves(shape, shown, path);
    if r != null {
      assert NodeShows(shape, shown, r);
      assert FolderTree.NodeShows(t, treeShown);
    }
  }
}
