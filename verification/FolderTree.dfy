/** The tree view of a directory: folders are found by name in a map, and its
    check marks follow rules of their own. */
module FolderTree {
  import opened Bytes
  import opened DirectoryTree
  import opened FolderTable

  class TreeIndex {
    const entry: nat
    var parent: TreeIndex?
    var folders: map<string, TreeIndex>
    var checked: CheckState

    constructor (entry: nat)
      ensures this.entry == entry && parent == null && folders == map[] && checked == Unchecked
    {
      this.entry, parent, folders, checked := entry, null, map[], Unchecked;
    }

    /** `insertChild`: of several folders with one name the map keeps the first. */
    method InsertChild(name: string, child: TreeIndex)
      modifies child`parent, this`folders
      ensures child.parent == this
      ensures folders == if name in old(folders) then old(folders) else old(folders)[name := child]
    {
      child.parent := this;
      if name !in folders {
        folders := folders[name := child];
      }
    }

    /** `index_node`: in a tree built from a directory, the node of the folder the path leads to. */
    method IndexNode(path: string, ghost shown: map<TreeIndex, Node>) returns (r: TreeIndex?)
      requires TreeShows(shown) && this in shown
      ensures r == null <==> ResolveNode(shown[this], path) == None
      ensures r != null ==> r in shown && ResolveNode(shown[this], path) == Some(shown[r])
      decreases |path|
    {
      hide First;
      var firstPos := FirstSeparator(path);
      var name := path[..firstPos];
      assert NodeShows(this, shown);
      if firstPos == |path| {
        assert name == path;
        if path == "" || path !in folders {
          return null;
        }
        return folders[path];
      }
      if name !in folders {
        return null;
      }
      r := folders[name].IndexNode(path[firstPos + 1..], shown);
    }

    /** Marks the folders directly below, and nothing deeper. */
    method UpdateCheckChilds(s: CheckState)
      modifies folders.Values`checked
      ensures AllShow(this, s)
      ensures forall name :: name in folders ==> folders[name].checked == s
    {
      var names := folders.Keys;
      while names != {}
        invariant names <= folders.Keys
        invariant forall name :: name in folders && name !in names ==> folders[name].checked == s
        decreases |names|
      {
        var name :| name in names;
        folders[name].checked := s;
        names := names - {name};
      }
    }

    method CheckFromChilds(current: CheckState) returns (r: CheckState)
      ensures r == TreeMark(this, checked, current)
      ensures (forall name :: name in folders ==> folders[name].checked == checked) ==> r == current
      ensures (exists name :: name in folders && folders[name].checked != checked) ==> r == PartiallyChecked
    {
      var names := folders.Keys;
      while names != {}
        invariant names <= folders.Keys
        invariant forall name :: name in folders && name !in names ==> folders[name].checked == checked
        decreases |names|
      {
        var name :| name in names;
        if checked != folders[name].checked {
          return PartiallyChecked;
        }
        names := names - {name};
      }
      r := current;
    }

    /** `updateCheckParents`: from the parent up, every ancestor takes the mark
        that its folders and its own old mark give it. */
    method UpdateCheckParents(s: CheckState, ghost up: seq<TreeIndex>)
      requires Ancestors(this, up)
      modifies (set p | p in up)`checked
      ensures forall i :: 0 <= i < |up| ==> up[i].checked == TreeMark(up[i], old(up[i].checked), s)
    {
      assert parent == AncestorAt(up, 0);
      ghost var own := seq(|up|, k requires 0 <= k < |up| => old(up[k].checked));
      hide Ancestors, TreeMark, Climbed;
      ClimbStarts(up, own, s);
      var p := parent;
      ghost var i := 0;
      while p != null
        invariant i <= |up| && p == AncestorAt(up, i)
        invariant Climbed(up, own, s, i)
        decreases |up| - i
      {
        assert up[i] in up;
        LinkOf(this, up, i);
        ClimbStep(p, s, up, own, i);
        p := p.parent;
        i := i + 1;
      }
      ClimbEnds(up, own, s);
    }

    /** One ancestor. */
    method ClimbStep(p: TreeIndex, s: CheckState, ghost up: seq<TreeIndex>, ghost own: seq<CheckState>, ghost i: nat)
      requires Ancestors(this, up) && i < |up| == |own| && p == up[i] && Climbed(up, own, s, i)
      modifies p`checked
      ensures Climbed(up, own, s, i + 1)
    {
      Others(this, up, i);
      assert up[i].checked == own[i];
      hide Ancestors, TreeMark;
      label before:
      p.TakeMark(s);
      forall j | 0 <= j < i
        ensures TreeMark(up[j], own[j], s) == old@before(TreeMark(up[j], own[j], s))
      {
      }
    }

    method TakeMark(s: CheckState)
      requires this !in folders.Values
      modifies this`checked
      ensures checked == TreeMark(this, old(checked), s)
    {
      checked := CheckFromChilds(s);
    }

    /** `setData` for a check mark: the folders directly below, the node, its ancestors. */
    method SetData(s: CheckState, ghost up: seq<TreeIndex>)
      requires Ancestors(this, up) && Clear(this, up)
      modifies folders.Values`checked, this`checked, (set p | p in up)`checked
      ensures AllShow(this, s) && checked == s
      ensures forall i :: 0 <= i < |up| ==> up[i].checked == TreeMark(up[i], old(up[i].checked), s)
    {
      UpdateCheckChilds(s);
      checked := s;
      UpdateCheckParents(s, up);
    }
  }

  // ---------- a tree built from a directory

  /** The node shows its directory entry and has, for every name, the first folder of that name. */
  ghost predicate NodeShows(t: TreeIndex, shown: map<TreeIndex, Node>)
    requires t in shown
    reads t`folders
  {
    && shown[t].Folder? && t.entry == shown[t].entry
    && ShowsFolders(t.folders, FoldersIn(shown[t]), shown)
  }

  ghost predicate ShowsFolders(folders: map<string, TreeIndex>, nodes: seq<Node>, shown: map<TreeIndex, Node>) {
    forall name ::
      if name in folders then folders[name] in shown && First(nodes, name) == Some(shown[folders[name]]) else First(nodes, name) == None
  }

  ghost predicate TreeShows(shown: map<TreeIndex, Node>)
    reads shown.Keys`folders
  {
    forall t :: t in shown ==> NodeShows(t, shown)
  }

  /** `resetChilds`, down the whole directory. */
  method BuildTree(d: Node) returns (t: TreeIndex, ghost shown: map<TreeIndex, Node>)
    requires d.Folder?
    ensures t in shown && shown[t] == d && TreeShows(shown) && Hangs({t}, null, shown, Size(d))
    ensures fresh(shown.Keys) && forall n :: n in shown ==> n.checked == Unchecked && Knows(n)
    decreases d, 0
  {
    hide First, Folders, ShowsFolders, NodeShows, TreeShows, Size, SizeOfAll, Hangs, Knows, PartBuilt;
    t := new TreeIndex(d.entry);
    shown := map[];
    ghost var roots: set<TreeIndex> := {};
    NothingBuilt(t, d.children);
    for i := 0 to |d.children|
      invariant t !in shown && fresh(t) && fresh(shown.Keys) && t.parent == null && t.checked == Unchecked
      invariant PartBuilt(t, d.children, i, roots, shown)
    {
      if d.children[i].Folder? {
        roots, shown := AddFolder(t, d.children, i, roots, shown);
      } else {
        SkipFile(t, d.children, i, roots, shown);
      }
    }
    PartsBuilt(t, d.children, roots, shown);
    RootAdded(t, d, shown);
    RootHangs(t, d, roots, shown);
    shown := shown[t := d];
  }

  /** What the loop over the children has made of the first `i`. */
  ghost predicate PartBuilt(t: TreeIndex, children: seq<Node>, i: nat, roots: set<TreeIndex>, shown: map<TreeIndex, Node>)
    reads t`folders, t.folders.Values`parent, shown.Keys, set p, c | p in shown && c in p.folders.Values :: c
  {
    && i <= |children| && TreeShows(shown) && ShowsFolders(t.folders, Folders(children[..i]), shown)
    && (forall n :: n in shown ==> n.checked == Unchecked && Knows(n))
    && Knows(t) && t.folders.Values <= shown.Keys && Hangs(roots, t, shown, SizeOfAll(children))
  }

  lemma NothingBuilt(t: TreeIndex, children: seq<Node>)
    requires t.folders == map[]
    ensures PartBuilt(t, children, 0, {}, map[])
  {
    NothingHangs(t, SizeOfAll(children));
    NothingShown(children);
    KnowsNone(t);
  }

  lemma SkipFile(t: TreeIndex, children: seq<Node>, i: nat, roots: set<TreeIndex>, shown: map<TreeIndex, Node>)
    requires i < |children| && !children[i].Folder? && PartBuilt(t, children, i, roots, shown)
    ensures PartBuilt(t, children, i + 1, roots, shown)
  {
    OneMoreChild(children, i);
    hide First, Folders, ShowsFolders, NodeShows, TreeShows, SizeOfAll, Hangs, Knows;
  }

  lemma PartsBuilt(t: TreeIndex, children: seq<Node>, roots: set<TreeIndex>, shown: map<TreeIndex, Node>)
    requires PartBuilt(t, children, |children|, roots, shown)
    ensures TreeShows(shown) && ShowsFolders(t.folders, Folders(children), shown)
    ensures (forall n :: n in shown ==> n.checked == Unchecked && Knows(n)) && Knows(t)
    ensures Hangs(roots, t, shown, SizeOfAll(children))
  {
    assert children[..|children|] == children;
  }

  /** One folder and all below it. */
  method AddFolder(t: TreeIndex, children: seq<Node>, i: nat, ghost roots: set<TreeIndex>, ghost shown: map<TreeIndex, Node>)
    returns (ghost roots': set<TreeIndex>, ghost shown': map<TreeIndex, Node>)
    requires i < |children| && children[i].Folder? && PartBuilt(t, children, i, roots, shown)
    requires t !in shown
    modifies t`folders
    ensures PartBuilt(t, children, i + 1, roots', shown') && t !in shown'
    ensures shown.Keys <= shown'.Keys && fresh(shown'.Keys - shown.Keys)
    decreases children[i], 1
  {
    hide First, Folders, ShowsFolders, NodeShows, TreeShows, Size, SizeOfAll, Hangs, Knows;
    var c := children[i];
    var child, below := BuildTree(c);
    ghost var before := t.folders;
    RootsParent(child, below, Size(c));
    NotAFolder(child, below);
    FoldersShown(shown);
    FoldersKnown(t);
    hide PartBuilt;
    t.InsertChild(c.name, child);
    HungUnder(child, t, below, Size(c));
    StillKnows(t, before, c.name, child);
    PartAdded(t, children, i, before, child, roots, shown, below);
    roots', shown' := roots + {child}, shown + below;
  }

  lemma PartAdded(t: TreeIndex, children: seq<Node>, i: nat, before: map<string, TreeIndex>, child: TreeIndex,
                  roots: set<TreeIndex>, shown: map<TreeIndex, Node>, below: map<TreeIndex, Node>)
    requires i < |children| && children[i].Folder? && shown.Keys !! below.Keys && child in below && below[child] == children[i]
    requires TreeShows(shown) && ShowsFolders(before, Folders(children[..i]), shown) && before.Values <= shown.Keys
    requires t.folders == if children[i].name in before then before else before[children[i].name := child]
    requires Knows(t) && t.folders.Values <= before.Values + {child} && Hangs(roots, t, shown, SizeOfAll(children))
    requires TreeShows(below) && Hangs({child}, t, below, Size(children[i]))
    requires forall n :: n in shown || n in below ==> n.checked == Unchecked && Knows(n)
    ensures PartBuilt(t, children, i + 1, roots + {child}, shown + below)
  {
    hide First, Folders, ShowsFolders, NodeShows, TreeShows, Size, SizeOfAll, Hangs, Knows;
    OneMoreChild(children, i);
    SizeOfChild(children, i);
    HangBeside(roots, {child}, t, shown, below, SizeOfAll(children), Size(children[i]));
    MergedNodes(shown, below);
    MergedFolders(before, t.folders, Folders(children[..i]), children[i], child, shown, below);
  }

  /** The folders of a node have it as their parent. */
  ghost predicate Knows(p: TreeIndex)
    reads p`folders, p.folders.Values`parent
  {
    forall c :: c in p.folders.Values ==> c.parent == p
  }

  lemma KnowsNone(t: TreeIndex)
    requires t.folders == map[]
    ensures Knows(t) && t.folders.Values == {}
  {
  }

  /** A node without parent is nobody's folder. */
  lemma NotAFolder(child: TreeIndex, below: map<TreeIndex, Node>)
    requires child.parent == null && forall p :: p in below ==> Knows(p)
    ensures forall p :: p in below ==> child !in p.folders.Values
  {
  }

  lemma FoldersShown(shown: map<TreeIndex, Node>)
    requires TreeShows(shown)
    ensures forall p :: p in shown ==> p.folders.Values <= shown.Keys
  {
    forall p | p in shown
      ensures p.folders.Values <= shown.Keys
    {
      assert NodeShows(p, shown);
    }
  }

  lemma FoldersKnown(t: TreeIndex)
    requires Knows(t)
    ensures forall c :: c in t.folders.Values ==> c.parent == t
  {
  }

  lemma StillKnows(t: TreeIndex, before: map<string, TreeIndex>, name: string, child: TreeIndex)
    requires child.parent == t && forall c :: c in before.Values ==> c.parent == t
    requires t.folders == if name in before then before else before[name := child]
    ensures Knows(t) && t.folders.Values <= before.Values + {child}
  {
  }

  lemma NothingShown(children: seq<Node>)
    ensures TreeShows(map[]) && ShowsFolders(map[], Folders(children[..0]), map[])
  {
  }

  /** The roots hang under `up`; every other node's parent is one of the nodes, and a larger directory. */
  ghost predicate Hangs(roots: set<TreeIndex>, up: TreeIndex?, shown: map<TreeIndex, Node>, bound: nat)
    reads shown.Keys`parent
  {
    roots <= shown.Keys && forall n :: n in shown ==> HangsAt(roots, up, shown, bound, n)
  }

  ghost predicate HangsAt(roots: set<TreeIndex>, up: TreeIndex?, shown: map<TreeIndex, Node>, bound: nat, n: TreeIndex)
    requires n in shown
    reads n`parent
  {
    && Size(shown[n]) <= bound
    && if n in roots then n.parent == up
       else n.parent != null && n.parent in shown && Size(shown[n]) < Size(shown[n.parent])
  }

  lemma NothingHangs(up: TreeIndex?, bound: nat)
    ensures Hangs({}, up, map[], bound)
  {
  }

  lemma RootsParent(child: TreeIndex, below: map<TreeIndex, Node>, bound: nat)
    requires Hangs({child}, null, below, bound)
    ensures child in below && forall n :: n in below && n != child ==> HangsAt({}, null, below, bound, n)
    ensures Size(below[child]) <= bound && child.parent == null
  {
    hide Size;
    assert HangsAt({child}, null, below, bound, child);
    forall n | n in below && n != child
      ensures HangsAt({}, null, below, bound, n)
    {
      assert HangsAt({child}, null, below, bound, n);
    }
  }

  lemma HungUnder(child: TreeIndex, up: TreeIndex, below: map<TreeIndex, Node>, bound: nat)
    requires child in below && child.parent == up && Size(below[child]) <= bound
    requires forall n :: n in below && n != child ==> HangsAt({}, null, below, bound, n)
    ensures Hangs({child}, up, below, bound)
  {
    hide Size;
    forall n | n in below && n != child
      ensures HangsAt({child}, up, below, bound, n)
    {
      assert HangsAt({}, null, below, bound, n);
    }
  }

  lemma HangBeside(a: set<TreeIndex>, b: set<TreeIndex>, up: TreeIndex?, shown: map<TreeIndex, Node>, below: map<TreeIndex, Node>,
                   bound: nat, bound': nat)
    requires Hangs(a, up, shown, bound) && Hangs(b, up, below, bound') && bound' <= bound && shown.Keys !! below.Keys
    ensures Hangs(a + b, up, shown + below, bound)
  {
    hide Size;
    forall n | n in shown + below
      ensures HangsAt(a + b, up, shown + below, bound, n)
    {
      assert if n in shown then HangsAt(a, up, shown, bound, n) else HangsAt(b, up, below, bound', n);
    }
  }

  lemma RootHangs(t: TreeIndex, d: Node, roots: set<TreeIndex>, shown: map<TreeIndex, Node>)
    requires d.Folder? && t !in shown && Hangs(roots, t, shown, SizeOfAll(d.children)) && t.parent == null
    ensures Hangs({t}, null, shown[t := d], Size(d))
  {
    var all := shown[t := d];
    assert Size(d) == 1 + SizeOfAll(d.children);
    hide Size;
    forall n | n in shown
      ensures HangsAt({t}, null, all, Size(d), n)
    {
      assert HangsAt(roots, t, shown, SizeOfAll(d.children), n);
    }
  }

  lemma ShownByMore(folders: map<string, TreeIndex>, nodes: seq<Node>, shown: map<TreeIndex, Node>, more: map<TreeIndex, Node>)
    requires ShowsFolders(folders, nodes, shown) && forall t :: t in shown ==> t in more && more[t] == shown[t]
    ensures ShowsFolders(folders, nodes, more)
  {
  }

  lemma MergedNodes(shown: map<TreeIndex, Node>, below: map<TreeIndex, Node>)
    requires TreeShows(shown) && TreeShows(below) && shown.Keys !! below.Keys
    ensures TreeShows(shown + below)
  {
    hide ShowsFolders, FoldersIn;
    var all := shown + below;
    forall t | t in all
      ensures NodeShows(t, all)
    {
      if t in shown {
        assert NodeShows(t, shown);
        ShownByMore(t.folders, FoldersIn(shown[t]), shown, all);
      } else {
        assert NodeShows(t, below);
        ShownByMore(t.folders, FoldersIn(below[t]), below, all);
      }
    }
  }

  lemma MergedFolders(before: map<string, TreeIndex>, after: map<string, TreeIndex>, nodes: seq<Node>, c: Node, child: TreeIndex,
                      shown: map<TreeIndex, Node>, below: map<TreeIndex, Node>)
    requires ShowsFolders(before, nodes, shown) && shown.Keys !! below.Keys
    requires child in below && below[child] == c
    requires after == if c.name in before then before else before[c.name := child]
    ensures ShowsFolders(after, nodes + [c], shown + below)
  {
    hide First;
    forall name
      ensures First(nodes + [c], name) ==
        if First(nodes, name).Some? then First(nodes, name) else if c.name == name then Some(c) else None
    {
      FirstSnoc(nodes, c, name);
    }
  }

  lemma RootAdded(t: TreeIndex, d: Node, shown: map<TreeIndex, Node>)
    requires d.Folder? && t !in shown && TreeShows(shown) && t.entry == d.entry
    requires ShowsFolders(t.folders, Folders(d.children), shown)
    ensures TreeShows(shown[t := d])
  {
    hide ShowsFolders, Folders;
    var all := shown[t := d];
    ShownByMore(t.folders, Folders(d.children), shown, all);
    forall n | n in shown
      ensures NodeShows(n, all)
    {
      assert NodeShows(n, shown);
      ShownByMore(n.folders, FoldersIn(shown[n]), shown, all);
    }
  }

  /** `FSTreeModel::indexByPath` */
  method IndexByPath(root: TreeIndex, path: string, ghost shown: map<TreeIndex, Node>) returns (r: TreeIndex?)
    requires TreeShows(shown) && root in shown
    ensures r == null <==> ResolveFullNode(shown[root], path) == None
    ensures r != null ==> r in shown && ResolveFullNode(shown[root], path) == Some(shown[r])
  {
    var firstPos := FirstSeparator(path);
    if firstPos == |path| {
      return if |path| > 0 then root else null;
    }
    r := root.IndexNode(path[firstPos + 1..], shown);
  }

  // ---------- check marks

  /** All folders directly below show `s`. */
  ghost predicate AllShow(p: TreeIndex, s: CheckState)
    reads p`folders, p.folders.Values`checked
  {
    forall name :: name in p.folders ==> p.folders[name].checked == s
  }

  /** The mark a node with folders should have: their common one, or PartiallyChecked when they differ. */
  ghost predicate RightMark(p: TreeIndex, r: CheckState)
    reads p`folders, p.folders.Values`checked
  {
    AllShow(p, r) || (r == PartiallyChecked && forall s :: !AllShow(p, s))
  }

  /** What `checkFormChilds` gives a node whose own mark is `own`: it compares
      the folders with that mark, not with each other. */
  ghost function TreeMark(p: TreeIndex, own: CheckState, current: CheckState): (r: CheckState)
    reads p`folders, p.folders.Values`checked
  {
    if AllShow(p, own) then current else PartiallyChecked
  }

  /** A node with folders gets the right mark in two cases only: its folders show
      its old mark and that is the mark clicked, or they do not and have no
      common mark but PartiallyChecked. */
  lemma MarkRight(p: TreeIndex, own: CheckState, s: CheckState)
    requires p.folders != map[]
    ensures RightMark(p, TreeMark(p, own, s)) <==>
      if AllShow(p, own) then s == own else forall t :: AllShow(p, t) ==> t == PartiallyChecked
  {
    var name :| name in p.folders;
    assert forall t :: AllShow(p, t) ==> t == p.folders[name].checked;
  }

  /** For the parent of the clicked node: wrong exactly when the click makes all
      folders show a full mark that the parent did not show. */
  lemma ParentMark(p: TreeIndex, name: string, s: CheckState)
    requires name in p.folders && p.folders[name].checked == s
    ensures RightMark(p, TreeMark(p, p.checked, s)) <==> !(AllShow(p, s) && p.checked != s && s != PartiallyChecked)
  {
    MarkRight(p, p.checked, s);
    assert forall t :: AllShow(p, t) ==> t == s;
  }

  /** `up` are the ancestors of `t`, nearest first. */
  ghost predicate Ancestors(t: TreeIndex, up: seq<TreeIndex>)
    reads t`parent, up`parent, up`folders
  {
    && t.parent == AncestorAt(up, 0)
    && (forall i :: 0 <= i < |up| ==> up[i].parent == AncestorAt(up, i + 1))
    && (forall i, j :: 0 <= i < j < |up| ==> up[i] != up[j])
    && (forall i, j :: 0 <= i <= j < |up| ==> up[j] !in up[i].folders.Values)
  }

  /** The first `i` ancestors have their new marks, the others their own. */
  ghost predicate Climbed(up: seq<TreeIndex>, own: seq<CheckState>, s: CheckState, i: nat)
    requires i <= |up| == |own|
    reads up, set p, c | p in up && c in p.folders.Values :: c
  {
    && (forall j :: 0 <= j < i ==> up[j].checked == TreeMark(up[j], own[j], s))
    && (forall j :: i <= j < |up| ==> up[j].checked == own[j])
  }

  lemma ClimbStarts(up: seq<TreeIndex>, own: seq<CheckState>, s: CheckState)
    requires |own| == |up| && forall j :: 0 <= j < |up| ==> up[j].checked == own[j]
    ensures Climbed(up, own, s, 0)
  {
  }

  lemma ClimbEnds(up: seq<TreeIndex>, own: seq<CheckState>, s: CheckState)
    requires |own| == |up| && Climbed(up, own, s, |up|)
    ensures forall j :: 0 <= j < |up| ==> up[j].checked == TreeMark(up[j], own[j], s)
  {
  }

  function AncestorAt(up: seq<TreeIndex>, i: nat): (r: TreeIndex?) {
    if i < |up| then up[i] else null
  }

  /** No ancestor is the node itself or one of its folders. */
  ghost predicate Clear(t: TreeIndex, up: seq<TreeIndex>)
    reads t`folders
  {
    t !in up && t !in t.folders.Values && forall p :: p in up ==> p !in t.folders.Values
  }

  /** In a built tree every node has such ancestors. */
  lemma {:induction false} AncestorsFound(t: TreeIndex, root: TreeIndex, shown: map<TreeIndex, Node>, bound: nat)
    returns (up: seq<TreeIndex>)
    requires TreeShows(shown) && Hangs({root}, null, shown, bound) && t in shown
    ensures Ancestors(t, up) && Clear(t, up)
    ensures forall i :: 0 <= i < |up| ==> up[i] in shown && Size(shown[t]) < Size(shown[up[i]])
    decreases bound - Size(shown[t])
  {
    hide Size;
    assert HangsAt({root}, null, shown, bound, t);
    FoldersSmaller(t, shown);
    if t == root {
      up := [];
    } else {
      assert HangsAt({root}, null, shown, bound, t.parent);
      var rest := AncestorsFound(t.parent, root, shown, bound);
      up := [t.parent] + rest;
      LongerChain(t, t.parent, rest, shown);
    }
  }

  lemma FoldersSmaller(t: TreeIndex, shown: map<TreeIndex, Node>)
    requires TreeShows(shown) && t in shown
    ensures forall c :: c in t.folders.Values ==> c in shown && Size(shown[c]) < Size(shown[t])
  {
    assert NodeShows(t, shown);
    forall c | c in t.folders.Values
      ensures c in shown && Size(shown[c]) < Size(shown[t])
    {
      var name :| name in t.folders && t.folders[name] == c;
      SizeOfFolder(shown[t], shown[c]);
    }
  }

  lemma LongerChain(t: TreeIndex, p: TreeIndex, rest: seq<TreeIndex>, shown: map<TreeIndex, Node>)
    requires TreeShows(shown) && t in shown && p in shown && t.parent == p && Size(shown[t]) < Size(shown[p])
    requires Ancestors(p, rest) && Clear(p, rest)
    requires forall i :: 0 <= i < |rest| ==> rest[i] in shown && Size(shown[p]) < Size(shown[rest[i]])
    ensures Ancestors(t, [p] + rest) && Clear(t, [p] + rest)
    ensures forall i :: 0 <= i < |rest| + 1 ==> ([p] + rest)[i] in shown && Size(shown[t]) < Size(shown[([p] + rest)[i]])
  {
    hide Size, TreeShows, Ancestors, NodeShows, Clear;
    ParentInFront(t, p, rest);
    var up := [p] + rest;
    forall i | 0 <= i < |up|
      ensures up[i] in shown && Size(shown[t]) < Size(shown[up[i]])
    {
      assert i > 0 ==> up[i] == rest[i - 1];
    }
    LargerClear(t, up, shown);
  }

  lemma LargerClear(t: TreeIndex, up: seq<TreeIndex>, shown: map<TreeIndex, Node>)
    requires TreeShows(shown) && t in shown
    requires forall i :: 0 <= i < |up| ==> up[i] in shown && Size(shown[t]) < Size(shown[up[i]])
    ensures Clear(t, up)
  {
    FoldersSmaller(t, shown);
    hide Size, TreeShows, NodeShows;
  }

  lemma ParentInFront(t: TreeIndex, p: TreeIndex, rest: seq<TreeIndex>)
    requires t.parent == p && Ancestors(p, rest) && Clear(p, rest)
    ensures Ancestors(t, [p] + rest)
  {
    var up := [p] + rest;
    forall i | 0 <= i < |up|
      ensures up[i].parent == AncestorAt(up, i + 1)
    {
      if i > 0 {
        LinkOf(p, rest, i - 1);
      }
    }
    hide Clear;
    forall i, j | 0 <= i <= j < |up|
      ensures up[j] !in up[i].folders.Values && (i < j ==> up[i] != up[j])
    {
      if i > 0 {
        LaterApart(p, rest, i - 1, j - 1);
      } else if j > 0 {
        FrontApart(p, rest, j - 1);
      } else {
        FrontItself(p, rest);
      }
    }
  }

  lemma LinkOf(p: TreeIndex, rest: seq<TreeIndex>, i: nat)
    requires Ancestors(p, rest) && i < |rest|
    ensures rest[i].parent == AncestorAt(rest, i + 1)
  {
  }

  lemma LaterApart(p: TreeIndex, rest: seq<TreeIndex>, i: nat, j: nat)
    requires Ancestors(p, rest) && i <= j < |rest|
    ensures rest[j] !in rest[i].folders.Values && (i < j ==> rest[i] != rest[j])
  {
  }

  lemma Others(p: TreeIndex, rest: seq<TreeIndex>, i: nat)
    requires Ancestors(p, rest) && i < |rest|
    ensures forall j :: 0 <= j <= i ==> rest[i] !in rest[j].folders.Values
    ensures forall j :: 0 <= j < |rest| && j != i ==> rest[j] != rest[i]
  {
    forall j | 0 <= j < |rest|
      ensures j <= i ==> rest[i] !in rest[j].folders.Values
      ensures j != i ==> rest[j] != rest[i]
    {
      if j <= i {
        LaterApart(p, rest, j, i);
      } else {
        LaterApart(p, rest, i, j);
      }
    }
  }

  lemma FrontApart(p: TreeIndex, rest: seq<TreeIndex>, j: nat)
    requires Clear(p, rest) && j < |rest|
    ensures rest[j] !in p.folders.Values && rest[j] != p
  {
    assert rest[j] in rest;
  }

  lemma FrontItself(p: TreeIndex, rest: seq<TreeIndex>)
    requires Clear(p, rest)
    ensures p !in p.folders.Values
  {
  }

  /** Marks that a click on `t` can change in the folders of `p`: none, unless
      `p` is `t` itself or one of its ancestors. */
  lemma FoldersUntouched(t: TreeIndex, up: seq<TreeIndex>, p: TreeIndex)
    requires Ancestors(t, up) && Clear(t, up) && Knows(t) && Knows(p) && p != t && p !in up
    ensures forall c :: c in p.folders.Values ==> c != t && c !in t.folders.Values && c !in up
  {
    forall i | 0 <= i < |up|
      ensures up[i].parent != p
    {
      LinkOf(t, up, i);
    }
    assert t.parent != p;
  }

  /** One click, for the whole tree: which nodes with folders have the right mark
      afterwards. The clicked node has; a folder of it has when its own folders
      all show the mark already (or it is PartiallyChecked and they differ); an
      ancestor has in the cases of `MarkRight`; any other node has when it had before. */
  method ClickInTree(t: TreeIndex, s: CheckState, ghost up: seq<TreeIndex>, ghost shown: map<TreeIndex, Node>)
    requires t in shown && TreeShows(shown) && forall p :: p in shown ==> Knows(p)
    requires Ancestors(t, up) && Clear(t, up)
    modifies t.folders.Values`checked, t`checked, (set p | p in up)`checked
    ensures RightMark(t, t.checked)
    ensures forall c :: c in t.folders.Values && c.folders != map[] ==>
      (RightMark(c, c.checked) <==> old(AllShow(c, s)) || (s == PartiallyChecked && forall u :: !old(AllShow(c, u))))
    ensures forall i :: 0 <= i < |up| && up[i].folders != map[] ==>
      (RightMark(up[i], up[i].checked) <==>
        if AllShow(up[i], old(up[i].checked)) then s == old(up[i].checked) else forall u :: AllShow(up[i], u) ==> u == PartiallyChecked)
    ensures forall p :: p in shown && p != t && p !in t.folders.Values && p !in up ==>
      (RightMark(p, p.checked) <==> old(RightMark(p, p.checked)))
  {
    FoldersShown(shown);
    forall p | p in shown && p != t && p !in up
      ensures forall c :: c in p.folders.Values ==> c != t && c !in t.folders.Values && c !in up
    {
      FoldersUntouched(t, up, p);
    }
    forall c | c in t.folders.Values
      ensures c != t && c !in up && c in shown
    {
    }
    hide Ancestors, Clear, Knows, TreeShows, TreeMark, AllShow;
    t.SetData(s, up);
    FoldersMarked(t, s);
    forall p | p in shown && p != t && p !in up
      ensures forall u :: AllShow(p, u) <==> old(AllShow(p, u))
    {
    }
    forall i | 0 <= i < |up| && up[i].folders != map[]
      ensures RightMark(up[i], up[i].checked) <==>
        if AllShow(up[i], old(up[i].checked)) then s == old(up[i].checked) else forall u :: AllShow(up[i], u) ==> u == PartiallyChecked
    {
      MarkRight(up[i], old(up[i].checked), s);
    }
  }

  lemma FoldersMarked(t: TreeIndex, s: CheckState)
    requires AllShow(t, s)
    ensures forall c :: c in t.folders.Values ==> c.checked == s
  {
  }

  /** Checking a root whose folder has an unchecked folder of its own: the folder
      becomes checked, and what is in it does not. */
  method ClickAboveFolder() returns (root: TreeIndex, a: TreeIndex, b: TreeIndex, c: TreeIndex)
    ensures root.folders == map["a" := a] && a.folders == map["b" := b, "c" := c]
    ensures root.checked == a.checked == Checked && b.checked == c.checked == Unchecked && !RightMark(a, a.checked)
  {
    root, a, b, c := SmallTree();
    assert {root, a, b, c} == {root} + {a} + {b} + {c};
    assert root.folders["a"] == a && forall name :: name in root.folders ==> root.folders[name] == a;
    assert root !in root.folders.Values && b !in root.folders.Values && c !in root.folders.Values;
    root.SetData(Checked, []);
    assert root.folders["a"] == a && a.folders["b"] == b;
    assert AllShow(a, Unchecked);
  }

  /** Checking the only folder of an unchecked node leaves the node partially checked. */
  lemma OnlyFolderChecked(p: TreeIndex, child: TreeIndex)
    requires p.folders == map["DCIM" := child] && p.checked == Unchecked && child.checked == Checked
    ensures TreeMark(p, p.checked, Checked) == PartiallyChecked && !RightMark(p, PartiallyChecked)
  {
    assert p.folders["DCIM"].checked == Checked;
    assert AllShow(p, Checked);
  }

  /** A root with the one folder `a`, which has the folders `b` and `c`. */
  method SmallTree() returns (root: TreeIndex, a: TreeIndex, b: TreeIndex, c: TreeIndex)
    ensures fresh(root) && fresh(a) && fresh(b) && fresh(c) && |{root, a, b, c}| == 4
    ensures root.folders == map["a" := a] && a.folders == map["b" := b, "c" := c] && b.folders == c.folders == map[]
    ensures root.parent == null && a.parent == root && b.parent == c.parent == a
    ensures root.checked == a.checked == b.checked == c.checked == Unchecked
  {
    root := new TreeIndex(0);
    a := new TreeIndex(1);
    b := new TreeIndex(2);
    c := new TreeIndex(3);
    root.InsertChild("a", a);
    a.InsertChild("b", b);
    a.InsertChild("c", c);
  }

  /** The climb fails in a second way: after checking both folders of `a` in
      turn, `a` is partially checked and its own parent fully checked. */
  method TwoClicks() returns (root: TreeIndex, a: TreeIndex, b: TreeIndex, c: TreeIndex)
    ensures root.folders == map["a" := a] && a.folders == map["b" := b, "c" := c]
    ensures b.checked == c.checked == Checked && a.checked == PartiallyChecked && root.checked == Checked
  {
    root, a, b, c := SmallTree();
    ClickInSmallTree(root, a, b, c);
    ClickInSmallTree(root, a, c, b);
  }

  /** One click on a folder of `a`. */
  method ClickInSmallTree(root: TreeIndex, a: TreeIndex, x: TreeIndex, y: TreeIndex)
    requires |{root, a, x, y}| == 4 && x.folders == map[]
    requires root.folders == map["a" := a] && (a.folders == map["b" := x, "c" := y] || a.folders == map["c" := x, "b" := y])
    requires root.parent == null && a.parent == root && x.parent == a && a.checked != Checked
    modifies root`checked, a`checked, x`checked
    ensures x.checked == Checked && a.checked == PartiallyChecked
    ensures root.checked == if old(root.checked) == PartiallyChecked then Checked else PartiallyChecked
  {
    hide TreeMark;
    Distinct(root, a, x, y);
    x.SetData(Checked, [a, root]);
    MarksInSmallTree(root, a, x, y, old(a.checked), old(root.checked));
    assert [a, root][0] == a && [a, root][1] == root;
  }

  lemma Distinct(root: TreeIndex, a: TreeIndex, x: TreeIndex, y: TreeIndex)
    requires |{root, a, x, y}| == 4
    ensures root != a && root != x && root != y && a != x && a != y && x != y
  {
    assert {root, a, x, y} == {root} + {a} + {x} + {y};
  }

  lemma MarksInSmallTree(root: TreeIndex, a: TreeIndex, x: TreeIndex, y: TreeIndex, ownA: CheckState, ownRoot: CheckState)
    requires root.folders == map["a" := a] && (a.folders == map["b" := x, "c" := y] || a.folders == map["c" := x, "b" := y])
    requires x.checked == Checked && ownA != Checked
    ensures TreeMark(a, ownA, Checked) == PartiallyChecked
    ensures a.checked == PartiallyChecked ==>
      TreeMark(root, ownRoot, Checked) == if ownRoot == PartiallyChecked then Checked else PartiallyChecked
  {
    assert a.folders["b"] == x || a.folders["c"] == x;
    assert root.folders["a"] == a;
  }
}
