/** A directory as the file system delivers it, the names in it, and what looking
    up a path in it means. Two views are built from it: a table, which sorts
    the folders by name, and a tree, which keeps them in a map. */
module DirectoryTree {
  import opened Bytes

  const SEPARATOR := '\\'

  // ---------- paths as text

  /** Position of the first separator, or the length when there is none. */
  function FirstSeparator(path: string): (r: nat)
    ensures r <= |path| && (r < |path| ==> path[r] == SEPARATOR)
    ensures forall i :: 0 <= i < r ==> path[i] != SEPARATOR
  {
    if path == "" || path[0] == SEPARATOR then 0 else 1 + FirstSeparator(path[1..])
  }

  predicate Plain(name: string) {
    SEPARATOR !in name
  }

  lemma SeparatorAfter(head: string, tail: string)
    requires Plain(head)
    ensures FirstSeparator(head + [SEPARATOR] + tail) == |head|
    ensures FirstSeparator(head) == |head|
  {
    var path := head + [SEPARATOR] + tail;
    var r, q := FirstSeparator(path), FirstSeparator(head);
    assert path[|head|] == SEPARATOR;
    assert forall i :: 0 <= i < |head| ==> path[i] == head[i];
  }

  // ---------- directories

  /** `entry` identifies the directory entry. */
  datatype Node = Folder(entry: nat, name: string, children: seq<Node>) | FileNode(entry: nat, name: string)

  /** The folders among the children, in their order. */
  function Folders(children: seq<Node>): (r: seq<Node>)
    ensures forall c :: c in r <==> c in children && c.Folder?
  {
    if children == [] then []
    else
      var last := children[|children| - 1];
      Folders(children[..|children| - 1]) + if last.Folder? then [last] else []
  }

  function FoldersIn(d: Node): (r: seq<Node>)
    ensures forall c :: c in r ==> c.Folder?
  {
    if d.Folder? then Folders(d.children) else []
  }

  /** The files among the children, in their order. */
  function Files(children: seq<Node>): (r: seq<Node>)
    ensures forall c :: c in r <==> c in children && c.FileNode?
  {
    if children == [] then []
    else
      var last := children[|children| - 1];
      Files(children[..|children| - 1]) + if last.FileNode? then [last] else []
  }

  function FilesIn(d: Node): (r: seq<Node>) {
    if d.Folder? then Files(d.children) else []
  }

  /** Every child is a folder or a file, and each list has its own as often as they occur. */
  lemma {:induction false} AllChildren(children: seq<Node>)
    ensures multiset(Folders(children)) + multiset(Files(children)) == multiset(children)
  {
    if children != [] {
      var front, last := children[..|children| - 1], children[|children| - 1];
      AllChildren(front);
      assert children == front + [last];
    }
  }

  lemma OneMoreChild(children: seq<Node>, i: nat)
    requires i < |children|
    ensures children[i].Folder? ==> Folders(children[..i + 1]) == Folders(children[..i]) + [children[i]]
    ensures !children[i].Folder? ==> Folders(children[..i + 1]) == Folders(children[..i])
    ensures children[i].FileNode? ==> Files(children[..i + 1]) == Files(children[..i]) + [children[i]]
    ensures !children[i].FileNode? ==> Files(children[..i + 1]) == Files(children[..i])
  {
    assert children[..i + 1][..i] == children[..i];
  }

  /** The folders of a directory at all depths, itself included. */
  function Size(d: Node): (r: nat) {
    if d.FileNode? then 0 else 1 + SizeOfAll(d.children)
  }

  function SizeOfAll(children: seq<Node>): (r: nat) {
    if children == [] then 0 else Size(children[0]) + SizeOfAll(children[1..])
  }

  lemma {:induction false} SizeOfChild(children: seq<Node>, i: nat)
    requires i < |children|
    ensures Size(children[i]) <= SizeOfAll(children)
  {
    if i > 0 {
      SizeOfChild(children[1..], i - 1);
    }
  }

  lemma SizeOfFolder(d: Node, c: Node)
    requires c in FoldersIn(d)
    ensures Size(c) < Size(d)
  {
    var i :| 0 <= i < |d.children| && d.children[i] == c;
    SizeOfChild(d.children, i);
  }

  /** The first of the nodes with this name. */
  function First(nodes: seq<Node>, name: string): (r: Option<Node>)
    ensures r.Some? ==> r.value in nodes && r.value.name == name
    ensures r.None? ==> forall c :: c in nodes ==> c.name != name
  {
    if nodes == [] then None
    else if nodes[0].name == name then Some(nodes[0])
    else First(nodes[1..], name)
  }

  lemma {:induction false} FirstSnoc(nodes: seq<Node>, last: Node, name: string)
    ensures First(nodes + [last], name) ==
      if First(nodes, name).Some? then First(nodes, name) else if last.name == name then Some(last) else None
  {
    if nodes == [] {
      assert [last][1..] == [];
    } else {
      FirstSnoc(nodes[1..], last, name);
      assert (nodes + [last])[1..] == nodes[1..] + [last];
    }
  }

  // ---------- the order of names

  /** Names are compared unit by unit. */
  predicate NameLeq(a: string, b: string) {
    a == [] || (b != [] && (a[0] < b[0] || (a[0] == b[0] && NameLeq(a[1..], b[1..]))))
  }

  lemma {:induction false} NameOrder(a: string, b: string)
    ensures NameLeq(a, b) || NameLeq(b, a)
    ensures NameLeq(a, b) && NameLeq(b, a) ==> a == b
    ensures a == b ==> NameLeq(a, b)
  {
    if a != [] && b != [] {
      NameOrder(a[1..], b[1..]);
      assert a == [a[0]] + a[1..] && b == [b[0]] + b[1..];
    }
  }

  /** Alphabetical order: the first difference decides, and a beginning comes before what it begins. */
  lemma {:induction false} NameLeqDecided(a: string, b: string) returns (k: nat)
    ensures k <= |a| && k <= |b| && a[..k] == b[..k]
    ensures k < |a| && k < |b| ==> a[k] != b[k] && (NameLeq(a, b) <==> a[k] < b[k])
    ensures k == |a| ==> NameLeq(a, b)
    ensures k == |b| < |a| ==> !NameLeq(a, b)
  {
    k := 0;
    if a != [] && b != [] && a[0] == b[0] {
      k := NameLeqDecided(a[1..], b[1..]);
      k := k + 1;
      assert a[..k] == [a[0]] + a[1..][..k - 1] && b[..k] == [b[0]] + b[1..][..k - 1];
    }
  }

  lemma {:induction false} NameLeqTransitive(a: string, b: string, c: string)
    requires NameLeq(a, b) && NameLeq(b, c)
    ensures NameLeq(a, c)
  {
    if a != [] && a[0] == b[0] == c[0] {
      NameLeqTransitive(a[1..], b[1..], c[1..]);
    }
  }

  predicate Sorted(nodes: seq<Node>) {
    forall i, j :: 0 <= i < j < |nodes| ==> NameLeq(nodes[i].name, nodes[j].name)
  }

  /** What sorting by name may make of the nodes: it leaves the order of equal names open. */
  predicate Arrangement(sorted: seq<Node>, nodes: seq<Node>) {
    multiset(sorted) == multiset(nodes) && Sorted(sorted)
  }

  /** Puts a node in front of the first that is not smaller. */
  function Insert(x: Node, sorted: seq<Node>): (r: seq<Node>)
    ensures multiset(r) == multiset(sorted) + multiset{x}
  {
    if sorted == [] || NameLeq(x.name, sorted[0].name) then [x] + sorted
    else
      assert sorted == [sorted[0]] + sorted[1..];
      [sorted[0]] + Insert(x, sorted[1..])
  }

  lemma {:induction false} InsertKeepsSorted(x: Node, sorted: seq<Node>)
    requires Sorted(sorted)
    ensures Sorted(Insert(x, sorted))
    ensures First(Insert(x, sorted), x.name) == Some(x)
  {
    var r := Insert(x, sorted);
    if sorted == [] || NameLeq(x.name, sorted[0].name) {
      forall j | 0 < j < |r|
        ensures NameLeq(x.name, r[j].name)
      {
        if j > 1 {
          NameLeqTransitive(x.name, sorted[0].name, sorted[j - 1].name);
        }
      }
    } else {
      InsertKeepsSorted(x, sorted[1..]);
      NameOrder(x.name, sorted[0].name);
      var rest := Insert(x, sorted[1..]);
      forall j | 0 <= j < |rest|
        ensures NameLeq(sorted[0].name, rest[j].name)
      {
        assert rest[j] in multiset(rest);
        assert rest[j] == x || rest[j] in sorted[1..];
      }
    }
  }

  function SortByName(nodes: seq<Node>): (r: seq<Node>)
    ensures multiset(r) == multiset(nodes)
  {
    if nodes == [] then []
    else
      assert nodes == [nodes[0]] + nodes[1..];
      Insert(nodes[0], SortByName(nodes[1..]))
  }

  lemma {:induction false} SortByNameSorted(nodes: seq<Node>)
    ensures Arrangement(SortByName(nodes), nodes)
  {
    if nodes != [] {
      SortByNameSorted(nodes[1..]);
      InsertKeepsSorted(nodes[0], SortByName(nodes[1..]));
    }
  }

  // ---------- when both views find the same

  /** Equal names belong to equal nodes. */
  predicate NamesUnique(nodes: seq<Node>) {
    forall c, d :: c in nodes && d in nodes && c.name == d.name ==> c == d
  }

  /** Looking a name up in the sorted nodes finds what the first of them in
      directory order is, whatever order equal names were given. */
  ghost predicate SortingHarmless(nodes: seq<Node>) {
    forall sorted, name :: Arrangement(sorted, nodes) ==> First(sorted, name) == First(nodes, name)
  }

  lemma UniqueFound(sorted: seq<Node>, nodes: seq<Node>, name: string)
    requires multiset(sorted) == multiset(nodes) && NamesUnique(nodes)
    ensures First(sorted, name) == First(nodes, name)
  {
    assert forall c :: c in sorted <==> c in multiset(sorted);
    assert forall c :: c in nodes <==> c in multiset(nodes);
  }

  /** Of two nodes with the same name either may come first after sorting. */
  lemma FrontArrangement(nodes: seq<Node>, y: Node) returns (sorted: seq<Node>)
    requires y in nodes
    ensures Arrangement(sorted, nodes) && First(sorted, y.name) == Some(y)
  {
    var i :| 0 <= i < |nodes| && nodes[i] == y;
    var rest := nodes[..i] + nodes[i + 1..];
    assert nodes == nodes[..i] + [y] + nodes[i + 1..];
    SortByNameSorted(rest);
    sorted := Insert(y, SortByName(rest));
    InsertKeepsSorted(y, SortByName(rest));
  }

  /** Sorting is harmless exactly when no two different nodes share a name. */
  lemma HarmlessIffUnique(nodes: seq<Node>)
    ensures SortingHarmless(nodes) <==> NamesUnique(nodes)
  {
    hide Arrangement;
    forall sorted, name | Arrangement(sorted, nodes) && NamesUnique(nodes)
      ensures First(sorted, name) == First(nodes, name)
    {
      assert multiset(sorted) == multiset(nodes) by {
        Rearranged(sorted, nodes);
      }
      UniqueFound(sorted, nodes, name);
    }
    if !NamesUnique(nodes) {
      var c, d :| c in nodes && d in nodes && c.name == d.name && c != d;
      var y := if First(nodes, c.name) == Some(c) then d else c;
      var sorted := FrontArrangement(nodes, y);
      assert First(sorted, y.name) != First(nodes, y.name);
    }
  }

  /** Two folders of one name: sorting may put the second first, and the lookup then finds another folder. */
  lemma TwoOfOneName(a: Node, b: Node)
    requires a.Folder? && b.Folder? && a.name == b.name && a != b
    ensures Arrangement([b, a], [a, b]) && First([b, a], a.name) == Some(b) && First([a, b], a.name) == Some(a)
  {
    NameOrder(a.name, b.name);
    assert [b, a] == [b] + [a] && [a, b] == [a] + [b];
  }

  lemma Rearranged(sorted: seq<Node>, nodes: seq<Node>)
    requires Arrangement(sorted, nodes)
    ensures multiset(sorted) == multiset(nodes)
  {
  }

  /** No two different folders of one directory, at any depth, share a name. */
  predicate UniqueBelow(d: Node) {
    d.Folder? ==> NamesUnique(Folders(d.children)) && forall i :: 0 <= i < |d.children| ==> UniqueBelow(d.children[i])
  }

  lemma UniqueChild(d: Node, c: Node)
    requires UniqueBelow(d) && c in FoldersIn(d)
    ensures UniqueBelow(c)
  {
    var i :| 0 <= i < |d.children| && d.children[i] == c;
  }

  /** The folder that a path below `d` leads to. */
  function ResolveNode(d: Node, path: string): (r: Option<Node>)
    ensures r.Some? ==> r.value.Folder?
    decreases |path|
  {
    var k := FirstSeparator(path);
    var child := First(FoldersIn(d), path[..k]);
    if k == |path| then (if path == "" then None else child)
    else if child.None? then None
    else ResolveNode(child.value, path[k + 1..])
  }

  /** A full path begins with the root's name, whatever it is. */
  function ResolveFullNode(d: Node, path: string): (r: Option<Node>) {
    var k := FirstSeparator(path);
    if k == |path| then (if path != "" then Some(d) else None) else ResolveNode(d, path[k + 1..])
  }

  /** One step along a path, whatever the name: the first folder of this name, and from there
      on the rest. Of a full path the first name is dropped. */
  lemma ResolveStep(d: Node, name: string, rest: string)
    requires Plain(name)
    ensures ResolveNode(d, name + ['\\'] + rest) ==
      match First(FoldersIn(d), name)
      case None => None
      case Some(c) => ResolveNode(c, rest)
    ensures ResolveNode(d, name) == if name == "" then None else First(FoldersIn(d), name)
    ensures ResolveFullNode(d, name + ['\\'] + rest) == ResolveNode(d, rest)
    ensures ResolveFullNode(d, name) == if name == "" then None else Some(d)
  {
    SeparatorAfter(name, rest);
    var path := name + [SEPARATOR] + rest;
    assert path[..|name|] == name && path[|name| + 1..] == rest && name[..|name|] == name;
  }
}
