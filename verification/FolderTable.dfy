/** The checkable folder tree behind the table view: parent-linked nodes whose
    tri-state marks are pushed down and pulled up on every click. */
module FolderTable {

  datatype CheckState = Unchecked | PartiallyChecked | Checked

  predicate AllAre(states: seq<CheckState>, s: CheckState) {
    forall i :: 0 <= i < |states| ==> states[i] == s
  }

  /** The state all children share, or PartiallyChecked when they differ. */
  function CommonState(states: seq<CheckState>): (r: CheckState)
    requires states != []
    ensures AllAre(states, r) || r == PartiallyChecked
    ensures forall s :: AllAre(states, s) ==> r == s
  {
    if AllAre(states, states[0]) then states[0] else PartiallyChecked
  }

  function StateOr(states: seq<CheckState>, current: CheckState): (r: CheckState) {
    if states == [] then current else CommonState(states)
  }

  lemma OwnState(states: seq<CheckState>, s: CheckState)
    ensures StateOr(states, StateOr(states, s)) == StateOr(states, s)
  {
  }

  /** `getStateCheckState` */
  method GetStateCheckState(states: seq<CheckState>, current: CheckState) returns (r: CheckState)
    ensures r == StateOr(states, current)
    ensures states == [] ==> r == current
    ensures states != [] ==>
      (forall i :: 0 <= i < |states| ==> states[i] == r) ||
      (r == PartiallyChecked && exists i :: 0 <= i < |states| && states[i] != states[0])
  {
    r := current;
    if |states| > 0 {
      r := states[0];
      for i := 1 to |states|
        invariant forall j :: 0 <= j < i ==> states[j] == r
      {
        if r != states[i] {
          return PartiallyChecked;
        }
      }
    }
  }

  /** Combining the folders' state with the files' state is the same as taking all children at once. */
  lemma StateOfBoth(folders: seq<CheckState>, files: seq<CheckState>, current: CheckState)
    ensures StateOr(folders + files, current) ==
      if folders == [] then StateOr(files, current)
      else if files == [] || StateOr(files, current) == StateOr(folders, current) then StateOr(folders, current)
      else PartiallyChecked
  {
    var all := folders + files;
    assert forall i :: 0 <= i < |folders| ==> all[i] == folders[i];
    assert forall i :: 0 <= i < |files| ==> all[|folders| + i] == files[i];
    if folders == [] {
      assert all == files;
    } else if files == [] {
      assert all == folders;
    }
  }

  class TableIndex {
    var checked: CheckState
    var parent: TableIndex?
    var folders: seq<TableIndex>
    var files: seq<TableIndex>
    /** What the node shows of its directory entry. */
    const entry: nat
    const name: string
    const isFolder: bool

    constructor (checked: CheckState, entry: nat, name: string, isFolder: bool)
      ensures this.checked == checked && parent == null && folders == [] && files == []
      ensures this.entry == entry && this.name == name && this.isFolder == isFolder
    {
      this.checked, parent, folders, files := checked, null, [], [];
      this.entry, this.name, this.isFolder := entry, name, isFolder;
    }

    /** A node of the tree that is linked as `shape` says. */
    ghost predicate In(shape: Shape)
      reads shape.nodes`parent, shape.nodes`folders, shape.nodes`files
    {
      shape.Valid() && shape.Built() && this in shape.nodes
    }

    function Kids(): seq<TableIndex>
      reads this`folders, this`files
    {
      folders + files
    }

    method SetChecked(s: CheckState)
      modifies this`checked
      ensures checked == s
    {
      checked := s;
    }

    method CheckFiles(s: CheckState)
      modifies files`checked
      ensures forall m :: m in files ==> m.checked == s
    {
      for i := 0 to |files|
        invariant forall j :: 0 <= j < i ==> files[j].checked == s
      {
        files[i].SetChecked(s);
      }
    }

    /** Gives every node below this one the state `s` and touches no other. */
    method UpdateCheckChilds(s: CheckState, ghost shape: Shape)
      requires In(shape)
      modifies shape.nodes`checked
      ensures forall m :: m in shape.nodes ==>
        m.checked == if m != this && shape.Under(m, this) then s else old(m.checked)
      decreases shape.rank[this], 1
    {
      shape.Facts(this);
      shape.BelowAll(this);
      hide In, Shape.Valid, Shape.Under, Shape.UnderOneOf, Shape.Built, Shape.Marks, Shape.Pushed, Shape.Climbs, Shape.Linked;
      CheckFiles(s);
      CheckFolders(s, shape);
    }

    /** The loop over the folders. */
    method CheckFolders(s: CheckState, ghost shape: Shape)
      requires In(shape)
      modifies shape.nodes`checked
      ensures forall m :: m in shape.nodes ==> m.checked == if shape.UnderOneOf(m, folders) then s else old(m.checked)
      decreases shape.rank[this], 0
    {
      ghost var nodes := shape.nodes;
      shape.Facts(this);
      hide In, Shape.Valid, Shape.Under, Shape.UnderOneOf, Shape.Built, Shape.Marks, Shape.Pushed;
      NoTops(shape, folders);
      for i := 0 to |folders|
        invariant forall m :: m in nodes ==>
          m.checked == if shape.UnderOneOf(m, folders[..i]) then s else old(m.checked)
      {
        NodeIn(folders[i], shape);
        folders[i].CheckSubtree(s, shape);
        shape.OneMoreAboveAll(folders, i);
      }
      assert folders[..|folders|] == folders;
    }

    /** A node and everything below it, as every click and every level of the recursion does it. */
    method CheckSubtree(s: CheckState, ghost shape: Shape)
      requires In(shape)
      modifies shape.nodes`checked
      ensures forall m :: m in shape.nodes ==> m.checked == if shape.Under(m, this) then s else old(m.checked)
      ensures shape.Pushed(old(shape.Marks()), this, s, shape.Marks())
      decreases shape.rank[this], 2
    {
      UpdateCheckChilds(s, shape);
      SetChecked(s);
    }

    /** `checkFormChilds` */
    method CheckFromChilds(current: CheckState) returns (r: CheckState)
      ensures r == StateOr(States(Kids()), current)
      ensures Kids() == [] ==> r == current
      ensures Kids() != [] ==>
        (forall c :: c in Kids() ==> c.checked == r) ||
        (r == PartiallyChecked && exists c :: c in Kids() && c.checked != Kids()[0].checked)
    {
      KidsState(Kids(), current);
      var folderStates, fileStates := States(folders), States(files);
      StatesJoin(folders, files);
      StateOfBoth(folderStates, fileStates, current);
      hide StateOr, States;
      if |folders| == 0 {
        r := GetStateCheckState(fileStates, current);
      } else {
        r := GetStateCheckState(folderStates, current);
        if |files| != 0 {
          var fileState := GetStateCheckState(fileStates, current);
          if fileState != r {
            r := PartiallyChecked;
          }
        }
      }
    }

    /** Recomputes every node above this one from its children, nearest first. */
    method UpdateCheckParents(s: CheckState, ghost shape: Shape)
      requires In(shape)
      modifies shape.nodes`checked
      ensures shape.Marks() == shape.RepairUp(old(shape.Marks()), parent, s)
    {
      shape.Facts(this);
      RepairedNothing(shape, s);
      hide In, Shape.Valid, Shape.Built, Shape.Marks, Shape.Repair, Shape.RepairUp;
      var p := parent;
      while p != null
        invariant p != null ==> p in shape.nodes
        invariant shape.RepairUp(shape.Marks(), p, s) == shape.RepairUp(old(shape.Marks()), parent, s)
        decreases if p == null then 0 else shape.rank[shape.root] - shape.rank[p] + 1
      {
        NodeIn(p, shape);
        RepairedFirst(p, shape, s);
        p.RepairNode(s, shape);
        p := p.parent;
      }
    }

    lemma RepairedNothing(shape: Shape, s: CheckState)
      ensures forall marks :: shape.RepairUp(marks, null, s) == marks
    {
    }

    lemma RepairedFirst(p: TableIndex, shape: Shape, s: CheckState)
      requires In(shape) && p in shape.nodes
      ensures forall marks :: shape.RepairUp(marks, p, s) == shape.RepairUp(shape.Repair(marks, p, s), p.parent, s)
    {
      shape.Facts(p);
    }

    lemma NodeIn(p: TableIndex, shape: Shape)
      requires In(shape) && p in shape.nodes
      ensures p.In(shape) && p.parent == shape.parent[p]
      ensures p.parent != null ==> p.parent in shape.nodes && shape.rank[p] < shape.rank[p.parent] <= shape.rank[shape.root]
    {
      shape.Facts(p);
    }

    /** One step of the climb. */
    method RepairNode(s: CheckState, ghost shape: Shape)
      requires In(shape)
      modifies this`checked
      ensures shape.Marks() == shape.Repair(old(shape.Marks()), this, s)
    {
      shape.SameMarks(this);
      hide StateOr, States, StatesIn, Shape.Valid, Shape.Built, Shape.Children, Kids, Shape.Marks;
      var state := CheckFromChilds(s);
      SetMark(state, shape);
    }

    /** `setData` for a check mark: one click on this node. */
    method SetData(s: CheckState, ghost shape: Shape)
      requires In(shape)
      requires shape.AllConsistent(shape.Marks())
      modifies shape.nodes`checked
      ensures shape.AllConsistent(shape.Marks())
      ensures shape.Clicked(old(shape.Marks()), this, s, shape.Marks())
      ensures forall n :: n in shape.nodes && n.Kids() != [] ==>
        (forall c :: c in n.Kids() ==> c.checked == n.checked) ||
        (n.checked == PartiallyChecked && exists c :: c in n.Kids() && c.checked != n.Kids()[0].checked)
    {
      Mark(s, shape);
      hide Kids, Shape.Clicked, Shape.Linked;
      shape.MarksRight();
    }

    /** Its three steps: down, the node itself, up. */
    method Mark(s: CheckState, ghost shape: Shape)
      requires In(shape)
      requires shape.AllConsistent(shape.Marks())
      modifies shape.nodes`checked
      ensures shape.AllConsistent(shape.Marks())
      ensures shape.Clicked(old(shape.Marks()), this, s, shape.Marks())
    {
      ghost var before := shape.Marks();
      assert parent == shape.parent[this];
      hide In, Shape.Valid, Shape.Built, Shape.Marks, Shape.AllConsistent, Shape.RepairUp, Shape.Under, Shape.Clicked, Shape.Pushed;
      CheckSubtree(s, shape);
      ghost var pushed := shape.Marks();
      UpdateCheckParents(s, shape);
      shape.ClickEffect(before, this, s, pushed);
    }

    method SetMark(s: CheckState, ghost shape: Shape)
      requires this in shape.nodes
      modifies this`checked
      ensures shape.Marks() == old(shape.Marks())[this := s]
    {
      SetChecked(s);
    }
  }

  lemma {:induction false} StatesJoin(a: seq<TableIndex>, b: seq<TableIndex>)
    ensures States(a + b) == States(a) + States(b)
  {
    var l, r := States(a + b), States(a) + States(b);
    hide States;
    assert |l| == |r| && forall i :: 0 <= i < |r| ==> l[i] == (a + b)[i].checked == r[i];
  }

  /** The state of all children, told from the children. */
  lemma KidsState(kids: seq<TableIndex>, current: CheckState)
    ensures var r := StateOr(States(kids), current);
      if kids == [] then r == current
      else if forall c :: c in kids ==> c.checked == kids[0].checked then r == kids[0].checked
      else r == PartiallyChecked
  {
    if kids != [] {
      assert forall i :: 0 <= i < |kids| ==> kids[i] in kids && States(kids)[i] == kids[i].checked;
      if forall c :: c in kids ==> c.checked == kids[0].checked {
        assert AllAre(States(kids), kids[0].checked);
      } else {
        var c :| c in kids && c.checked != kids[0].checked;
        var i :| 0 <= i < |kids| && kids[i] == c;
        assert States(kids)[i] != States(kids)[0];
      }
    }
  }

  /** Any sequence of clicks keeps every mark right. A node shows what the last
      click on it or above it set, unless a later one was below it, and what it
      showed before if no click was on, above or below it. */
  method RunClicks(clicks: seq<(TableIndex, CheckState)>, ghost shape: Shape)
    requires shape.Valid() && shape.Built() && shape.AllConsistent(shape.Marks())
    requires forall i :: 0 <= i < |clicks| ==> clicks[i].0 in shape.nodes
    modifies shape.nodes`checked
    ensures shape.AllConsistent(shape.Marks())
    ensures shape.Ran(clicks, |clicks|, old(shape.Marks()), shape.Marks())
    ensures forall n :: n in shape.nodes && n.Kids() != [] ==>
      (forall c :: c in n.Kids() ==> c.checked == n.checked) ||
      (n.checked == PartiallyChecked && exists c :: c in n.Kids() && c.checked != n.Kids()[0].checked)
  {
    shape.NotRun(clicks);
    hide Shape.Valid, Shape.Marks, Shape.AllConsistent, Shape.Clicked, Shape.Ran;
    ghost var before := shape.Marks();
    for i := 0 to |clicks|
      invariant shape.AllConsistent(shape.Marks())
      invariant shape.Ran(clicks, i, before, shape.Marks())
    {
      ghost var marks := shape.Marks();
      clicks[i].0.SetData(clicks[i].1, shape);
      shape.RanNext(clicks, i, before, marks, shape.Marks());
    }
    hide TableIndex.Kids, Shape.Linked;
    shape.MarksRight();
  }

  lemma NoTops(shape: Shape, tops: seq<TableIndex>)
    ensures forall m :: m in shape.nodes ==> !shape.UnderOneOf(m, tops[..0])
  {
  }

  /** The links of a tree as a value: they stay while the marks change. */
  datatype Shape = Shape(root: TableIndex, nodes: set<TableIndex>, parent: map<TableIndex, TableIndex?>,
                         folders: map<TableIndex, seq<TableIndex>>, files: map<TableIndex, seq<TableIndex>>,
                         rank: map<TableIndex, nat>)
  {
    ghost predicate Linked(n: TableIndex)
      requires root in nodes && n in nodes
      requires parent.Keys == folders.Keys == files.Keys == rank.Keys == nodes
    {
      && rank[n] <= rank[root]
      && (if parent[n] == null then n == root
          else parent[n] in nodes && rank[n] < rank[parent[n]] && (n in folders[parent[n]] || n in files[parent[n]]))
      && (forall c :: c in folders[n] ==> c in nodes && parent[c] == n)
      && (forall c :: c in files[n] ==> c in nodes && parent[c] == n && folders[c] == [] && files[c] == [])
    }

    /** One tree, in which parent and child links agree, ranks grow towards the
        root, and files have no children. */
    ghost predicate Valid() {
      && root in nodes && parent.Keys == folders.Keys == files.Keys == rank.Keys == nodes
      && parent[root] == null
      && forall n :: n in nodes ==> Linked(n)
    }

    /** `m` has a parent, which ranks higher but not above the root. */
    ghost predicate Climbs(m: TableIndex) {
      && m in parent && parent[m] != null && m in rank && parent[m] in rank && root in rank
      && rank[m] < rank[parent[m]] <= rank[root]
    }

    /** `m` is `n` or lies below it. */
    ghost predicate Under(m: TableIndex, n: TableIndex)
      decreases if m in rank && root in rank then rank[root] as int - rank[m] as int else 0
    {
      m == n || (Climbs(m) && Under(parent[m], n))
    }

    ghost function Children(n: TableIndex): seq<TableIndex> {
      if n in folders && n in files then folders[n] + files[n] else []
    }

    /** The objects are linked as the value says. */
    ghost predicate Built()
      requires Valid()
      reads nodes`parent, nodes`folders, nodes`files
    {
      forall n :: n in nodes ==> n.parent == parent[n] && n.folders == folders[n] && n.files == files[n]
    }

    lemma Facts(n: TableIndex)
      requires Valid() && n in nodes
      ensures forall c :: c in folders[n] ==> c in nodes && parent[c] == n && rank[c] < rank[n]
      ensures forall c :: c in files[n] ==> c in nodes && parent[c] == n && folders[c] == [] && files[c] == []
      ensures parent[n] == null <==> n == root
      ensures parent[n] != null ==> parent[n] in nodes && rank[n] < rank[parent[n]] <= rank[root]
      ensures parent[n] != null ==> n in folders[parent[n]] || n in files[parent[n]]
      ensures Climbs(n) <==> parent[n] != null
    {
      assert Linked(n);
      forall c | c in folders[n] ensures rank[c] < rank[n] {
        assert Linked(c);
      }
      assert parent[n] != null ==> Linked(parent[n]);
    }

    lemma {:induction false} UnderTransitive(a: TableIndex, b: TableIndex, c: TableIndex)
      requires Valid() && a in nodes && b in nodes && Under(a, b) && Under(b, c)
      ensures Under(a, c)
      decreases rank[root] - rank[a]
    {
      if a != b {
        Facts(a);
        UnderTransitive(parent[a], b, c);
      }
    }

    lemma {:induction false} UnderRank(m: TableIndex, n: TableIndex)
      requires Valid() && m in nodes && Under(m, n)
      ensures n in nodes && (m != n ==> rank[m] < rank[n])
      decreases rank[root] - rank[m]
    {
      Facts(m);
      if m != n {
        UnderRank(parent[m], n);
      }
    }

    /** A node below `n` is, or lies below, one of the children of `n`. */
    lemma {:induction false} ChildAbove(m: TableIndex, n: TableIndex) returns (c: TableIndex)
      requires Valid() && m in nodes && n in nodes && Under(m, n) && m != n
      ensures c in nodes && (c in folders[n] || c in files[n]) && Under(m, c)
      decreases rank[root] - rank[m]
    {
      Facts(m);
      if parent[m] == n {
        c := m;
      } else {
        c := ChildAbove(parent[m], n);
      }
    }

    ghost predicate UnderOneOf(m: TableIndex, tops: seq<TableIndex>) {
      exists c :: c in tops && Under(m, c)
    }

    /** Strictly below a node means: one of its files, or in the subtree of one of its folders. */
    lemma BelowChildren(m: TableIndex, n: TableIndex)
      requires Valid() && m in nodes && n in nodes
      ensures m != n && Under(m, n) <==> m in files[n] || UnderOneOf(m, folders[n])
    {
      Facts(n);
      assert Under(n, n);
      if m != n && Under(m, n) {
        var c := ChildAbove(m, n);
        if c in files[n] && m != c {
          var _ := ChildAbove(m, c);
        }
      }
      if m in files[n] {
        Facts(m);
      }
      if c :| c in folders[n] && Under(m, c) {
        assert Under(c, n);
        UnderTransitive(m, c, n);
        UnderRank(m, c);
      }
    }

    lemma BelowAll(n: TableIndex)
      requires Valid() && n in nodes
      ensures forall m :: m in nodes ==> (m != n && Under(m, n) <==> m in files[n] || UnderOneOf(m, folders[n]))
    {
      hide Under, UnderOneOf;
      forall m | m in nodes
        ensures m != n && Under(m, n) <==> m in files[n] || UnderOneOf(m, folders[n])
      {
        BelowChildren(m, n);
      }
    }

    lemma OneMoreAboveAll(tops: seq<TableIndex>, i: nat)
      requires i < |tops|
      ensures forall m :: m in nodes ==> (UnderOneOf(m, tops[..i + 1]) <==> UnderOneOf(m, tops[..i]) || Under(m, tops[i]))
    {
      hide Under, UnderOneOf;
      forall m | m in nodes
        ensures UnderOneOf(m, tops[..i + 1]) <==> UnderOneOf(m, tops[..i]) || Under(m, tops[i])
      {
        OneMoreAbove(m, tops, i);
      }
    }

    lemma OneMoreAbove(m: TableIndex, tops: seq<TableIndex>, i: nat)
      requires i < |tops|
      ensures UnderOneOf(m, tops[..i + 1]) <==> UnderOneOf(m, tops[..i]) || Under(m, tops[i])
      ensures Under(m, m)
    {
      assert Under(m, m);
      hide Under;
      assert tops[..i + 1] == tops[..i] + [tops[i]];
      if UnderOneOf(m, tops[..i + 1]) {
        var c :| c in tops[..i + 1] && Under(m, c);
      } else {
        assert tops[i] in tops[..i + 1];
        assert forall c :: c in tops[..i] ==> c in tops[..i + 1];
      }
    }

    lemma SameMarks(n: TableIndex)
      requires Valid() && Built() && n in nodes
      ensures n.parent == parent[n]
      ensures States(n.Kids()) == StatesIn(Marks(), Children(n))
    {
      Facts(n);
      hide Valid, States;
    }

    lemma NotChildOf(p: TableIndex, n: TableIndex)
      requires Valid() && p in nodes && n in nodes && (n == p || parent[p] != n)
      ensures p !in Children(n)
    {
      Facts(p);
      Facts(n);
    }

    /** The marks of all nodes. */
    ghost function Marks(): (r: map<TableIndex, CheckState>)
      reads nodes`checked
      ensures r.Keys == nodes && forall n :: n in nodes ==> r[n] == n.checked
    {
      map n | n in nodes :: n.checked
    }

    /** A node with children shows their common state, or PartiallyChecked. */
    ghost predicate Consistent(marks: map<TableIndex, CheckState>, n: TableIndex) {
      MarkOf(marks, n) == StateOr(StatesIn(marks, Children(n)), MarkOf(marks, n))
    }

    /** Right marks, told from the objects: a node with children shows what all
        of them show, or PartiallyChecked over children that differ. */
    lemma MarksRight()
      requires Valid() && Built()
      ensures AllConsistent(Marks()) <==>
        forall n :: n in nodes && n.Kids() != [] ==>
          (forall c :: c in n.Kids() ==> c.checked == n.checked) ||
          (n.checked == PartiallyChecked && exists c :: c in n.Kids() && c.checked != n.Kids()[0].checked)
    {
      hide StateOr, States, StatesIn, Linked, Children;
      forall n | n in nodes
        ensures Consistent(Marks(), n) <==>
          (n.Kids() != [] ==>
            (forall c :: c in n.Kids() ==> c.checked == n.checked) ||
            (n.checked == PartiallyChecked && exists c :: c in n.Kids() && c.checked != n.Kids()[0].checked))
      {
        SameMarks(n);
        KidsState(n.Kids(), n.checked);
        assert n.Kids() != [] ==> n.Kids()[0] in n.Kids();
      }
    }

    /** A click on `n` can concern `m`. */
    ghost predicate Related(m: TableIndex, n: TableIndex) {
      Under(m, n) || Under(n, m)
    }

    ghost predicate NoneRelated(clicks: seq<(TableIndex, CheckState)>, from: nat, to: nat, m: TableIndex)
      requires to <= |clicks|
    {
      forall j :: from <= j < to ==> !Related(m, clicks[j].0)
    }

    /** The marks after the first `i` clicks. */
    ghost predicate Ran(clicks: seq<(TableIndex, CheckState)>, i: nat, before: map<TableIndex, CheckState>,
                        marks: map<TableIndex, CheckState>) {
      && i <= |clicks|
      && (forall m, k :: m in nodes && 0 <= k < i && Under(m, clicks[k].0) && NoneRelated(clicks, k + 1, i, m) ==>
          MarkOf(marks, m) == clicks[k].1)
      && (forall m :: m in nodes && NoneRelated(clicks, 0, i, m) ==> MarkOf(marks, m) == MarkOf(before, m))
    }

    lemma NotRun(clicks: seq<(TableIndex, CheckState)>)
      ensures Ran(clicks, 0, Marks(), Marks())
    {
    }

    lemma RanNext(clicks: seq<(TableIndex, CheckState)>, i: nat, before: map<TableIndex, CheckState>,
                  marks: map<TableIndex, CheckState>, after: map<TableIndex, CheckState>)
      requires i < |clicks| && Ran(clicks, i, before, marks) && Clicked(marks, clicks[i].0, clicks[i].1, after)
      ensures Ran(clicks, i + 1, before, after)
    {
      hide Under;
      forall m, k | 0 <= k <= i && NoneRelated(clicks, k, i + 1, m)
        ensures NoneRelated(clicks, k, i, m) && !Related(m, clicks[i].0)
      {
      }
    }

    lemma ClickedMarks(marks: map<TableIndex, CheckState>, n: TableIndex, s: CheckState)
      requires Clicked(marks, n, s, Marks())
      ensures forall m :: m in nodes && Under(m, n) ==> m.checked == s
      ensures forall m :: m in nodes && !Under(m, n) && !Under(n, m) ==> m.checked == MarkOf(marks, m)
    {
      hide Under;
    }

    ghost predicate AllConsistent(marks: map<TableIndex, CheckState>) {
      forall n :: n in nodes ==> Consistent(marks, n)
    }

    /** Only `p` and the nodes above it may show a wrong mark. */
    ghost predicate WrongOnlyFrom(marks: map<TableIndex, CheckState>, p: TableIndex?) {
      forall n :: n in nodes ==> Consistent(marks, n) || (p != null && Under(p, n))
    }

    /** Setting `p` to its children's common state repairs it and can disturb only its parent. */
    lemma RepairMark(marks: map<TableIndex, CheckState>, p: TableIndex, s: CheckState, n: TableIndex)
      requires Valid() && p in nodes && n in nodes
      requires s == StateOr(StatesIn(marks, Children(p)), s)
      requires n == p || (n != parent[p] && Consistent(marks, n))
      ensures Consistent(marks[p := s], n)
    {
      NotChildOf(p, n);
      hide StateOr, StatesIn, Children, Valid;
      SameStates(marks, marks[p := s], Children(n));
    }

    lemma RepairMarks(marks: map<TableIndex, CheckState>, p: TableIndex, s: CheckState)
      requires Valid() && p in nodes && WrongOnlyFrom(marks, p)
      ensures WrongOnlyFrom(Repair(marks, p, s), parent[p])
    {
      ParentsAbove(p);
      OwnState(StatesIn(marks, Children(p)), s);
      hide StateOr, StatesIn, Valid, Under, Consistent, Climbs;
      forall n | n in nodes
        ensures Consistent(Repair(marks, p, s), n) || (parent[p] != null && Under(parent[p], n))
      {
        if n == p || (n != parent[p] && Consistent(marks, n)) {
          RepairMark(marks, p, StateOr(StatesIn(marks, Children(p)), s), n);
        }
      }
    }

    /** `p` takes the common state of its children. */
    ghost function Repair(marks: map<TableIndex, CheckState>, p: TableIndex, s: CheckState): map<TableIndex, CheckState> {
      marks[p := StateOr(StatesIn(marks, Children(p)), s)]
    }

    /** `p` and everything above it repaired, nearest first. */
    ghost function RepairUp(marks: map<TableIndex, CheckState>, p: TableIndex?, s: CheckState): map<TableIndex, CheckState>
      decreases if p != null && p in rank && root in rank then rank[root] as int - rank[p] as int else 0
    {
      if p == null then marks
      else if Climbs(p) then RepairUp(Repair(marks, p, s), parent[p], s)
      else Repair(marks, p, s)
    }

    /** Repairing upwards from the lowest wrong mark makes the whole tree right. */
    lemma {:induction false} RepairedUp(marks: map<TableIndex, CheckState>, p: TableIndex?, s: CheckState)
      requires Valid() && (p != null ==> p in nodes) && WrongOnlyFrom(marks, p)
      ensures AllConsistent(RepairUp(marks, p, s))
      decreases if p == null then 0 else rank[root] as int - rank[p] as int + 1
    {
      hide StateOr, StatesIn, Repair, Consistent;
      if p != null {
        Facts(p);
        RepairMarks(marks, p, s);
        hide WrongOnlyFrom, Valid, AllConsistent;
        RepairedUp(Repair(marks, p, s), parent[p], s);
      }
    }

    /** It touches only `p` and what is above it. */
    lemma {:induction false} UntouchedBelow(marks: map<TableIndex, CheckState>, p: TableIndex?, s: CheckState, m: TableIndex)
      requires Valid() && (p != null ==> p in nodes && !Under(p, m))
      ensures MarkOf(RepairUp(marks, p, s), m) == MarkOf(marks, m)
      decreases if p == null then 0 else rank[root] as int - rank[p] as int + 1
    {
      hide StateOr, StatesIn, Children;
      if p != null {
        Facts(p);
        hide Valid;
        UntouchedBelow(Repair(marks, p, s), parent[p], s, m);
      }
    }

    /** `pushed` is `marks` with the whole subtree of `n` set to `s`. */
    ghost predicate Pushed(marks: map<TableIndex, CheckState>, n: TableIndex, s: CheckState, pushed: map<TableIndex, CheckState>) {
      forall m :: m in nodes ==> MarkOf(pushed, m) == if Under(m, n) then s else MarkOf(marks, m)
    }

    /** A click gives the whole subtree the new state and leaves every node
        that is neither in it nor above it as it was. */
    ghost predicate Clicked(marks: map<TableIndex, CheckState>, n: TableIndex, s: CheckState, after: map<TableIndex, CheckState>) {
      forall m :: m in nodes ==>
        (Under(m, n) ==> MarkOf(after, m) == s) &&
        (!Under(m, n) && !Under(n, m) ==> MarkOf(after, m) == MarkOf(marks, m))
    }

    lemma ChildUnder(c: TableIndex, x: TableIndex, n: TableIndex)
      requires Valid() && x in nodes && c in Children(x)
      ensures c in nodes && parent[c] == x && Under(c, x)
      ensures Under(c, n) <==> c == n || Under(x, n)
    {
      Facts(x);
      Facts(c);
      assert Under(x, x);
    }

    lemma AllTheSame(marks: map<TableIndex, CheckState>, children: seq<TableIndex>, s: CheckState)
      requires forall c :: c in children ==> MarkOf(marks, c) == s
      ensures StateOr(StatesIn(marks, children), s) == s
    {
      assert forall i :: 0 <= i < |children| ==> children[i] in children;
      assert AllAre(StatesIn(marks, children), s);
    }

    /** Pushing a state down can make only the nodes above wrong. */
    lemma PushedWrongAbove(marks: map<TableIndex, CheckState>, n: TableIndex, s: CheckState, pushed: map<TableIndex, CheckState>)
      requires Valid() && n in nodes && AllConsistent(marks) && Pushed(marks, n, s, pushed)
      ensures WrongOnlyFrom(pushed, parent[n])
    {
      ParentsAbove(n);
      forall x | x in nodes
        ensures Consistent(pushed, x) || (parent[n] != null && Under(parent[n], x))
      {
        forall c | c in Children(x)
          ensures c in nodes && parent[c] == x && (Under(c, n) <==> c == n || Under(x, n))
        {
          ChildUnder(c, x, n);
        }
        hide Valid, StateOr, StatesIn, Children, Climbs, Under;
        if Under(x, n) {
          AllTheSame(pushed, Children(x), s);
        } else if n !in Children(x) {
          SameStates(marks, pushed, Children(x));
        } else {
          assert parent[n] == x && Under(x, x);
        }
      }
    }

    lemma ClickEffect(marks: map<TableIndex, CheckState>, n: TableIndex, s: CheckState, pushed: map<TableIndex, CheckState>)
      requires Valid() && n in nodes && AllConsistent(marks) && Pushed(marks, n, s, pushed)
      ensures AllConsistent(RepairUp(pushed, parent[n], s))
      ensures Clicked(marks, n, s, RepairUp(pushed, parent[n], s))
    {
      Facts(n);
      PushedWrongAbove(marks, n, s, pushed);
      RepairedUp(pushed, parent[n], s);
      forall m | m in nodes && (Under(m, n) || !Under(n, m))
        ensures MarkOf(RepairUp(pushed, parent[n], s), m) == MarkOf(pushed, m)
      {
        NotAboveParent(n, m);
        UntouchedBelow(pushed, parent[n], s, m);
      }
    }

    lemma NotAboveParent(n: TableIndex, m: TableIndex)
      requires Valid() && n in nodes && m in nodes && (Under(m, n) || !Under(n, m))
      ensures parent[n] != null ==> parent[n] in nodes && !Under(parent[n], m)
    {
      Facts(n);
      ParentsAbove(n);
      if parent[n] != null && Under(parent[n], m) {
        UnderTransitive(n, parent[n], m);
        UnderRank(parent[n], m);
        UnderRank(m, n);
      }
    }

    /** A tree in which every node has the same mark is right. */
    lemma UniformConsistent(marks: map<TableIndex, CheckState>, s: CheckState)
      requires Valid() && forall n :: n in nodes ==> MarkOf(marks, n) == s
      ensures AllConsistent(marks)
    {
      forall n | n in nodes
        ensures Consistent(marks, n)
      {
        Facts(n);
        AllTheSame(marks, Children(n), s);
      }
    }

    /** Everything above `n` but `n` itself is its parent or above that. */
    lemma ParentsAbove(n: TableIndex)
      requires Valid() && n in nodes
      ensures forall a :: a != n && Under(n, a) ==> parent[n] != null && parent[n] in nodes && Under(parent[n], a)
      ensures parent[n] != null ==> parent[n] in nodes && parent[n] != n && Under(n, parent[n]) && Under(parent[n], parent[n])
    {
      Facts(n);
      assert parent[n] != null ==> Under(parent[n], parent[n]);
    }
  }

  ghost function MarkOf(marks: map<TableIndex, CheckState>, n: TableIndex): CheckState {
    if n in marks then marks[n] else Unchecked
  }

  ghost function StatesIn(marks: map<TableIndex, CheckState>, children: seq<TableIndex>): (r: seq<CheckState>)
    ensures |r| == |children| && forall i :: 0 <= i < |r| ==> r[i] == MarkOf(marks, children[i])
  {
    if children == [] then [] else [MarkOf(marks, children[0])] + StatesIn(marks, children[1..])
  }

  lemma SameStates(marks: map<TableIndex, CheckState>, marks': map<TableIndex, CheckState>, children: seq<TableIndex>)
    requires forall c :: c in children ==> MarkOf(marks, c) == MarkOf(marks', c)
    ensures StatesIn(marks, children) == StatesIn(marks', children)
  {
    assert forall i :: 0 <= i < |children| ==> children[i] in children;
  }

  function States(children: seq<TableIndex>): (r: seq<CheckState>)
    reads children`checked
    ensures |r| == |children| && forall i :: 0 <= i < |r| ==> r[i] == children[i].checked
  {
    if children == [] then [] else [children[0].checked] + States(children[1..])
  }
}
