/** A file's clusters as a list of runs of consecutive numbers. */
module ClusterRuns {

  datatype ClusterEntry = ClusterEntry(number: nat, count: nat) {
    function Clusters(): (r: seq<nat>) {
      seq(count, i requires 0 <= i => number + i)
    }
  }

  function Expand(runs: seq<ClusterEntry>): (r: seq<nat>) {
    if runs == [] then [] else runs[0].Clusters() + Expand(runs[1..])
  }

  predicate NonEmptyRuns(runs: seq<ClusterEntry>) {
    forall i :: 0 <= i < |runs| ==> runs[i].count > 0
  }

  /** No run is empty and none continues the one before it. */
  predicate Canonical(runs: seq<ClusterEntry>) {
    && NonEmptyRuns(runs)
    && forall i :: 0 < i < |runs| ==> runs[i - 1].number + runs[i - 1].count != runs[i].number
  }

  lemma {:induction false} ExpandSnoc(runs: seq<ClusterEntry>, last: ClusterEntry)
    ensures Expand(runs + [last]) == Expand(runs) + last.Clusters()
  {
    if runs == [] {
      assert [last][1..] == [];
    } else {
      ExpandSnoc(runs[1..], last);
      assert (runs + [last])[1..] == runs[1..] + [last];
    }
  }

  lemma {:induction false} RunCount(runs: seq<ClusterEntry>)
    ensures Total(runs) == |Expand(runs)|
  {
    if runs != [] {
      RunCount(runs[1..]);
    }
  }

  function Total(runs: seq<ClusterEntry>): (r: nat) {
    if runs == [] then 0 else runs[0].count + Total(runs[1..])
  }

  /** The first run of a canonical list is at least as long as that of any
      list with the same expansion. */
  lemma FirstRunLongest(a: seq<ClusterEntry>, b: seq<ClusterEntry>)
    requires Canonical(a) && NonEmptyRuns(b) && Expand(a) == Expand(b) && b != []
    ensures a != [] && a[0].number == b[0].number && b[0].count <= a[0].count
  {
    var all := Expand(b);
    ExpandFirst(b);
    ExpandFirst(a);
    var n := a[0].count;
    if n < b[0].count {
      assert all[n] == b[0].Clusters()[n];
      assert a[1..] != [];
      ExpandFirst(a[1..]);
    }
  }

  lemma ExpandFirst(runs: seq<ClusterEntry>)
    requires NonEmptyRuns(runs) && runs != []
    ensures |Expand(runs)| >= runs[0].count && Expand(runs)[0] == runs[0].number
  {
  }

  /** A canonical run list is a shortest one: no list of non-empty runs with the same expansion has fewer runs. */
  lemma {:induction false} CanonicalShortest(a: seq<ClusterEntry>, b: seq<ClusterEntry>)
    requires Canonical(a) && NonEmptyRuns(b) && Expand(a) == Expand(b)
    ensures |a| <= |b|
    decreases |b|
  {
    if b == [] {
      NothingExpanded(a);
    } else {
      FirstRunLongest(a, b);
      var n := b[0].count;
      if n == a[0].count {
        DropFirst(a);
        DropFirst(b);
        CanonicalShortest(a[1..], b[1..]);
      } else {
        var rest := TrimFirst(a, n);
        DropFirst(b);
        CanonicalShortest(rest, b[1..]);
      }
    }
  }

  lemma NothingExpanded(runs: seq<ClusterEntry>)
    requires NonEmptyRuns(runs) && Expand(runs) == []
    ensures runs == []
  {
    RunCount(runs);
  }

  lemma TrimFirst(a: seq<ClusterEntry>, n: nat) returns (rest: seq<ClusterEntry>)
    requires Canonical(a) && a != [] && 0 < n < a[0].count
    ensures Canonical(rest) && |rest| == |a| && Expand(rest) == Expand(a)[n..]
  {
    rest := [ClusterEntry(a[0].number + n, a[0].count - n)] + a[1..];
    assert rest[1..] == a[1..];
    assert rest[0].Clusters() == a[0].Clusters()[n..];
  }

  lemma DropFirst(runs: seq<ClusterEntry>)
    requires runs != []
    ensures Expand(runs[1..]) == Expand(runs)[runs[0].count..]
  {
  }

  /** There is only one canonical run list with a given expansion. */
  lemma {:induction false} CanonicalUnique(a: seq<ClusterEntry>, b: seq<ClusterEntry>)
    requires Canonical(a) && Canonical(b) && Expand(a) == Expand(b)
    ensures a == b
    decreases |b|
  {
    if b == [] {
      NothingExpanded(a);
    } else {
      FirstRunLongest(a, b);
      FirstRunLongest(b, a);
      DropFirst(a);
      DropFirst(b);
      CanonicalUnique(a[1..], b[1..]);
      assert a == [a[0]] + a[1..] && b == [b[0]] + b[1..];
    }
  }

  /** The canonical run list of a sequence of clusters. */
  function Encode(clusters: seq<nat>): (r: seq<ClusterEntry>)
    ensures NonEmptyRuns(r) && (r == [] <==> clusters == [])
  {
    if clusters == [] then []
    else
      var n, c := |clusters| - 1, clusters[|clusters| - 1];
      var front := Encode(clusters[..n]);
      if front != [] && front[|front| - 1].number + front[|front| - 1].count == c
      then front[..|front| - 1] + [ClusterEntry(front[|front| - 1].number, front[|front| - 1].count + 1)]
      else front + [ClusterEntry(c, 1)]
  }

  /** Every sequence of clusters has a canonical run list. */
  lemma {:induction false} EncodeCanonical(clusters: seq<nat>)
    ensures Canonical(Encode(clusters)) && Expand(Encode(clusters)) == clusters
  {
    if clusters != [] {
      hide Expand, Canonical;
      var n, c := |clusters| - 1, clusters[|clusters| - 1];
      var front := Encode(clusters[..n]);
      EncodeCanonical(clusters[..n]);
      assert clusters == clusters[..n] + [c];
      if front != [] && front[|front| - 1].number + front[|front| - 1].count == c {
        LongerRun(front, c);
      } else {
        NewRun(front, c);
      }
    }
  }

  lemma NewRun(runs: seq<ClusterEntry>, c: nat)
    requires Canonical(runs) && (runs != [] ==> runs[|runs| - 1].number + runs[|runs| - 1].count != c)
    ensures Canonical(runs + [ClusterEntry(c, 1)]) && Expand(runs + [ClusterEntry(c, 1)]) == Expand(runs) + [c]
  {
    ExpandSnoc(runs, ClusterEntry(c, 1));
    assert ClusterEntry(c, 1).Clusters() == [c];
    hide Expand, Canonical;
    CanonicalSnoc(runs, ClusterEntry(c, 1));
  }

  lemma CanonicalSnoc(runs: seq<ClusterEntry>, next: ClusterEntry)
    requires Canonical(runs) && next.count > 0
    requires runs != [] ==> runs[|runs| - 1].number + runs[|runs| - 1].count != next.number
    ensures Canonical(runs + [next])
  {
    var more := runs + [next];
    forall i | 0 < i < |more|
      ensures more[i - 1].number + more[i - 1].count != more[i].number
    {
      assert i < |runs| ==> runs[i - 1] == more[i - 1] && runs[i] == more[i];
    }
  }

  lemma LongerRun(runs: seq<ClusterEntry>, c: nat)
    requires Canonical(runs) && runs != [] && runs[|runs| - 1].number + runs[|runs| - 1].count == c
    ensures var front, last := runs[..|runs| - 1], runs[|runs| - 1];
      var longer := front + [ClusterEntry(last.number, last.count + 1)];
      Canonical(longer) && Expand(longer) == Expand(runs) + [c]
  {
    var front, last := runs[..|runs| - 1], runs[|runs| - 1];
    var more := ClusterEntry(last.number, last.count + 1);
    assert runs == front + [last];
    ExpandSnoc(front, last);
    ExpandSnoc(front, more);
    assert more.Clusters() == last.Clusters() + [c];
    hide Expand;
    var longer := front + [more];
    forall i | 0 < i < |longer|
      ensures longer[i - 1].number + longer[i - 1].count != longer[i].number
    {
      assert runs[i - 1].number + runs[i - 1].count != runs[i].number;
    }
  }

  /** A canonical run list is the one of its expansion. */
  lemma CanonicalIsEncode(runs: seq<ClusterEntry>)
    requires Canonical(runs)
    ensures runs == Encode(Expand(runs))
  {
    EncodeCanonical(Expand(runs));
    CanonicalUnique(Encode(Expand(runs)), runs);
  }
}
