/** Dealing a sequence of blocks out to `n` receivers in turn. */
module ZoomShares {
  import opened Arithmetic

  /** The blocks receiver `k` gets: number k, k + n, k + 2n, and so on. */
  function Share<T>(sent: seq<T>, n: nat, k: nat): (r: seq<T>)
    requires n > 0
    ensures |r| == Received(|sent|, n, k)
  {
    if sent == [] then []
    else
      var last := |sent| - 1;
      Share(sent[..last], n, k) + if last % n == k then [sent[last]] else []
  }

  function Received(t: nat, n: nat, k: nat): (r: nat)
    requires n > 0
  {
    if t == 0 then 0 else Received(t - 1, n, k) + if (t - 1) % n == k then 1 else 0
  }

  lemma ShareNext<T>(sent: seq<T>, n: nat, k: nat, next: T)
    requires n > 0
    ensures Share(sent + [next], n, k) == Share(sent, n, k) + if |sent| % n == k then [next] else []
  {
    assert (sent + [next])[..|sent|] == sent;
  }

  /** Item `i` of receiver `k`'s share is block `k + i * n`. */
  lemma {:induction false} ShareAt<T>(sent: seq<T>, n: nat, k: nat, i: nat)
    requires k < n && i < |Share(sent, n, k)|
    ensures k + i * n < |sent| && Share(sent, n, k)[i] == sent[k + i * n]
    decreases |sent|
  {
    var last := |sent| - 1;
    var front := sent[..last];
    if i < |Share(front, n, k)| {
      ShareAt(front, n, k, i);
    } else {
      ReceivedClosed(last, n, k);
      assert last == last / n * n + last % n;
    }
  }

  lemma {:induction false} ReceivedClosed(t: nat, n: nat, k: nat)
    requires k < n
    ensures Received(t, n, k) == t / n + if k < t % n then 1 else 0
  {
    if t == 0 {
      DivModUnique(0, 0, 0, n);
    } else {
      ReceivedClosed(t - 1, n, k);
      NextTurn(t - 1, n);
    }
  }

  lemma NextTurn(t: nat, n: nat)
    requires n > 0
    ensures t % n + 1 < n ==> (t + 1) / n == t / n && (t + 1) % n == t % n + 1
    ensures t % n + 1 >= n ==> (t + 1) / n == t / n + 1 && (t + 1) % n == 0 && t % n == n - 1
  {
    var q, r := t / n, t % n;
    assert t == q * n + r;
    if r + 1 < n {
      DivModUnique(t + 1, q, r + 1, n);
    } else {
      Distribute(q, 1, n);
      DivModUnique(t + 1, q + 1, 0, n);
    }
  }

  // ---------- sums

  function Sum(a: seq<nat>): (r: nat) {
    if a == [] then 0 else a[0] + Sum(a[1..])
  }

  lemma {:induction false} SumUpdate(a: seq<nat>, i: nat, v: nat)
    requires i < |a|
    ensures Sum(a[i := v]) + a[i] == Sum(a) + v
  {
    if i > 0 {
      assert a[i := v][1..] == a[1..][i - 1 := v];
      SumUpdate(a[1..], i - 1, v);
    }
  }

  lemma {:induction false} SumLess(a: seq<nat>, b: seq<nat>)
    requires |a| == |b| && forall i :: 0 <= i < |a| ==> a[i] <= b[i]
    ensures Sum(a) <= Sum(b)
    ensures a != b ==> Sum(a) < Sum(b)
  {
    if a != [] {
      SumLess(a[1..], b[1..]);
      assert a == [a[0]] + a[1..] && b == [b[0]] + b[1..];
    }
  }

  function AllReceived(t: nat, n: nat): (r: seq<nat>)
    requires n > 0
  {
    seq(n, k requires 0 <= k < n => Received(t, n, k))
  }

  lemma {:induction false} SumReceived(t: nat, n: nat)
    requires n > 0
    ensures Sum(AllReceived(t, n)) == t
  {
    if t == 0 {
      SumZero(AllReceived(0, n));
    } else {
      SumReceived(t - 1, n);
      var k, before := (t - 1) % n, AllReceived(t - 1, n);
      assert AllReceived(t, n) == before[k := before[k] + 1];
      SumUpdate(before, k, before[k] + 1);
    }
  }

  lemma {:induction false} SumZero(a: seq<nat>)
    requires forall i :: 0 <= i < |a| ==> a[i] == 0
    ensures Sum(a) == 0
  {
    if a != [] {
      SumZero(a[1..]);
    }
  }

  // ---------- demands that dealing in turn can meet

  /** The first receivers want one block more than the others, or all want equally many. */
  predicate Balanced(needs: seq<nat>) {
    forall i, j :: 0 <= i < j < |needs| ==> needs[j] <= needs[i] <= needs[j] + 1
  }

  /** Dealing in turn meets all demands at once exactly for balanced demands. */
  lemma MetExactlyWhenBalanced(needs: seq<nat>)
    requires needs != []
    ensures (exists t :: AllReceived(t, |needs|) == needs) <==> Balanced(needs)
  {
    var n := |needs|;
    if t: nat :| AllReceived(t, n) == needs {
      forall k | 0 <= k < n
        ensures needs[k] == t / n + if k < t % n then 1 else 0
      {
        assert AllReceived(t, n)[k] == needs[k];
        ReceivedClosed(t, n, k);
      }
    }
    if Balanced(needs) {
      var t := 0;
      while AllReceived(t, n) != needs
        invariant forall k :: 0 <= k < n ==> Received(t, n, k) <= needs[k]
        decreases Sum(needs) - t
      {
        SumReceived(t, n);
        SumLess(AllReceived(t, n), needs);
        NextWantsOne(needs, t);
        t := t + 1;
      }
    }
  }

  /** While some demand is open, the receiver whose turn it is has an open one. */
  lemma NextWantsOne(needs: seq<nat>, t: nat)
    requires Balanced(needs) && needs != []
    requires forall k :: 0 <= k < |needs| ==> Received(t, |needs|, k) <= needs[k]
    requires AllReceived(t, |needs|) != needs
    ensures t % |needs| < |needs| && Received(t, |needs|, t % |needs|) < needs[t % |needs|]
  {
    var n, k := |needs|, t % |needs|;
    var i :| 0 <= i < n && Received(t, n, i) != needs[i];
    ReceivedClosed(t, n, k);
    ReceivedClosed(t, n, i);
  }
}
