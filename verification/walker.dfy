/**
 The path-diff walk of `TaxonWalker.walkAll`. The taxonomic traversal hands the walker one
 root-to-node path after another; the walker compares each path with the one before it and
 reports the nodes that leave (end events, deepest first) and the nodes that enter (start events,
 shallowest first). A path is a sequence of node ids; the traversal itself is an input.
 */
module Walker {
  import opened Wrappers

  datatype Event<N> = Start(node: N) | End(node: N)

  /** Length of the longest position-wise equal prefix of `a` and `b`: the peeking loop that advances
      both node iterators while their next nodes are equal. */
  function SharedPrefix<N(==)>(a: seq<N>, b: seq<N>): (k: nat)
    ensures k <= |a| && k <= |b|
    ensures a[..k] == b[..k]
    ensures k < |a| && k < |b| ==> a[k] != b[k]
  {
    if |a| == 0 || |b| == 0 || a[0] != b[0] then 0
    else
      var k := 1 + SharedPrefix(a[1..], b[1..]);
      assert a[..k] == [a[0]] + a[1..][..k - 1];
      assert b[..k] == [b[0]] + b[1..][..k - 1];
      k
  }

  /** Start events for the nodes of `s`, in order. */
  function Starts<N>(s: seq<N>): (es: seq<Event<N>>)
    ensures |es| == |s|
    ensures forall i :: 0 <= i < |s| ==> es[i] == Start(s[i])
  {
    if |s| == 0 then [] else [Start(s[0])] + Starts(s[1..])
  }

  /** End events for the nodes of `s`, last node first. */
  function Ends<N>(s: seq<N>): (es: seq<Event<N>>)
    ensures |es| == |s|
    ensures forall i :: 0 <= i < |s| ==> es[i] == End(s[|s| - 1 - i])
  {
    if |s| == 0 then [] else [End(s[|s| - 1])] + Ends(s[..|s| - 1])
  }

  /** The events of one loop iteration, given the previous path (`None` before the first one):
      the old nodes past the shared prefix end, then the new ones past it start. */
  function Step<N(==)>(last: Option<seq<N>>, p: seq<N>): (es: seq<Event<N>>)
    ensures |es| == if last.None? then |p| else |last.value| + |p| - 2 * SharedPrefix(last.value, p)
  {
    match last
    case None => Starts(p)
    case Some(l) =>
      var k := SharedPrefix(l, p);
      Ends(l[k..]) + Starts(p[k..])
  }

  /** The first path: every node starts, root first, and nothing ends. */
  lemma StepFirst<N>(p: seq<N>)
    ensures |Step(None, p)| == |p|
    ensures forall i :: 0 <= i < |p| ==> Step(None, p)[i] == Start(p[i])
  {
  }

  /** A later path: the nodes past the shared prefix of the previous path end, deepest first, and
      only then the nodes past the shared prefix of the current path start, shallowest first. */
  lemma StepLater<N>(l: seq<N>, p: seq<N>)
    ensures var es, k := Step(Some(l), p), SharedPrefix(l, p);
            && |es| == (|l| - k) + (|p| - k)
            && (forall i :: 0 <= i < |l| - k ==> es[i] == End(l[|l| - 1 - i]))
            && (forall i :: k <= i < |p| ==> es[|l| - 2 * k + i] == Start(p[i]))
  {
    EndsThenStarts(l, p, SharedPrefix(l, p));
  }

  /** The old suffix's end events followed by the new suffix's start events, by position. */
  lemma EndsThenStarts<N>(l: seq<N>, p: seq<N>, k: nat)
    requires k <= |l| && k <= |p|
    ensures var es := Ends(l[k..]) + Starts(p[k..]);
            && |es| == (|l| - k) + (|p| - k)
            && (forall i :: 0 <= i < |l| - k ==> es[i] == End(l[|l| - 1 - i]))
            && (forall i :: k <= i < |p| ==> es[|l| - 2 * k + i] == Start(p[i]))
  {
    var a, b := Ends(l[k..]), Starts(p[k..]);
    forall i | 0 <= i < |l| - k
      ensures (a + b)[i] == End(l[|l| - 1 - i])
    {
      assert (a + b)[i] == a[i] == End(l[k..][|l| - k - 1 - i]);
    }
    forall i | k <= i < |p|
      ensures (a + b)[|l| - 2 * k + i] == Start(p[i])
    {
      assert (a + b)[|a| + (i - k)] == b[i - k] == Start(p[k..][i - k]);
    }
  }

  /** The events of the whole walk. The loop stops after the last path: nothing is ended then. */
  function WalkAll<N(==)>(paths: seq<seq<N>>): (es: seq<Event<N>>)
    ensures |paths| == 0 ==> es == []
  {
    if |paths| == 0 then []
    else WalkAll(paths[..|paths| - 1]) + Step(Previous(paths), paths[|paths| - 1])
  }

  /** One more path adds one step, taken from the path before it. */
  lemma WalkAllSnoc<N>(paths: seq<seq<N>>, p: seq<N>)
    ensures WalkAll(paths + [p]) == WalkAll(paths) + Step(if |paths| == 0 then None else Some(paths[|paths| - 1]), p)
  {
    var ps := paths + [p];
    assert ps[..|ps| - 1] == paths && ps[|ps| - 1] == p;
  }

  /** The path before the last one of `paths`, if any. */
  function Previous<N>(paths: seq<seq<N>>): Option<seq<N>>
    requires |paths| > 0
  {
    if |paths| == 1 then None else Some(paths[|paths| - 2])
  }

  /** `walkAll` with its loop over the paths; each iteration is `WalkStep`. */
  method Walk<N(==)>(paths: seq<seq<N>>) returns (events: seq<Event<N>>)
    ensures events == WalkAll(paths)
  {
    var last: Option<seq<N>> := None;
    events := [];
    var n := 0;
    while n < |paths|
      invariant 0 <= n <= |paths|
      invariant events == WalkAll(paths[..n])
      invariant last == if n == 0 then None else Some(paths[n - 1])
    {
      var es := WalkStep(last, paths[n]);
      assert paths[..n + 1][..n] == paths[..n];
      events := events + es;
      last := Some(paths[n]);
      n := n + 1;
    }
    assert paths[..n] == paths;
  }

  /** One iteration of `walkAll`: the peeking loop over the shared prefix, the loop ending the old
      suffix in reverse, and the loop starting the new suffix. */
  method WalkStep<N(==)>(last: Option<seq<N>>, p: seq<N>) returns (events: seq<Event<N>>)
    ensures events == Step(last, p)
  {
    if last.Some? {
      var l := last.value;
      var i := 0;
      while i < |l| && i < |p| && l[i] == p[i]
        invariant 0 <= i <= |l| && i <= |p|
        invariant l[..i] == p[..i]
      {
        i := i + 1;
      }
      SharedPrefixUnique(l, p, i);
      var ends := EndAll(l, i);
      var starts := StartAll(p, i);
      events := ends + starts;
    } else {
      events := StartAll(p, 0);
      assert p[0..] == p;
    }
  }

  /** Ends the nodes of `l` from the deepest one up to position `i`. */
  method EndAll<N>(l: seq<N>, i: nat) returns (events: seq<Event<N>>)
    requires i <= |l|
    ensures events == Ends(l[i..])
  {
    events := [];
    var j := |l|;
    while j > i
      invariant i <= j <= |l|
      invariant events == Ends(l[j..])
    {
      j := j - 1;
      assert l[j..][..|l[j..]| - 1] == l[j..|l| - 1];
      assert Ends(l[j..]) == Ends(l[j + 1..]) + [End(l[j])];
      events := events + [End(l[j])];
    }
  }

  /** Starts the nodes of `p` from position `i` down to the last one. */
  method StartAll<N>(p: seq<N>, i: nat) returns (events: seq<Event<N>>)
    requires i <= |p|
    ensures events == Starts(p[i..])
  {
    events := [];
    var c := i;
    while c < |p|
      invariant i <= c <= |p|
      invariant events == Starts(p[i..c])
    {
      assert Starts(p[i..c + 1]) == Starts(p[i..c]) + [Start(p[c])];
      events := events + [Start(p[c])];
      c := c + 1;
    }
    assert p[i..c] == p[i..];
  }

  /** The loop's exit point is the shared prefix. */
  lemma SharedPrefixUnique<N>(a: seq<N>, b: seq<N>, i: nat)
    requires i <= |a| && i <= |b| && a[..i] == b[..i]
    requires i < |a| && i < |b| ==> a[i] != b[i]
    ensures i == SharedPrefix(a, b)
  {
    var k := SharedPrefix(a, b);
    assert forall j :: 0 <= j < k ==> a[j] == a[..k][j] == b[..k][j] == b[j];
    assert forall j :: 0 <= j < i ==> a[j] == a[..i][j] == b[..i][j] == b[j];
  }

  // ---------------------------------------------------------------------------
  // The open-node stack

  /** One event applied to the stack of started, not yet ended nodes; an end event must name the
      node on top. */
  function Apply<N(==)>(stack: seq<N>, ev: Event<N>): (r: Option<seq<N>>)
    ensures ev.Start? ==> r == Some(stack + [ev.node])
    ensures ev.End? ==> (r.Some? <==> |stack| > 0 && stack[|stack| - 1] == ev.node)
    ensures r.Some? && ev.End? ==> r.value + [ev.node] == stack
  {
    match ev
    case Start(n) => Some(stack + [n])
    case End(n) => if |stack| > 0 && stack[|stack| - 1] == n then Some(stack[..|stack| - 1]) else None
  }

  /** The stack after a sequence of events, or `None` when some end event does not close the node on top. */
  function Replay<N(==)>(stack: seq<N>, es: seq<Event<N>>): Option<seq<N>>
    decreases |es|
  {
    if |es| == 0 then Some(stack)
    else
      match Apply(stack, es[0])
      case None => None
      case Some(s) => Replay(s, es[1..])
  }

  lemma {:induction false} ReplayConcat<N>(stack: seq<N>, a: seq<Event<N>>, b: seq<Event<N>>)
    ensures Replay(stack, a + b) == if Replay(stack, a).Some? then Replay(Replay(stack, a).value, b) else None
    decreases |a|
  {
    if |a| > 0 {
      assert (a + b)[0] == a[0];
      assert (a + b)[1..] == a[1..] + b;
      match Apply(stack, a[0])
      case None =>
      case Some(s) => ReplayConcat(s, a[1..], b);
    } else {
      assert a + b == b;
    }
  }

  lemma {:induction false} ReplayStarts<N>(stack: seq<N>, s: seq<N>)
    ensures Replay(stack, Starts(s)) == Some(stack + s)
    decreases |s|
  {
    if |s| > 0 {
      assert Starts(s)[1..] == Starts(s[1..]);
      ReplayStarts(stack + [s[0]], s[1..]);
      assert stack + [s[0]] + s[1..] == stack + s;
    } else {
      assert stack + s == stack;
    }
  }

  lemma {:induction false} ReplayEnds<N>(stack: seq<N>, s: seq<N>)
    ensures Replay(stack + s, Ends(s)) == Some(stack)
    decreases |s|
  {
    if |s| > 0 {
      var t := s[..|s| - 1];
      assert Ends(s)[1..] == Ends(t);
      assert (stack + s)[..|stack + s| - 1] == stack + t;
      ReplayEnds(stack, t);
    } else {
      assert stack + s == stack;
    }
  }

  /** Each step leaves exactly the current path open. */
  lemma StepReplay<N>(last: Option<seq<N>>, p: seq<N>)
    ensures Replay(last.GetOr([]), Step(last, p)) == Some(p)
  {
    match last
    case None =>
      ReplayStarts([], p);
      assert [] + p == p;
    case Some(l) =>
      StepReplayLater(l, p);
  }

  /** From the previous path, a later step ends the old suffix back to the shared prefix and then
      pushes the new suffix. */
  lemma StepReplayLater<N>(l: seq<N>, p: seq<N>)
    ensures Replay(l, Step(Some(l), p)) == Some(p)
  {
    var k := SharedPrefix(l, p);
    ReplayEndsFrom(l, k);
    ReplayStartsFrom(p, k);
    ReplayConcat(l, Ends(l[k..]), Starts(p[k..]));
  }

  /** Ending the nodes of `l` past position `k` leaves its first `k` nodes open. */
  lemma ReplayEndsFrom<N>(l: seq<N>, k: nat)
    requires k <= |l|
    ensures Replay(l, Ends(l[k..])) == Some(l[..k])
  {
    assert l == l[..k] + l[k..];
    ReplayEnds(l[..k], l[k..]);
  }

  /** Starting the nodes of `p` past position `k` on its first `k` nodes opens all of `p`. */
  lemma ReplayStartsFrom<N>(p: seq<N>, k: nat)
    requires k <= |p|
    ensures Replay(p[..k], Starts(p[k..])) == Some(p)
  {
    ReplayStarts(p[..k], p[k..]);
    assert p[..k] + p[k..] == p;
  }

  /** The stack invariant: after the walk has handled a path, the open nodes are that path, root
      first. In particular the nodes of the final path are started and never ended. */
  lemma {:induction false} WalkAllReplay<N>(paths: seq<seq<N>>)
    ensures Replay([], WalkAll(paths)) == Some(if |paths| == 0 then [] else paths[|paths| - 1])
  {
    if |paths| > 0 {
      var init := paths[..|paths| - 1];
      WalkAllReplay(init);
      ReplayConcat([], WalkAll(init), Step(Previous(paths), paths[|paths| - 1]));
      StepReplay(Previous(paths), paths[|paths| - 1]);
    }
  }

  /** A step that descends one level from the previous path emits one start and no end. */
  lemma StepDescent<N>(s: seq<N>, x: N)
    ensures Step(Some(s), s + [x]) == [Start(x)]
  {
    var k := SharedPrefix(s, s + [x]);
    SharedPrefixUnique(s, s + [x], |s|);
    assert (s + [x])[k..] == [x];
  }

  /** A step to a path that is a prefix of the previous one followed by a node not in that path ends
      the rest of the previous path and starts just that node. */
  lemma StepToSibling<N>(l: seq<N>, m: nat, x: N)
    requires m <= |l| && x !in l
    ensures Step(Some(l), l[..m] + [x]) == Ends(l[m..]) + [Start(x)]
  {
    var p := l[..m] + [x];
    assert p[..m] == l[..m];
    if m < |l| {
      assert l[m] in l;
    }
    SharedPrefixUnique(l, p, m);
    assert p[m..] == [x];
  }
}
