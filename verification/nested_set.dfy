/**
 The nested-set numbering of `ImportTaxonMetricsHandler`: a single counter, starting at 0, hands
 out `lft` when the walk starts a node and `rgt` when it ends one. Driven by the path-diff walk
 over a depth-first pre-order sequence of paths, the numbers nest: a closed ancestor's interval
 contains the interval of each of its closed descendants.
 */
module NestedSet {
  import opened Wrappers
  import opened Walker

  /** Neo4j's node ids. */
  type NodeId = nat

  /** The handler's counter and the `lft` and `rgt` properties it has written, by node. */
  datatype Handler = Handler(idx: nat, lft: map<NodeId, nat>, rgt: map<NodeId, nat>)

  /** A fresh handler: the counter is 0 and nothing is written yet, so the numbering invariant holds. */
  function Init(): (h: Handler)
    ensures h.idx == 0 && |h.lft| == 0 && |h.rgt| == 0
    ensures Numbered(h)
  {
    Handler(0, map[], map[])
  }

  /** `start(n)`: writes the counter into `lft` of `n` and moves the counter by one; no other node
      and no `rgt` changes. */
  function StartNode(h: Handler, n: NodeId): (r: Handler)
    ensures r.idx == h.idx + 1
    ensures r.lft.Keys == h.lft.Keys + {n} && r.lft[n] == h.idx
    ensures forall m :: m in h.lft && m != n ==> r.lft[m] == h.lft[m]
    ensures r.rgt == h.rgt
  {
    Handler(h.idx + 1, h.lft[n := h.idx], h.rgt)
  }

  /** `end(n)`: writes the counter into `rgt` of `n` and moves the counter by one; no other node
      and no `lft` changes. */
  function EndNode(h: Handler, n: NodeId): (r: Handler)
    ensures r.idx == h.idx + 1
    ensures r.rgt.Keys == h.rgt.Keys + {n} && r.rgt[n] == h.idx
    ensures forall m :: m in h.rgt && m != n ==> r.rgt[m] == h.rgt[m]
    ensures r.lft == h.lft
  {
    Handler(h.idx + 1, h.lft, h.rgt[n := h.idx])
  }

  function Handle(h: Handler, ev: Event<NodeId>): Handler {
    match ev
    case Start(n) => StartNode(h, n)
    case End(n) => EndNode(h, n)
  }

  /** The handler after it has received `es`, in order. After k events the counter has moved by k. */
  function Run(h: Handler, es: seq<Event<NodeId>>): (r: Handler)
    ensures r.idx == h.idx + |es|
    decreases |es|
  {
    if |es| == 0 then h else Run(Handle(h, es[0]), es[1..])
  }

  lemma {:induction false} RunConcat(h: Handler, a: seq<Event<NodeId>>, b: seq<Event<NodeId>>)
    ensures Run(h, a + b) == Run(Run(h, a), b)
    decreases |a|
  {
    if |a| > 0 {
      assert (a + b)[0] == a[0];
      assert (a + b)[1..] == a[1..] + b;
      RunConcat(Handle(h, a[0]), a[1..], b);
    } else {
      assert a + b == b;
    }
  }

  /** The number written for the event at position i is the counter's starting value plus i, so the
      numbers are handed out in event order: a node started (ended) at position i, and not started
      (ended) again later, has `lft` (`rgt`) equal to `h.idx + i`. */
  lemma {:induction false} RunNumbersEvents(h: Handler, es: seq<Event<NodeId>>, i: nat)
    requires i < |es|
    requires forall j :: i < j < |es| ==> es[j] != es[i]
    ensures es[i].Start? ==> es[i].node in Run(h, es).lft && Run(h, es).lft[es[i].node] == h.idx + i
    ensures es[i].End? ==> es[i].node in Run(h, es).rgt && Run(h, es).rgt[es[i].node] == h.idx + i
    decreases |es|
  {
    if i > 0 {
      assert forall j :: i - 1 < j < |es| - 1 ==> es[1..][j] == es[j + 1];
      RunNumbersEvents(Handle(h, es[0]), es[1..], i - 1);
    } else {
      RunKeeps(Handle(h, es[0]), es[1..], es[0]);
    }
  }

  /** Events that neither start nor end `ev.node` again keep what `ev` wrote. */
  lemma {:induction false} RunKeeps(h: Handler, es: seq<Event<NodeId>>, ev: Event<NodeId>)
    requires forall j :: 0 <= j < |es| ==> es[j] != ev
    ensures ev.Start? && ev.node in h.lft ==> ev.node in Run(h, es).lft && Run(h, es).lft[ev.node] == h.lft[ev.node]
    ensures ev.End? && ev.node in h.rgt ==> ev.node in Run(h, es).rgt && Run(h, es).rgt[ev.node] == h.rgt[ev.node]
    decreases |es|
  {
    if |es| > 0 {
      assert forall j :: 0 <= j < |es| - 1 ==> es[1..][j] == es[j + 1];
      RunKeeps(Handle(h, es[0]), es[1..], ev);
    }
  }

  // ---------------------------------------------------------------------------
  // The nesting invariant

  /** The handler together with the walk's open-node stack and the ancestor pairs seen so far:
      (a, b) when `a` was open at the moment `b` was started. */
  datatype Machine = Machine(h: Handler, stack: seq<NodeId>, anc: set<(NodeId, NodeId)>)

  /** The pairs that make every node of `above` an ancestor of `n`. */
  ghost function Under(above: seq<NodeId>, n: NodeId): set<(NodeId, NodeId)> {
    set a | a in above :: (a, n)
  }

  /** A start event on the machine: the node is pushed, and every open node becomes its ancestor. */
  ghost function StartMachine(m: Machine, n: NodeId): Machine {
    Machine(StartNode(m.h, n), m.stack + [n], m.anc + Under(m.stack, n))
  }

  /** An end event on the machine for the node on top of the stack. */
  ghost function EndMachine(m: Machine): Machine
    requires |m.stack| > 0
  {
    Machine(EndNode(m.h, m.stack[|m.stack| - 1]), m.stack[..|m.stack| - 1], m.anc)
  }

  /** One event on the machine; `None` when an end event does not close the node on top or a start
      event names a node that was started before. */
  ghost function Fire(m: Machine, ev: Event<NodeId>): Option<Machine> {
    match ev
    case Start(n) => if n in m.h.lft then None else Some(StartMachine(m, n))
    case End(n) => if |m.stack| > 0 && m.stack[|m.stack| - 1] == n then Some(EndMachine(m)) else None
  }

  ghost function Exec(m: Machine, es: seq<Event<NodeId>>): Option<Machine>
    decreases |es|
  {
    if |es| == 0 then Some(m)
    else
      match Fire(m, es[0])
      case None => None
      case Some(m') => Exec(m', es[1..])
  }

  lemma {:induction false} ExecConcat(m: Machine, a: seq<Event<NodeId>>, b: seq<Event<NodeId>>)
    ensures Exec(m, a + b) == if Exec(m, a).Some? then Exec(Exec(m, a).value, b) else None
    decreases |a|
  {
    if |a| > 0 {
      assert (a + b)[0] == a[0];
      assert (a + b)[1..] == a[1..] + b;
      match Fire(m, a[0])
      case None =>
      case Some(m') => ExecConcat(m', a[1..], b);
    } else {
      assert a + b == b;
    }
  }

  /** The machine's handler is the handler run over the same events. */
  lemma {:induction false} ExecRuns(m: Machine, es: seq<Event<NodeId>>)
    requires Exec(m, es).Some?
    ensures Exec(m, es).value.h == Run(m.h, es)
    decreases |es|
  {
    if |es| > 0 {
      ExecRuns(Fire(m, es[0]).value, es[1..]);
    }
  }

  /** The counter equals the number of values written: one per started node and one per ended node. */
  ghost predicate Counted(h: Handler) {
    && h.idx == |h.lft.Keys| + |h.rgt.Keys|
    && h.rgt.Keys <= h.lft.Keys
  }

  /** Every value written is below the counter. */
  ghost predicate Bounded(h: Handler) {
    && (forall n :: n in h.lft ==> h.lft[n] < h.idx)
    && (forall n :: n in h.rgt ==> h.rgt[n] < h.idx)
  }

  /** No value is written twice, and a node's `lft` is below its `rgt`. */
  ghost predicate Distinct(h: Handler) {
    && (forall a, b :: a in h.lft && b in h.lft && a != b ==> h.lft[a] != h.lft[b])
    && (forall a, b :: a in h.rgt && b in h.rgt && a != b ==> h.rgt[a] != h.rgt[b])
    && (forall a, b :: a in h.lft && b in h.rgt ==> h.lft[a] != h.rgt[b])
    && (forall n :: n in h.rgt && n in h.lft ==> h.lft[n] < h.rgt[n])
  }

  ghost predicate Numbered(h: Handler) {
    Counted(h) && Bounded(h) && Distinct(h)
  }

  /** The open nodes (with `lft` but no `rgt`) are exactly the stack, in ascending `lft` order. */
  ghost predicate StackIsOpen(m: Machine) {
    && (forall i :: 0 <= i < |m.stack| ==> m.stack[i] in m.h.lft && m.stack[i] !in m.h.rgt)
    && (forall n :: n in m.h.lft && n !in m.h.rgt ==> n in m.stack)
    && (forall i, j :: 0 <= i < j < |m.stack| ==>
          m.stack[i] in m.h.lft && m.stack[j] in m.h.lft && m.h.lft[m.stack[i]] < m.h.lft[m.stack[j]])
  }

  /** An ancestor is started before its descendant and, once ended, ends after it. */
  ghost predicate Nesting(m: Machine) {
    && (forall a, b :: (a, b) in m.anc ==> a in m.h.lft && b in m.h.lft && m.h.lft[a] < m.h.lft[b])
    && (forall a, b :: (a, b) in m.anc && a in m.h.rgt ==> b in m.h.rgt && m.h.rgt[b] < m.h.rgt[a])
  }

  /** Of two started nodes, the one started first is an ancestor of the other or was closed before
      the other was started: started nodes never overlap without nesting. */
  ghost predicate Separated(m: Machine) {
    forall a, b :: a in m.h.lft && b in m.h.lft && m.h.lft[a] < m.h.lft[b] ==>
      (a, b) in m.anc || (a in m.h.rgt && m.h.rgt[a] < m.h.lft[b])
  }

  ghost predicate Inv(m: Machine) {
    Numbered(m.h) && StackIsOpen(m) && Nesting(m) && Separated(m)
  }

  lemma StartCounted(h: Handler, n: NodeId)
    requires Counted(h) && n !in h.lft
    ensures Counted(StartNode(h, n))
  {
    var r := StartNode(h, n);
    assert r.lft.Keys == h.lft.Keys + {n};
  }

  lemma StartDistinct(h: Handler, n: NodeId)
    requires Bounded(h) && Distinct(h) && h.rgt.Keys <= h.lft.Keys && n !in h.lft
    ensures Distinct(StartNode(h, n))
  {
    var r := StartNode(h, n);
    assert n !in h.rgt && r.rgt == h.rgt;
    forall a, b | a in r.lft && b in r.lft && a != b
      ensures r.lft[a] != r.lft[b]
    {
      if a == n {
        assert h.lft[b] < h.idx;
      } else if b == n {
        assert h.lft[a] < h.idx;
      } else {
        assert r.lft[a] == h.lft[a] && r.lft[b] == h.lft[b];
      }
    }
    forall a, b | a in r.lft && b in r.rgt
      ensures r.lft[a] != r.rgt[b]
    {
      if a == n {
        assert h.rgt[b] < h.idx;
      } else {
        assert r.lft[a] == h.lft[a];
      }
    }
    forall x | x in r.rgt && x in r.lft
      ensures r.lft[x] < r.rgt[x]
    {
      assert x != n && x in h.lft;
      assert r.lft[x] == h.lft[x];
    }
  }

  lemma StartNumbered(h: Handler, n: NodeId)
    requires Numbered(h) && n !in h.lft
    ensures Numbered(StartNode(h, n))
  {
    StartCounted(h, n);
    StartDistinct(h, n);
  }

  lemma EndCounted(h: Handler, n: NodeId)
    requires Counted(h) && n in h.lft && n !in h.rgt
    ensures Counted(EndNode(h, n))
  {
    var r := EndNode(h, n);
    assert r.rgt.Keys == h.rgt.Keys + {n};
  }

  lemma EndDistinct(h: Handler, n: NodeId)
    requires Bounded(h) && Distinct(h) && n in h.lft && n !in h.rgt
    ensures Distinct(EndNode(h, n))
  {
    var r := EndNode(h, n);
    assert r.lft == h.lft && r.rgt[n] == h.idx;
    forall a, b | a in r.rgt && b in r.rgt && a != b
      ensures r.rgt[a] != r.rgt[b]
    {
      if a == n {
        assert h.rgt[b] < h.idx;
      } else if b == n {
        assert h.rgt[a] < h.idx;
      } else {
        assert r.rgt[a] == h.rgt[a] && r.rgt[b] == h.rgt[b];
      }
    }
    forall a, b | a in r.lft && b in r.rgt
      ensures r.lft[a] != r.rgt[b]
    {
      if b == n {
        assert h.lft[a] < h.idx;
      } else {
        assert r.rgt[b] == h.rgt[b];
      }
    }
    forall x | x in r.rgt && x in r.lft
      ensures r.lft[x] < r.rgt[x]
    {
      if x == n {
        assert h.lft[n] < h.idx;
      } else {
        assert r.rgt[x] == h.rgt[x];
      }
    }
  }

  lemma EndNumbered(h: Handler, n: NodeId)
    requires Numbered(h) && n in h.lft && n !in h.rgt
    ensures Numbered(EndNode(h, n))
  {
    EndCounted(h, n);
    EndDistinct(h, n);
  }

  lemma StartStack(m: Machine, n: NodeId)
    requires Bounded(m.h) && m.h.rgt.Keys <= m.h.lft.Keys && StackIsOpen(m) && n !in m.h.lft
    ensures StackIsOpen(StartMachine(m, n))
  {
    var m' := StartMachine(m, n);
    assert n !in m.h.rgt;
    forall i | 0 <= i < |m'.stack|
      ensures m'.stack[i] in m'.h.lft && m'.stack[i] !in m'.h.rgt
    {
      if i < |m.stack| {
        assert m'.stack[i] == m.stack[i];
      }
    }
    forall i, j | 0 <= i < j < |m'.stack|
      ensures m'.stack[i] in m'.h.lft && m'.stack[j] in m'.h.lft && m'.h.lft[m'.stack[i]] < m'.h.lft[m'.stack[j]]
    {
      assert m'.stack[i] == m.stack[i];
      if j < |m.stack| {
        assert m'.stack[j] == m.stack[j];
      }
    }
  }

  lemma StartNesting(m: Machine, n: NodeId)
    requires Bounded(m.h) && m.h.rgt.Keys <= m.h.lft.Keys && StackIsOpen(m) && Nesting(m) && n !in m.h.lft
    ensures Nesting(StartMachine(m, n))
  {
    var m' := StartMachine(m, n);
    assert n !in m.h.rgt;
    forall a, b | (a, b) in m'.anc
      ensures a in m'.h.lft && b in m'.h.lft && m'.h.lft[a] < m'.h.lft[b]
      ensures a in m'.h.rgt ==> b in m'.h.rgt && m'.h.rgt[b] < m'.h.rgt[a]
    {
      if (a, b) !in m.anc {
        assert a in m.stack && b == n;
      }
    }
  }

  /** The new node is started after every other: an open node becomes its ancestor, and every
      other started node is closed already. */
  lemma StartSeparated(m: Machine, n: NodeId)
    requires Bounded(m.h) && StackIsOpen(m) && Separated(m) && n !in m.h.lft
    ensures Separated(StartMachine(m, n))
  {
    var m' := StartMachine(m, n);
    forall a, b | a in m'.h.lft && b in m'.h.lft && m'.h.lft[a] < m'.h.lft[b]
      ensures (a, b) in m'.anc || (a in m'.h.rgt && m'.h.rgt[a] < m'.h.lft[b])
    {
      if b == n {
        if a !in m.h.rgt {
          assert (a, n) in Under(m.stack, n);
        }
      }
    }
  }

  lemma StartPreserves(m: Machine, n: NodeId)
    requires Inv(m) && n !in m.h.lft
    ensures Inv(StartMachine(m, n))
  {
    assert n !in m.h.rgt;
    StartNumbered(m.h, n);
    StartStack(m, n);
    StartNesting(m, n);
    StartSeparated(m, n);
  }

  /** Every open node other than the one on top of the stack was started before it. */
  lemma OpenBelowTop(m: Machine)
    requires StackIsOpen(m) && |m.stack| > 0
    ensures forall b :: b in m.h.lft && b !in m.h.rgt && b != m.stack[|m.stack| - 1] ==>
              m.h.lft[b] < m.h.lft[m.stack[|m.stack| - 1]]
  {
    var top := |m.stack| - 1;
    forall b | b in m.h.lft && b !in m.h.rgt && b != m.stack[top]
      ensures m.h.lft[b] < m.h.lft[m.stack[top]]
    {
      var i :| 0 <= i < |m.stack| && m.stack[i] == b;
      assert i < top;
    }
  }

  lemma EndStack(m: Machine)
    requires Bounded(m.h) && m.h.rgt.Keys <= m.h.lft.Keys && StackIsOpen(m) && |m.stack| > 0
    ensures StackIsOpen(EndMachine(m))
  {
    var top := |m.stack| - 1;
    var n := m.stack[top];
    var m' := EndMachine(m);
    OpenBelowTop(m);
    forall i | 0 <= i < |m'.stack|
      ensures m'.stack[i] in m'.h.lft && m'.stack[i] !in m'.h.rgt
    {
      assert m'.stack[i] == m.stack[i];
      assert m.h.lft[m.stack[i]] < m.h.lft[n];
    }
    forall b | b in m'.h.lft && b !in m'.h.rgt
      ensures b in m'.stack
    {
      var i :| 0 <= i < |m.stack| && m.stack[i] == b;
      assert i != top;
      assert m'.stack[i] == b;
    }
    forall i, j | 0 <= i < j < |m'.stack|
      ensures m'.stack[i] in m'.h.lft && m'.stack[j] in m'.h.lft && m'.h.lft[m'.stack[i]] < m'.h.lft[m'.stack[j]]
    {
      assert m'.stack[i] == m.stack[i] && m'.stack[j] == m.stack[j];
    }
  }

  lemma EndNesting(m: Machine)
    requires Bounded(m.h) && m.h.rgt.Keys <= m.h.lft.Keys && StackIsOpen(m) && Nesting(m) && |m.stack| > 0
    ensures Nesting(EndMachine(m))
  {
    var n := m.stack[|m.stack| - 1];
    var m' := EndMachine(m);
    OpenBelowTop(m);
    forall a, b | (a, b) in m'.anc && a in m'.h.rgt
      ensures b in m'.h.rgt && m'.h.rgt[b] < m'.h.rgt[a]
    {
      if a == n {
        assert m.h.lft[n] < m.h.lft[b];
        assert b in m.h.rgt;
      }
    }
  }

  lemma EndPreserves(m: Machine)
    requires Inv(m) && |m.stack| > 0
    ensures Inv(EndMachine(m))
  {
    assert m.stack[|m.stack| - 1] in m.h.lft && m.stack[|m.stack| - 1] !in m.h.rgt;
    EndNumbered(m.h, m.stack[|m.stack| - 1]);
    EndStack(m);
    EndNesting(m);
    assert Separated(EndMachine(m));
  }

  lemma FirePreserves(m: Machine, ev: Event<NodeId>)
    requires Inv(m) && Fire(m, ev).Some?
    ensures Inv(Fire(m, ev).value)
  {
    match ev
    case Start(n) => StartPreserves(m, n);
    case End(n) => EndPreserves(m);
  }

  lemma {:induction false} ExecPreserves(m: Machine, es: seq<Event<NodeId>>)
    requires Inv(m) && Exec(m, es).Some?
    ensures Inv(Exec(m, es).value)
    decreases |es|
  {
    if |es| > 0 {
      var m' := Fire(m, es[0]).value;
      FirePreserves(m, es[0]);
      ExecPreserves(m', es[1..]);
    }
  }

  /** End events that close the top of the stack in turn leave `lft` and the ancestor pairs alone. */
  lemma {:induction false} ExecEnds(m: Machine, rest: seq<NodeId>, s: seq<NodeId>)
    requires m.stack == rest + s
    ensures Exec(m, Ends(s)).Some?
    ensures Exec(m, Ends(s)).value.stack == rest
    ensures Exec(m, Ends(s)).value.anc == m.anc
    ensures Exec(m, Ends(s)).value.h.lft == m.h.lft
    decreases |s|
  {
    if |s| > 0 {
      var t := s[..|s| - 1];
      var es := Ends(s);
      assert es[0] == End(s[|s| - 1]);
      assert es[1..] == Ends(t);
      assert m.stack[|m.stack| - 1] == s[|s| - 1];
      var m' := EndMachine(m);
      assert Fire(m, es[0]) == Some(m');
      assert Exec(m, es) == Exec(m', Ends(t));
      assert m'.stack == rest + t;
      ExecEnds(m', rest, t);
    } else {
      assert rest + s == rest;
    }
  }

  // ---------------------------------------------------------------------------
  // Walks in depth-first pre-order

  /** The node a path leads to. */
  function Leaf(p: seq<NodeId>): NodeId
    requires |p| > 0
  {
    p[|p| - 1]
  }

  /** Path `i` of a walk keeps its promise: it is a prefix of the path before it (the empty path
      before the first) extended by one node that no earlier path contains. */
  ghost predicate NextPath(paths: seq<seq<NodeId>>, i: nat)
    requires i < |paths|
  {
    && |paths[i]| > 0
    && (i == 0 ==> |paths[i]| == 1)
    && (i > 0 ==> |paths[i]| - 1 <= |paths[i - 1]| && paths[i][..|paths[i]| - 1] == paths[i - 1][..|paths[i]| - 1])
    && (forall j :: 0 <= j < i ==> Leaf(paths[i]) !in paths[j])
  }

  /** The traversal's promise: a depth-first pre-order sequence of root-to-node paths. */
  ghost predicate PreOrder(paths: seq<seq<NodeId>>) {
    && (forall i :: 0 <= i < |paths| ==> |paths[i]| > 0)
    && (forall i :: 0 <= i < |paths| ==> NextPath(paths, i))
  }

  /** Every node on some path. */
  ghost function Nodes(paths: seq<seq<NodeId>>): set<NodeId> {
    set j, n | 0 <= j < |paths| && n in paths[j] :: n
  }

  /** (a, b) where `a` lies strictly above `b` on the path that leads to `b`. */
  ghost function Ancestors(paths: seq<seq<NodeId>>): set<(NodeId, NodeId)> {
    set j, a | 0 <= j < |paths| && |paths[j]| > 0 && a in paths[j][..|paths[j]| - 1] :: (a, Leaf(paths[j]))
  }

  /** The final path of a walk, empty when there is none. */
  function LastPath(paths: seq<seq<NodeId>>): seq<NodeId> {
    if |paths| == 0 then [] else paths[|paths| - 1]
  }

  lemma PreOrderPrefix(paths: seq<seq<NodeId>>, n: nat)
    requires PreOrder(paths) && n <= |paths|
    ensures PreOrder(paths[..n])
  {
    forall i | 0 <= i < n
      ensures NextPath(paths[..n], i)
    {
      assert NextPath(paths, i);
      assert forall j :: 0 <= j <= i ==> paths[..n][j] == paths[j];
    }
  }

  lemma NodesSnoc(paths: seq<seq<NodeId>>, p: seq<NodeId>)
    ensures Nodes(paths + [p]) == Nodes(paths) + set n | n in p
  {
    var ps := paths + [p];
    forall n | n in Nodes(ps)
      ensures n in Nodes(paths) || n in p
    {
      var j :| 0 <= j < |ps| && n in ps[j];
      if j < |paths| {
        assert ps[j] == paths[j];
      }
    }
    forall n | n in Nodes(paths)
      ensures n in Nodes(ps)
    {
      var j :| 0 <= j < |paths| && n in paths[j];
      assert ps[j] == paths[j];
    }
    assert ps[|paths|] == p;
  }

  lemma AncestorsSnoc(paths: seq<seq<NodeId>>, p: seq<NodeId>)
    requires |p| > 0
    ensures Ancestors(paths + [p]) == Ancestors(paths) + Under(p[..|p| - 1], Leaf(p))
  {
    var ps := paths + [p];
    assert forall j :: 0 <= j < |paths| ==> ps[j] == paths[j];
    forall x | x in Ancestors(ps)
      ensures x in Ancestors(paths) || x in Under(p[..|p| - 1], Leaf(p))
    {
      var j, a :| 0 <= j < |ps| && |ps[j]| > 0 && a in ps[j][..|ps[j]| - 1] && x == (a, Leaf(ps[j]));
      if j < |paths| {
        assert x in Ancestors(paths);
      }
    }
    forall x | x in Ancestors(paths)
      ensures x in Ancestors(ps)
    {
      var j, a :| 0 <= j < |paths| && |paths[j]| > 0 && a in paths[j][..|paths[j]| - 1] && x == (a, Leaf(paths[j]));
      assert |ps[j]| > 0 && a in ps[j][..|ps[j]| - 1] && x == (a, Leaf(ps[j]));
    }
    forall x | x in Under(p[..|p| - 1], Leaf(p))
      ensures x in Ancestors(ps)
    {
      var a :| a in p[..|p| - 1] && x == (a, Leaf(p));
      assert ps[|paths|] == p;
    }
  }

  /** One step of a pre-order walk: the previous path is the new path's parent part followed by
      the nodes that leave; they end, and then the new leaf starts. */
  lemma PreOrderStep(paths: seq<seq<NodeId>>) returns (gone: seq<NodeId>)
    requires |paths| > 0 && NextPath(paths, |paths| - 1)
    ensures var p, init := paths[|paths| - 1], paths[..|paths| - 1];
            && LastPath(init) == p[..|p| - 1] + gone
            && Step(Previous(paths), p) == Ends(gone) + [Start(Leaf(p))]
  {
    var n := |paths| - 1;
    if n == 0 {
      gone := [];
      PreOrderFirst(paths[0]);
    } else {
      gone := PreOrderLater(paths[n - 1], paths[n]);
    }
  }

  /** The first path of a pre-order walk is a single root, which just starts. */
  lemma PreOrderFirst(p: seq<NodeId>)
    requires |p| == 1
    ensures Step(None, p) == [Start(Leaf(p))]
  {
    assert p == [Leaf(p)];
  }

  /** A later path of a pre-order walk: its parent part is a prefix of the previous path and its
      leaf is new, so the rest of the previous path ends and the leaf starts. */
  lemma PreOrderLater(prev: seq<NodeId>, p: seq<NodeId>) returns (gone: seq<NodeId>)
    requires |p| > 0 && |p| - 1 <= |prev| && p[..|p| - 1] == prev[..|p| - 1] && Leaf(p) !in prev
    ensures prev == p[..|p| - 1] + gone
    ensures Step(Some(prev), p) == Ends(gone) + [Start(Leaf(p))]
  {
    var up, x := p[..|p| - 1], Leaf(p);
    StepToSibling(prev, |up|, x);
    assert prev[..|up|] + [x] == p;
    gone := prev[|up|..];
    assert prev == up + gone;
  }

  /** The machine runs the events of one pre-order step: it closes the nodes that leave and opens
      the new leaf below the nodes that stay. */
  lemma MachineStep(m: Machine, up: seq<NodeId>, gone: seq<NodeId>, x: NodeId) returns (m2: Machine)
    requires m.stack == up + gone && x !in m.h.lft
    ensures Exec(m, Ends(gone) + [Start(x)]) == Some(m2)
    ensures m2.stack == up + [x]
    ensures m2.h.lft.Keys == m.h.lft.Keys + {x}
    ensures m2.anc == m.anc + Under(up, x)
  {
    ExecEnds(m, up, gone);
    var m1 := Exec(m, Ends(gone)).value;
    m2 := StartMachine(m1, x);
    assert Fire(m1, Start(x)) == Some(m2);
    assert Exec(m1, [Start(x)]) == Some(m2);
    ExecConcat(m, Ends(gone), [Start(x)]);
  }

  /** The nodes of a pre-order walk one path longer: the new leaf joins, as every other node of the
      new path is on the previous one. */
  lemma NodesStep(paths: seq<seq<NodeId>>)
    requires |paths| > 0 && NextPath(paths, |paths| - 1)
    ensures var p, init := paths[|paths| - 1], paths[..|paths| - 1];
            && Leaf(p) !in Nodes(init)
            && Nodes(paths) == Nodes(init) + {Leaf(p)}
            && (forall a :: a in p[..|p| - 1] ==> a in LastPath(init))
  {
    var n := |paths| - 1;
    var init, p := paths[..n], paths[n];
    var x, up := Leaf(p), p[..|p| - 1];
    assert paths == init + [p];
    assert forall j :: 0 <= j < n ==> init[j] == paths[j] && x !in paths[j];
    assert p == up + [x];
    NodesSnoc(init, p);
    forall a | a in up
      ensures a in LastPath(init) && a in Nodes(init)
    {
      var k :| 0 <= k < |up| && up[k] == a;
      assert n > 0;
      assert LastPath(init) == init[n - 1] == paths[n - 1];
      assert a == paths[n - 1][..|up|][k];
    }
  }

  /** One more path of a pre-order walk, on a machine that agrees with the walk so far: it runs the
      step's events, and afterwards agrees with the longer walk. */
  lemma WalkMachineStep(paths: seq<seq<NodeId>>, m: Machine) returns (m2: Machine)
    requires |paths| > 0 && NextPath(paths, |paths| - 1)
    requires var init := paths[..|paths| - 1];
             m.stack == LastPath(init) && m.h.lft.Keys == Nodes(init) && m.anc == Ancestors(init)
    ensures Exec(m, Step(Previous(paths), paths[|paths| - 1])) == Some(m2)
    ensures m2.stack == LastPath(paths) && m2.h.lft.Keys == Nodes(paths) && m2.anc == Ancestors(paths)
  {
    var p := paths[|paths| - 1];
    var gone := PreOrderStep(paths);
    PathsStep(paths);
    m2 := MachineStep(m, p[..|p| - 1], gone, Leaf(p));
  }

  /** What one more path of a pre-order walk adds: its leaf, new, and the leaf's pairs below the
      path's parent part; the path itself is that parent part and the leaf. */
  lemma PathsStep(paths: seq<seq<NodeId>>)
    requires |paths| > 0 && NextPath(paths, |paths| - 1)
    ensures var init, p := paths[..|paths| - 1], paths[|paths| - 1];
            && Leaf(p) !in Nodes(init)
            && Nodes(paths) == Nodes(init) + {Leaf(p)}
            && Ancestors(paths) == Ancestors(init) + Under(p[..|p| - 1], Leaf(p))
            && LastPath(paths) == p[..|p| - 1] + [Leaf(p)]
  {
    NodesStep(paths);
    AncestorsStep(paths);
    var p := paths[|paths| - 1];
    assert p == p[..|p| - 1] + [Leaf(p)];
  }

  /** A pre-order walk one path longer gains the pairs of the new leaf below its parent part. */
  lemma AncestorsStep(paths: seq<seq<NodeId>>)
    requires |paths| > 0 && |paths[|paths| - 1]| > 0
    ensures var init, p := paths[..|paths| - 1], paths[|paths| - 1];
            Ancestors(paths) == Ancestors(init) + Under(p[..|p| - 1], Leaf(p))
  {
    var n := |paths| - 1;
    var init, p := paths[..n], paths[n];
    assert paths == init + [p];
    AncestorsSnoc(init, p);
  }

  /** Walking a pre-order path sequence never fails the machine: the open stack is the last path,
      `lft` is written on every node of every path, and the ancestor pairs are those of the paths. */
  lemma {:induction false} WalkMachine(paths: seq<seq<NodeId>>)
    requires PreOrder(paths)
    ensures Exec(Machine(Init(), [], {}), WalkAll(paths)).Some?
    ensures var m := Exec(Machine(Init(), [], {}), WalkAll(paths)).value;
            && m.stack == LastPath(paths)
            && m.h.lft.Keys == Nodes(paths)
            && m.anc == Ancestors(paths)
  {
    var m0 := Machine(Init(), [], {});
    if |paths| == 0 {
      assert Nodes(paths) == {};
      assert Ancestors(paths) == {};
    } else {
      var n := |paths| - 1;
      var init := paths[..n];
      PreOrderPrefix(paths, n);
      WalkMachine(init);
      var m := Exec(m0, WalkAll(init)).value;
      assert NextPath(paths, n);
      var m2 := WalkMachineStep(paths, m);
      ExecConcat(m0, WalkAll(init), Step(Previous(paths), paths[n]));
    }
  }

  /** The nesting invariant holds at the end of a pre-order walk. */
  lemma WalkInv(paths: seq<seq<NodeId>>)
    requires PreOrder(paths)
    ensures Exec(Machine(Init(), [], {}), WalkAll(paths)).Some?
    ensures Inv(Exec(Machine(Init(), [], {}), WalkAll(paths)).value)
  {
    WalkMachine(paths);
    assert Inv(Machine(Init(), [], {}));
    ExecPreserves(Machine(Init(), [], {}), WalkAll(paths));
  }

  // ---------------------------------------------------------------------------
  // What the numbering promises

  /** The nodes of one path, as a set. */
  ghost function OnPath(p: seq<NodeId>): set<NodeId> {
    set n | n in p
  }

  /** The handler at the end of a pre-order walk is the machine's, which keeps the invariant. */
  lemma WalkEnd(paths: seq<seq<NodeId>>) returns (m: Machine)
    requires PreOrder(paths)
    ensures m.h == Run(Init(), WalkAll(paths)) && Inv(m)
    ensures m.stack == LastPath(paths) && m.h.lft.Keys == Nodes(paths) && m.anc == Ancestors(paths)
  {
    WalkMachine(paths);
    WalkInv(paths);
    m := Exec(Machine(Init(), [], {}), WalkAll(paths)).value;
    ExecRuns(Machine(Init(), [], {}), WalkAll(paths));
  }

  /** The closed nodes are the started ones that are not on the stack. */
  lemma ClosedOffStack(m: Machine)
    requires StackIsOpen(m) && m.h.rgt.Keys <= m.h.lft.Keys
    ensures m.h.rgt.Keys == m.h.lft.Keys - OnPath(m.stack)
  {
    forall n | n in OnPath(m.stack)
      ensures n !in m.h.rgt
    {
      var i :| 0 <= i < |m.stack| && m.stack[i] == n;
    }
  }

  lemma CardDifference(a: set<NodeId>, b: set<NodeId>)
    requires b <= a
    ensures |a - b| == |a| - |b|
  {
    assert a == (a - b) + b;
  }

  /** One handler run from 0 over a pre-order walk writes `lft` on every node of every path, and
      `rgt` on all of them except the nodes of the final path, which nothing ends. The counter has
      moved once per value written. */
  lemma WalkNumbering(paths: seq<seq<NodeId>>)
    requires PreOrder(paths)
    ensures var h := Run(Init(), WalkAll(paths));
            && h.lft.Keys == Nodes(paths)
            && h.rgt.Keys == Nodes(paths) - OnPath(LastPath(paths))
            && h.idx == 2 * |Nodes(paths)| - |OnPath(LastPath(paths))|
  {
    var m := WalkEnd(paths);
    ClosedOffStack(m);
    assert OnPath(m.stack) <= m.h.lft.Keys;
    CardDifference(Nodes(paths), OnPath(LastPath(paths)));
  }

  /** Over a pre-order walk no number is handed out twice, and each closed node has `lft < rgt`. */
  lemma WalkDistinct(paths: seq<seq<NodeId>>)
    requires PreOrder(paths)
    ensures var h := Run(Init(), WalkAll(paths));
            && (forall a, b :: a in h.lft && b in h.lft && a != b ==> h.lft[a] != h.lft[b])
            && (forall a, b :: a in h.rgt && b in h.rgt && a != b ==> h.rgt[a] != h.rgt[b])
            && (forall a, b :: a in h.lft && b in h.rgt ==> h.lft[a] != h.rgt[b])
            && (forall n :: n in h.rgt ==> n in h.lft && h.lft[n] < h.rgt[n])
  {
    var m := WalkEnd(paths);
  }

  /** The nested-set promise over a pre-order walk: an ancestor gets a smaller `lft` than its
      descendant, and once the ancestor is closed, so is the descendant, with its interval strictly
      inside the ancestor's. Conversely, a node whose `lft` falls inside another's interval (or
      after the `lft` of a node still open) is its descendant, and two nodes of which neither is an
      ancestor of the other have disjoint intervals, the earlier one closed before the later starts. */
  lemma NestedIntervals(paths: seq<seq<NodeId>>)
    requires PreOrder(paths)
    ensures var h := Run(Init(), WalkAll(paths));
            forall a, b :: (a, b) in Ancestors(paths) ==>
              && a in h.lft && b in h.lft && h.lft[a] < h.lft[b]
              && (a in h.rgt ==> b in h.rgt && h.lft[a] < h.lft[b] < h.rgt[b] < h.rgt[a])
    ensures var h := Run(Init(), WalkAll(paths));
            forall a, b :: a in h.lft && b in h.lft && h.lft[a] < h.lft[b] && (a !in h.rgt || h.lft[b] < h.rgt[a]) ==>
              (a, b) in Ancestors(paths)
    ensures var h := Run(Init(), WalkAll(paths));
            forall a, b :: a in h.lft && b in h.lft && h.lft[a] < h.lft[b] && (a, b) !in Ancestors(paths) ==>
              a in h.rgt && h.rgt[a] < h.lft[b]
  {
    var m := WalkEnd(paths);
  }

  /** The three steps of the example walk: a root starts, its child starts below it, and the next
      root ends the first tree, deepest first, before it starts. */
  lemma ExampleSteps()
    ensures Step(None, [1 as NodeId]) == [Start(1)]
    ensures Step(Some([1 as NodeId]), [1, 2]) == [Start(2)]
    ensures Step(Some([1 as NodeId, 2]), [3]) == [End(2), End(1), Start(3)]
  {
    StepDescent([1 as NodeId], 2);
    assert [1 as NodeId] + [2] == [1, 2];
    StepToSibling([1 as NodeId, 2], 0, 3);
    assert [1 as NodeId, 2][..0] + [3] == [3] && [1 as NodeId, 2][0..] == [1, 2];
    assert Ends([1 as NodeId, 2]) == [End(2), End(1)];
  }

  /** Two root trees, the first with one child: the second root's path ends the first tree, and the
      second root stays open at the end. */
  lemma ExampleWalk(a: seq<NodeId>, b: seq<NodeId>, c: seq<NodeId>)
    requires a == [1] && b == [1, 2] && c == [3]
    ensures WalkAll([a, b, c]) == [Start(1), Start(2), End(2), End(1), Start(3)]
  {
    calc {
      WalkAll([a, b, c]);
      { assert [a, b] + [c] == [a, b, c]; }
      WalkAll([a, b] + [c]);
      { WalkAllSnoc([a, b], c); }
      WalkAll([a, b]) + Step(Some(b), c);
      { ExampleWalkPrefix(a, b); ExampleSteps(); }
      [Start(1), Start(2)] + [End(2), End(1), Start(3)];
    }
  }

  /** The first two paths of the example: start 1, then start 2. */
  lemma ExampleWalkPrefix(a: seq<NodeId>, b: seq<NodeId>)
    requires a == [1] && b == [1, 2]
    ensures WalkAll([a, b]) == [Start(1), Start(2)]
  {
    var q0: seq<seq<NodeId>> := [];
    ExampleSteps();
    WalkAllSnoc(q0, a);
    assert q0 + [a] == [a];
    WalkAllSnoc([a], b);
    assert [a] + [b] == [a, b];
  }

  /** The numbers the handler writes for the example's events. */
  lemma ExampleNumbers(es: seq<Event<NodeId>>)
    requires es == [Start(1), Start(2), End(2), End(1), Start(3)]
    ensures Run(Init(), es) == Handler(5, map[1 := 0, 2 := 1, 3 := 4], map[2 := 2, 1 := 3])
  {
    var h1 := Handle(Init(), es[0]);
    var h2 := Handle(h1, es[1]);
    var h3 := Handle(h2, es[2]);
    var h4 := Handle(h3, es[3]);
    var h5 := Handle(h4, es[4]);
    assert Run(h5, es[5..]) == h5;
    assert Run(h4, es[4..]) == h5;
    assert Run(h3, es[3..]) == h5;
    assert Run(h2, es[2..]) == h5;
    assert Run(h1, es[1..]) == h5;
    assert h5 == Handler(5, map[1 := 0, 2 := 1, 3 := 4], map[2 := 2, 1 := 3]);
  }
}
