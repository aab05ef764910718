/** The dependency cycle check: a walk that colours each task white, grey, then black. */
module TaskCycles {
  import Listings

  type Id = string
  type Graph = map<Id, seq<Id>>

  /** An edge between tasks the document knows. */
  predicate Edge(g: Graph, a: Id, b: Id) {
    a in g && b in g && b in g[a]
  }

  predicate Path(g: Graph, p: seq<Id>) {
    p != [] && (forall i :: 0 <= i < |p| ==> p[i] in g) && forall i :: 0 < i < |p| ==> Edge(g, p[i - 1], p[i])
  }

  /** A path of at least one edge that ends where it starts. */
  predicate Cycle(g: Graph, p: seq<Id>) {
    |p| >= 2 && p[0] == p[|p| - 1] && Path(g, p)
  }

  datatype Colour = Grey | Black

  function IndexOf(s: seq<Id>, x: Id): (i: nat)
    requires x in s
    ensures i < |s| && s[i] == x
  {
    if s[0] == x then 0 else 1 + IndexOf(s[1..], x)
  }

  /** Every edge out of a listed task leads to one listed before it. */
  ghost predicate Topological(g: Graph, order: seq<Id>) {
    forall i, b :: 0 <= i < |order| && Edge(g, order[i], b) ==> b in order[..i]
  }

  lemma {:induction false} DescendsAlong(g: Graph, order: seq<Id>, p: seq<Id>, i: nat, at: nat) returns (later: nat)
    requires Topological(g, order) && Path(g, p) && i < |p| && at < |order| && order[at] == p[0]
    ensures later <= at && order[later] == p[i] && (i > 0 ==> later < at)
    decreases i
  {
    if i == 0 {
      later := at;
    } else {
      var before := DescendsAlong(g, order, p, i - 1, at);
      assert Edge(g, order[before], p[i]);
      later :| 0 <= later < before && order[later] == p[i];
    }
  }

  /** A listing of all tasks in that order rules cycles out. */
  lemma {:induction false} TopologicalIsAcyclic(g: Graph, order: seq<Id>, p: seq<Id>)
    requires Topological(g, order) && Distinct(order) && (forall id <- g :: id in order)
    ensures !Cycle(g, p)
  {
    if Cycle(g, p) {
      var at :| 0 <= at < |order| && order[at] == p[0];
      var later := DescendsAlong(g, order, p, |p| - 1, at);
      assert false;
    }
  }

  ghost predicate Distinct(s: seq<Id>) {
    forall i, j :: 0 <= i < j < |s| ==> s[i] != s[j]
  }

  /** The grey tasks are a path, each on the stack once; the black ones have been left, each once. */
  ghost predicate Colouring(g: Graph, state: map<Id, Colour>, stack: seq<Id>, finished: seq<Id>) {
    && (forall id <- state :: id in g)
    && (forall id :: id in stack <==> id in state && state[id] == Grey)
    && (forall id :: id in finished <==> id in state && state[id] == Black)
    && Distinct(stack) && Distinct(finished)
    && (stack != [] ==> Path(g, stack))
  }

  lemma EnterColours(g: Graph, state: map<Id, Colour>, stack: seq<Id>, finished: seq<Id>, id: Id)
    requires Colouring(g, state, stack, finished)
    requires id in g && id !in state && (stack != [] ==> Edge(g, stack[|stack| - 1], id))
    ensures Colouring(g, state[id := Grey], stack + [id], finished)
  {
    hide Edge;
    PathOnward(g, stack, id);
    assert id !in stack && id !in finished;
  }

  lemma LeaveColours(g: Graph, state: map<Id, Colour>, stack: seq<Id>, finished: seq<Id>, id: Id)
    requires Colouring(g, state, stack + [id], finished)
    ensures Colouring(g, state[id := Black], stack, finished + [id])
  {
    var all := stack + [id];
    assert all[|stack|] == id && id in all && id !in finished;
    assert forall i :: 0 <= i < |stack| ==> all[i] == stack[i] && all[i] != all[|stack|];
    assert forall x :: x in all <==> x in stack || x == id;
    assert Distinct(stack) by {
      assert forall i :: 0 <= i < |stack| ==> all[i] == stack[i];
    }
    if stack != [] {
      PathBack(g, stack, id);
    }
  }

  class CycleCheck {
    const graph: Graph
    var state: map<Id, Colour>
    var stack: seq<Id>
    var reports: seq<seq<Id>>
    /** Tasks in the order the walk left them. */
    ghost var finished: seq<Id>

    constructor (graph: Graph)
      ensures this.graph == graph && Valid() && stack == [] && state == map[] && reports == []
    {
      this.graph, state, stack, reports, finished := graph, map[], [], [], [];
    }

    ghost predicate Valid()
      reads this
    {
      && Colouring(graph, state, stack, finished)
      && (forall r <- reports :: Cycle(graph, r))
      && (reports == [] ==> Topological(graph, finished))
    }

    method Walk(id: Id)
      requires Valid() && id in graph && (stack != [] ==> Edge(graph, stack[|stack| - 1], id))
      modifies this
      ensures Valid() && stack == old(stack) && Extends(old(state), state) && id in state
      ensures old(reports) <= reports
      ensures id in state && (reports == old(reports) ==> state[id] == Black)
      decreases Unseen(graph, state), 0
    {
      hide Colouring, Topological, Path, Cycle, Edge, Unseen;
      if id in state && state[id] == Black {
        return;
      }
      if id in state {
        Report(id);
        return;
      }
      Enter(id);
      WalkEach(id);
      Leave(id);
      assert old(stack) == (old(stack) + [id])[..|old(stack)|];
    }

    /** The task is already on the stack: its stretch of the stack is a cycle. */
    method Report(id: Id)
      requires stack != [] ==> Edge(graph, stack[|stack| - 1], id)
      requires Valid() && id in state && state[id] == Grey
      modifies this`reports
      ensures Valid() && |reports| == |old(reports)| + 1 && old(reports) <= reports
      ensures id in stack && reports[|old(reports)|] == stack[IndexOf(stack, id)..] + [id]
    {
      hide Topological;
      assert id in stack;
      ReportIsCycle(graph, stack, id);
      reports := reports + [stack[IndexOf(stack, id)..] + [id]];
    }

    method Enter(id: Id)
      requires Valid() && id in graph && id !in state && (stack != [] ==> Edge(graph, stack[|stack| - 1], id))
      modifies this`state, this`stack
      ensures Valid() && stack == old(stack) + [id] && state == old(state)[id := Grey]
      ensures Unseen(graph, state) < Unseen(graph, old(state))
    {
      hide Topological, Path, Edge, Cycle, Colouring, Unseen;
      EnterColours(graph, state, stack, finished, id);
      OneFewer(graph, state, id);
      state := state[id := Grey];
      stack := stack + [id];
    }

    /** Every dependency the document knows, in turn. */
    method WalkEach(id: Id)
      requires Valid() && stack != [] && stack[|stack| - 1] == id && id in state && state[id] == Grey && id in graph
      modifies this
      ensures Valid() && stack == old(stack) && Extends(old(state), state)
      ensures old(reports) <= reports
      ensures reports == old(reports) ==> AllBlack(graph[id], |graph[id]|)
      decreases Unseen(graph, state), 1
    {
      hide Colouring, Topological, Path;
      var i := 0;
      while i < |graph[id]|
        invariant 0 <= i <= |graph[id]|
        invariant Valid() && stack == old(stack) && Extends(old(state), state)
        invariant old(reports) <= reports
        invariant reports == old(reports) ==> AllBlack(graph[id], i)
      {
        if graph[id][i] in graph {
          ghost var told := reports;
          Fewer(graph.Keys, old(state).Keys, state.Keys);
          label before:
          Walk(graph[id][i]);
          ExtendsAcross(old(state), old@before(state), state);
          assert old(reports) <= told <= reports;
        }
        i := i + 1;
      }
    }

    ghost predicate AllBlack(tasks: seq<Id>, n: nat)
      requires n <= |tasks|
      reads this
    {
      forall i :: 0 <= i < n && tasks[i] in graph ==> tasks[i] in state && state[tasks[i]] == Black
    }

    /** The task comes off the stack and turns black. */
    method Leave(id: Id)
      requires Valid() && stack != [] && stack[|stack| - 1] == id
      requires id in graph && id in state && state[id] == Grey
      requires reports == [] ==> AllBlack(graph[id], |graph[id]|)
      modifies this`stack, this`state, this`finished
      ensures Valid() && stack == old(stack)[..|old(stack)| - 1]
      ensures state == old(state)[id := Black] && finished == old(finished) + [id]
    {
      hide Colouring, Cycle, Path;
      assert stack == stack[..|stack| - 1] + [id];
      LeaveColours(graph, state, stack[..|stack| - 1], finished, id);
      if reports == [] {
        LeaveTopological(graph, finished, id) by {
          BlackIsFinished(graph, state, stack, finished, graph[id]);
        }
      }
      stack := stack[..|stack| - 1];
      state := state[id := Black];
      finished := finished + [id];
    }

    /** The whole check, over the tasks in document order. */
    method CheckAll(order: seq<Id>)
      requires Valid() && stack == [] && state == map[] && reports == []
      requires forall id :: id in order <==> id in graph
      modifies this
      ensures reports != [] <==> exists p :: Cycle(graph, p)
      ensures forall r <- reports :: Cycle(graph, r)
      ensures Distinct(finished) && forall id :: id in finished <==> id in graph
    {
      var i := 0;
      while i < |order|
        invariant 0 <= i <= |order| && Valid() && stack == []
        invariant forall id <- order[..i] :: id in state
      {
        Walk(order[i]);
        i := i + 1;
      }
      assert order[..i] == order;
      assert forall id <- graph :: id in state && id !in stack;
      if reports == [] {
        forall p: seq<Id>
          ensures !Cycle(graph, p)
        {
          TopologicalIsAcyclic(graph, finished, p);
        }
      } else {
        assert Cycle(graph, reports[0]);
      }
    }
  }

  /** How many tasks are still white. */
  ghost function Unseen(g: Graph, state: map<Id, Colour>): nat {
    |g.Keys - state.Keys|
  }

  /** No colour already given has changed. */
  ghost predicate Extends(before: map<Id, Colour>, after: map<Id, Colour>) {
    forall x <- before :: x in after && after[x] == before[x]
  }

  lemma ExtendsAcross(a: map<Id, Colour>, b: map<Id, Colour>, c: map<Id, Colour>)
    requires Extends(a, b) && Extends(b, c)
    ensures Extends(a, c) && a.Keys <= c.Keys
  {
  }

  lemma BlackIsFinished(g: Graph, state: map<Id, Colour>, stack: seq<Id>, finished: seq<Id>, tasks: seq<Id>)
    requires Colouring(g, state, stack, finished)
    requires forall i :: 0 <= i < |tasks| && tasks[i] in g ==> tasks[i] in state && state[tasks[i]] == Black
    ensures forall d <- tasks :: d in g ==> d in finished
  {
  }

  lemma LeaveTopological(g: Graph, finished: seq<Id>, id: Id)
    requires Topological(g, finished) && id in g && forall d <- g[id] :: d in g ==> d in finished
    ensures Topological(g, finished + [id])
  {
    var order := finished + [id];
    forall i, b | 0 <= i < |order| && Edge(g, order[i], b)
      ensures b in order[..i]
    {
      if i < |finished| {
        assert order[..i] == finished[..i];
      } else {
        assert order[..i] == finished;
      }
    }
  }

  lemma PathBack(g: Graph, stack: seq<Id>, id: Id)
    requires stack != [] && Path(g, stack + [id])
    ensures Path(g, stack)
  {
    var all := stack + [id];
    forall i | 0 < i < |stack|
      ensures Edge(g, stack[i - 1], stack[i])
    {
      assert all[i] == stack[i] && all[i - 1] == stack[i - 1];
    }
    forall i | 0 <= i < |stack|
      ensures stack[i] in g
    {
      assert all[i] == stack[i];
    }
  }

  lemma PathOnward(g: Graph, stack: seq<Id>, id: Id)
    requires id in g && (stack != [] ==> Path(g, stack) && Edge(g, stack[|stack| - 1], id))
    ensures Path(g, stack + [id])
  {
  }

  lemma OneFewer(g: Graph, state: map<Id, Colour>, id: Id)
    requires id in g && id !in state
    ensures Unseen(g, state[id := Grey]) < Unseen(g, state)
  {
    assert id in g.Keys - state.Keys;
    assert g.Keys - state[id := Grey].Keys < g.Keys - state.Keys;
    Smaller(g.Keys - state[id := Grey].Keys, g.Keys - state.Keys);
  }

  /** From where the task sits on the stack up to the top, and back to it. */
  lemma ReportIsCycle(g: Graph, stack: seq<Id>, id: Id)
    requires id in stack && Path(g, stack) && Edge(g, stack[|stack| - 1], id)
    ensures Cycle(g, stack[IndexOf(stack, id)..] + [id])
  {
    var from := IndexOf(stack, id);
    var p := stack[from..] + [id];
    forall i | 0 < i < |p|
      ensures Edge(g, p[i - 1], p[i])
    {
      if i < |p| - 1 {
        assert p[i] == stack[from + i] && p[i - 1] == stack[from + i - 1];
      }
    }
  }

  lemma {:induction false} Smaller<T(!new)>(a: set<T>, b: set<T>)
    requires a < b
    ensures |a| < |b|
  {
    var x :| x in b && x !in a;
    assert a <= b - {x};
    Listings.SubsetIsNoLarger(a, b - {x});
  }

  lemma Fewer(all: set<Id>, before: set<Id>, after: set<Id>)
    requires before <= after
    ensures |all - after| <= |all - before|
  {
    Listings.SubsetIsNoLarger(all - after, all - before);
  }
}
