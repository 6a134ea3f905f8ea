/** Prerequisite checking of the lesson catalogue: three-colour depth-first search with a mutable path. It
    terminates on every finite graph, finds a cycle exactly when there is one, and what it finds is one. */
module LessonGraph {
  import opened Wrappers

  /** `order` is the dictionary's insertion order. A prerequisite may name no lesson. */
  datatype Graph = Graph(order: seq<string>, prereqs: map<string, seq<string>>)

  ghost predicate ValidGraph(g: Graph)
  {
    && (forall l :: l in g.order <==> l in g.prereqs)
    && (forall i, j :: 0 <= i < j < |g.order| ==> g.order[i] != g.order[j])
  }

  predicate Edge(g: Graph, a: string, b: string) { a in g.prereqs && b in g.prereqs && b in g.prereqs[a] }

  ghost predicate Walk(g: Graph, w: seq<string>) { forall i :: 0 <= i < |w| - 1 ==> Edge(g, w[i], w[i + 1]) }

  ghost predicate ClosedWalk(g: Graph, w: seq<string>)
  {
    |w| >= 2 && w[0] == w[|w| - 1] && Walk(g, w)
  }

  ghost predicate Acyclic(g: Graph) { forall w :: !ClosedWalk(g, w) }

  predicate Distinct(s: seq<string>) { forall i, j :: 0 <= i < j < |s| ==> s[i] != s[j] }

  /** Every known prerequisite of a listed lesson stands before it. */
  ghost predicate Ordered(g: Graph, s: seq<string>)
  {
    forall i, b :: 0 <= i < |s| && Edge(g, s[i], b) ==> b in s[..i]
  }

  function FirstIndex(s: seq<string>, x: string): (i: nat)
    requires x in s
    ensures i < |s| && s[i] == x && forall j :: 0 <= j < i ==> s[j] != x
  {
    if s[0] == x then 0 else 1 + FirstIndex(s[1..], x)
  }

  /** Along a walk through an ordered list the first indices fall. */
  lemma {:induction false} WalkDescends(g: Graph, s: seq<string>, w: seq<string>, k: nat)
    requires Ordered(g, s) && Walk(g, w) && k < |w| && w[0] in s
    ensures w[k] in s && FirstIndex(s, w[k]) + k <= FirstIndex(s, w[0])
  {
    if k > 0 {
      WalkDescends(g, s, w, k - 1);
      var i := FirstIndex(s, w[k - 1]);
      assert Edge(g, s[i], w[k - 1 + 1]);
      var j :| 0 <= j < i && s[..i][j] == w[k];
      assert s[j] == w[k];
    }
  }

  /** A list of all lessons with prerequisites first rules out every cycle. */
  lemma OrderedIsAcyclic(g: Graph, s: seq<string>)
    requires Ordered(g, s) && forall l :: l in g.prereqs ==> l in s
    ensures Acyclic(g)
  {
    forall w ensures !ClosedWalk(g, w) {
      if ClosedWalk(g, w) {
        assert Edge(g, w[0], w[0 + 1]);
        WalkDescends(g, s, w, |w| - 1);
      }
    }
  }

  datatype Color = White | Gray | Black

  /** Gray lessons are the path, a walk of distinct nodes; black ones are finished, prerequisites first. */
  ghost predicate Consistent(g: Graph, color: map<string, Color>, path: seq<string>, finished: seq<string>)
  {
    && color.Keys == g.prereqs.Keys
    && (forall l :: l in color && color[l] == Gray <==> l in path)
    && (forall l :: l in color && color[l] == Black <==> l in finished)
    && Distinct(path) && Walk(g, path)
    && Ordered(g, finished)
  }

  ghost function Whites(color: map<string, Color>): set<string> { set l | l in color && color[l] == White }

  lemma Enter(g: Graph, color: map<string, Color>, path: seq<string>, finished: seq<string>, lid: string)
    requires Consistent(g, color, path, finished) && lid in color && color[lid] == White
    requires path != [] ==> Edge(g, path[|path| - 1], lid)
    ensures Consistent(g, color[lid := Gray], path + [lid], finished)
    ensures Whites(color[lid := Gray]) < Whites(color)
  {
    hide Edge;
    assert lid in Whites(color) && lid !in Whites(color[lid := Gray]);
    var p := path + [lid];
    forall i | 0 <= i < |p| - 1 ensures Edge(g, p[i], p[i + 1]) {
      if i < |path| - 1 { assert Edge(g, path[i], path[i + 1]); }
    }
  }

  lemma Leave(g: Graph, color: map<string, Color>, path: seq<string>, finished: seq<string>, lid: string)
    requires Consistent(g, color, path + [lid], finished)
    requires lid in g.prereqs && forall b :: b in g.prereqs[lid] && b in g.prereqs ==> b in finished
    ensures Consistent(g, color[lid := Black], path, finished + [lid])
    ensures Whites(color[lid := Black]) == Whites(color)
  {
    var p, f := path + [lid], finished + [lid];
    assert p[|path|] == lid && lid in p;
    forall i | 0 <= i < |path| - 1 ensures Edge(g, path[i], path[i + 1]) { assert Edge(g, p[i], p[i + 1]); }
    forall i, b | 0 <= i < |f| && Edge(g, f[i], b) ensures b in f[..i] {
      if i < |finished| {
        assert f[..i] == finished[..i] && Edge(g, finished[i], b);
      } else {
        assert f[..i] == finished;
      }
    }
    assert forall i :: 0 <= i < |path| ==> path[i] == p[i];
    assert forall i :: 0 <= i < |path| ==> p[i] != p[|path|];
    assert forall l :: l in p <==> l in path || l == lid;
    assert forall l :: l in f <==> l in finished || l == lid;
  }

  lemma OnPath(g: Graph, color: map<string, Color>, path: seq<string>, finished: seq<string>, x: string)
    requires Consistent(g, color, path, finished)
    ensures color.Keys == g.prereqs.Keys && Walk(g, path) && Distinct(path)
    ensures x in color ==> (color[x] == Gray <==> x in path) && (color[x] == Black <==> x in finished)
  {
  }

  class CycleFinder {
    const g: Graph
    var color: map<string, Color>
    var path: seq<string>
    ghost var finished: seq<string>

    ghost predicate Valid()
      reads this
    {
      Consistent(g, color, path, finished)
    }

    constructor (g: Graph)
      ensures this.g == g && Valid() && path == [] && finished == []
    {
      this.g := g;
      color := map l | l in g.prereqs :: White;
      path, finished := [], [];
    }

    /** Depth-first visit. None: everything reachable is finished and the path is as it was. */
    method Visit(lid: string) returns (result: Option<seq<string>>)
      requires Valid() && lid in color && color[lid] == White
      requires path != [] ==> Edge(g, path[|path| - 1], lid)
      modifies this
      ensures result.Some? ==> ClosedWalk(g, result.value) && Distinct(result.value[1..])
      ensures result.None? ==> Valid() && path == old(path) && old(finished) <= finished && lid in finished
      ensures result.None? ==> Whites(color) < Whites(old(color))
      decreases Whites(color)
    {
      hide Consistent, Walk, Distinct, Ordered, Whites, ClosedWalk;
      OnPath(g, color, path, finished, lid);
      Enter(g, color, path, finished, lid);
      color := color[lid := Gray];
      path := path + [lid];
      var prereqs := g.prereqs[lid];
      for i := 0 to |prereqs|
        invariant Valid() && path == old(path) + [lid] && old(finished) <= finished
        invariant Whites(color) < Whites(old(color))
        invariant forall j :: 0 <= j < i && prereqs[j] in g.prereqs ==> prereqs[j] in finished
      {
        var prereq := prereqs[i];
        OnPath(g, color, path, finished, prereq);
        assert path[|path| - 1] == lid && prereq in g.prereqs[lid];
        if prereq in color && color[prereq] == Gray {
          var start := FirstIndex(path, prereq);
          result := Some(path[start..] + [prereq]);
          CycleOfPath(g, path, start, prereq);
          return;
        }
        if prereq in color && color[prereq] == White {
          result := Visit(prereq);
          if result.Some? { return; }
        }
      }
      Leave(g, color, old(path), finished, lid);
      path := path[..|path| - 1];
      color := color[lid := Black];
      finished := finished + [lid];
      assert path == old(path);
      result := None;
    }
  }

  /** Closing the path at an earlier node of it gives a simple cycle. */
  lemma CycleOfPath(g: Graph, path: seq<string>, start: nat, x: string)
    requires Walk(g, path) && Distinct(path) && start < |path| && path[start] == x && Edge(g, path[|path| - 1], x)
    ensures ClosedWalk(g, path[start..] + [x]) && Distinct((path[start..] + [x])[1..])
  {
    var w := path[start..] + [x];
    forall i | 0 <= i < |w| - 1 ensures Edge(g, w[i], w[i + 1]) {
      if start + i + 1 < |path| { assert Edge(g, path[start + i], path[start + i + 1]); }
    }
  }

  lemma CycleIsNotAcyclic(g: Graph, w: seq<string>)
    requires ClosedWalk(g, w)
    ensures !Acyclic(g)
  {
  }

  lemma FinishedAreLessons(g: Graph, color: map<string, Color>, path: seq<string>, finished: seq<string>)
    requires Consistent(g, color, path, finished)
    ensures Ordered(g, finished) && forall l :: l in finished ==> l in g.prereqs
  {
    forall l | l in finished ensures l in g.prereqs { assert l in color; }
  }

  /** `_lesson_prereq_cycle`. None exactly on acyclic graphs, with an order of study as evidence; otherwise a
      closed walk over real prerequisite edges that visits no lesson twice before it closes. */
  method PrereqCycle(g: Graph) returns (result: Option<seq<string>>, ghost order: seq<string>)
    requires ValidGraph(g)
    ensures result.None? <==> Acyclic(g)
    ensures result.Some? ==> ClosedWalk(g, result.value) && Distinct(result.value[1..])
    ensures result.None? ==> Ordered(g, order) && forall l :: l in g.prereqs <==> l in order
  {
    hide Consistent, Ordered, ClosedWalk, Walk, Acyclic, Distinct, Whites;
    var finder := new CycleFinder(g);
    order := [];
    for i := 0 to |g.order|
      invariant fresh(finder) && finder.g == g && finder.Valid() && finder.path == []
      invariant forall j :: 0 <= j < i ==> g.order[j] in finder.finished
    {
      var lid := g.order[i];
      OnPath(g, finder.color, finder.path, finder.finished, lid);
      if finder.color[lid] == White {
        result := finder.Visit(lid);
        if result.Some? {
          CycleIsNotAcyclic(g, result.value);
          return;
        }
      }
    }
    FinishedAreLessons(g, finder.color, finder.path, finder.finished);
    OrderedIsAcyclic(g, finder.finished);
    order := finder.finished;
    result := None;
  }

  datatype CatalogueError = TooFewLessons | Dangling(lesson: string, prereq: string) | Cycle(lessons: seq<string>)

  /** The graph checks of `load_lessons`, in its order. A catalogue passes exactly when it has six lessons, every
      prerequisite is a lesson and some order of study puts every prerequisite before what needs it. */
  method CheckLessons(g: Graph) returns (r: Result<(), CatalogueError>)
    requires ValidGraph(g)
    ensures r.Ok? <==> && |g.order| >= 6 && (forall l, p :: l in g.prereqs && p in g.prereqs[l] ==> p in g.prereqs)
                       && exists s: seq<string> :: StudyOrder(g, s)
    ensures r.Err? && r.error.Dangling? ==>
              && r.error.lesson in g.prereqs && r.error.prereq in g.prereqs[r.error.lesson]
              && r.error.prereq !in g.prereqs
    ensures r.Err? && r.error.Cycle? ==> ClosedWalk(g, r.error.lessons)
  {
    if |g.order| < 6 { return Err(TooFewLessons); }
    for i := 0 to |g.order|
      invariant forall j, p :: 0 <= j < i && p in g.prereqs[g.order[j]] ==> p in g.prereqs
    {
      var prereqs := g.prereqs[g.order[i]];
      for k := 0 to |prereqs|
        invariant forall m :: 0 <= m < k ==> prereqs[m] in g.prereqs
      {
        if prereqs[k] !in g.prereqs { return Err(Dangling(g.order[i], prereqs[k])); }
      }
    }
    var cycle, order := PrereqCycle(g);
    if cycle.Some? {
      forall s: seq<string> ensures !StudyOrder(g, s) {
        if StudyOrder(g, s) {
          assert Ordered(g, s);
          OrderedIsAcyclic(g, s);
        }
      }
      return Err(Cycle(cycle.value));
    }
    assert StudyOrder(g, order);
    return Ok(());
  }

  /** Every lesson, and each after all of its prerequisites. */
  ghost predicate StudyOrder(g: Graph, s: seq<string>)
  {
    && (forall l :: l in g.prereqs <==> l in s)
    && (forall i, p :: 0 <= i < |s| && p in g.prereqs[s[i]] ==> p in s[..i])
  }
}
