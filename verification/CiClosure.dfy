/**
 `ci-closure.py`: which workspace members are in the dependency closure of a set
 of packages, by a worklist over the resolve graph.
 */
module CiClosure {
  type Id = string
  type Name = string

  /** The resolve graph: workspace members, their package names, and every node's dependencies. */
  datatype Graph = Graph(members: set<Id>, names: map<Id, Name>, deps: map<Id, seq<Id>>)

  predicate Valid(g: Graph) {
    g.members <= g.names.Keys && g.members <= g.deps.Keys
  }

  predicate Edge(g: Graph, a: Id, b: Id) {
    a in g.members && a in g.deps && b in g.deps[a] && b in g.members
  }

  ghost predicate IsPath(g: Graph, p: seq<Id>) {
    p != [] && forall i, j :: 0 <= i < j < |p| && j == i + 1 ==> Edge(g, p[i], p[j])
  }

  /** A chain of member-to-member edges leads from some start to `b`. */
  ghost predicate Reaches(g: Graph, starts: set<Id>, b: Id) {
    exists p :: IsPath(g, p) && p[0] in starts && p[|p| - 1] == b
  }

  lemma ReachesStart(g: Graph, starts: set<Id>, a: Id)
    requires a in starts
    ensures Reaches(g, starts, a)
  {
    assert IsPath(g, [a]);
  }

  lemma ReachesNext(g: Graph, starts: set<Id>, a: Id, b: Id)
    requires Reaches(g, starts, a) && Edge(g, a, b)
    ensures Reaches(g, starts, b)
  {
    var p :| IsPath(g, p) && p[0] in starts && p[|p| - 1] == a;
    var q := p + [b];
    assert IsPath(g, q) && q[0] in starts && q[|q| - 1] == b;
  }

  lemma {:induction false} ClosedHoldsPath(g: Graph, seen: set<Id>, p: seq<Id>, n: nat)
    requires IsPath(g, p) && n < |p| && p[0] in seen
    requires forall a, b :: a in seen && Edge(g, a, b) ==> b in seen
    ensures p[n] in seen
  {
    if n > 0 {
      ClosedHoldsPath(g, seen, p, n - 1);
      assert Edge(g, p[n - 1], p[n]);
    }
  }

  /** The worklist's invariant: everything kept is reachable, every edge out of `seen` is kept. */
  ghost predicate Working(g: Graph, starts: set<Id>, seen: set<Id>, stack: seq<Id>) {
    && seen <= g.members && (forall a :: a in stack ==> a in g.members)
    && (forall a :: a in starts ==> a in seen || a in stack)
    && (forall a :: a in seen || a in stack ==> Reaches(g, starts, a))
    && (forall a, b :: a in seen && Edge(g, a, b) ==> b in seen || b in stack)
  }

  lemma WorkStarts(g: Graph, starts: set<Id>, start: seq<Id>)
    requires (forall a :: a in start ==> a in g.members) && forall a :: a in starts <==> a in start
    ensures Working(g, starts, {}, start)
  {
    forall a | a in start
      ensures Reaches(g, starts, a)
    {
      ReachesStart(g, starts, a);
    }
  }

  lemma WorkVisits(g: Graph, starts: set<Id>, seen: set<Id>, below: seq<Id>, i: Id, stack: seq<Id>)
    requires Working(g, starts, seen, below + [i])
    requires forall a :: a in stack <==> a in below || Edge(g, i, a)
    ensures Working(g, starts, seen + {i}, stack)
  {
    assert i in below + [i];
    forall b | Edge(g, i, b)
      ensures Reaches(g, starts, b)
    {
      ReachesNext(g, starts, i, b);
    }
    assert forall a :: a in below ==> a in below + [i];
  }

  lemma WorkSkips(g: Graph, starts: set<Id>, seen: set<Id>, below: seq<Id>, i: Id)
    requires Working(g, starts, seen, below + [i]) && i in seen
    ensures Working(g, starts, seen, below)
  {
    assert forall a :: a in below + [i] <==> a in below || a == i;
  }

  lemma WorkEnds(g: Graph, starts: set<Id>, seen: set<Id>)
    requires Working(g, starts, seen, [])
    ensures forall b :: b in seen <==> Reaches(g, starts, b)
  {
    forall b | Reaches(g, starts, b)
      ensures b in seen
    {
      var p :| IsPath(g, p) && p[0] in starts && p[|p| - 1] == b;
      ClosedHoldsPath(g, seen, p, |p| - 1);
    }
  }

  /** The worklist: what it has seen when the stack is empty is exactly what the starts reach. */
  method Closure(g: Graph, start: seq<Id>) returns (seen: set<Id>)
    requires Valid(g) && forall a :: a in start ==> a in g.members
    ensures forall b :: b in seen <==> Reaches(g, (set a | a in start), b)
  {
    ghost var starts := set a | a in start;
    seen := {};
    var stack := start;
    WorkStarts(g, starts, start);
    while stack != []
      invariant Working(g, starts, seen, stack)
      decreases g.members - seen, |stack|
    {
      var i := stack[|stack| - 1];
      var below := stack[..|stack| - 1];
      assert stack == below + [i];
      if i in seen {
        WorkSkips(g, starts, seen, below, i);
        stack := below;
      } else {
        assert i in g.members;
        stack := PushMembers(g, below, i);
        WorkVisits(g, starts, seen, below, i, stack);
        seen := seen + {i};
      }
    }
    WorkEnds(g, starts, seen);
  }

  /** The inner loop: push the member dependencies of `i`. */
  method PushMembers(g: Graph, below: seq<Id>, i: Id) returns (stack: seq<Id>)
    requires i in g.members && i in g.deps
    ensures forall a :: a in stack <==> a in below || Edge(g, i, a)
  {
    stack := below;
    for k := 0 to |g.deps[i]|
      invariant forall a :: a in stack <==> a in below || (a in g.deps[i][..k] && a in g.members)
    {
      assert g.deps[i][..k + 1] == g.deps[i][..k] + [g.deps[i][k]];
      if g.deps[i][k] in g.members {
        stack := stack + [g.deps[i][k]];
      }
    }
    assert g.deps[i][..|g.deps[i]|] == g.deps[i];
  }

  // ----- the command -----

  datatype Mode = Of | Except | Own

  /** The members the walk starts from. */
  function StartSet(g: Graph, mode: Mode, targets: set<Name>): set<Id>
    requires Valid(g)
  {
    set i | i in g.members && (if mode == Except then g.names[i] !in targets else g.names[i] in targets)
  }

  datatype Result = Tagged(inside: set<Id>) | UnknownOrEmpty

  /** What `main` tags IN: refusals first, then the closure, or with `--own` the start set alone. */
  ghost predicate Answers(g: Graph, mode: Mode, targets: set<Name>, r: Result)
    requires Valid(g)
  {
    var known := set i | i in g.members :: g.names[i];
    var start := StartSet(g, mode, targets);
    if !(targets <= known) || start == {} then r == UnknownOrEmpty
    else
      && r.Tagged?
      && forall b :: b in r.inside <==> if mode == Own then b in start else Reaches(g, start, b)
  }

  method TagMembers(g: Graph, mode: Mode, targets: set<Name>) returns (r: Result)
    requires Valid(g)
    ensures Answers(g, mode, targets, r)
  {
    var known := set i | i in g.members :: g.names[i];
    var start := StartSet(g, mode, targets);
    if targets - known != {} {
      ghost var t :| t in targets - known;
      return UnknownOrEmpty;
    }
    assert targets <= known by {
      forall t | t in targets
        ensures t in known
      {
        assert t !in targets - known;
      }
    }
    if start == {} {
      return UnknownOrEmpty;
    }
    if mode == Own {
      return Tagged(start);
    }
    var list := ToSeq(start);
    var seen := Closure(g, list);
    assert (set a | a in list) == start;
    r := Tagged(seen);
  }

  method ToSeq(s: set<Id>) returns (list: seq<Id>)
    ensures forall a :: a in list <==> a in s
  {
    list := [];
    var todo := s;
    while todo != {}
      invariant forall a :: a in s <==> a in list || a in todo
    {
      var a :| a in todo;
      list := list + [a];
      todo := todo - {a};
    }
  }

  // ----- the answer, by names -----

  /** `--own`: exactly the listed packages. */
  lemma OwnIsTheListed(g: Graph, targets: set<Name>, r: Result, b: Id)
    requires Valid(g) && Answers(g, Own, targets, r) && r.Tagged?
    ensures b in r.inside <==> b in g.members && g.names[b] in targets
  {
  }

  /** A listed package and everything it depends on: each listed one is in, with its dependencies, and nothing else is. */
  lemma OfIsTheListedClosure(g: Graph, targets: set<Name>, r: Result, b: Id)
    requires Valid(g) && Answers(g, Of, targets, r) && r.Tagged?
    ensures b in r.inside <==> exists a :: a in g.members && g.names[a] in targets && Reaches(g, {a}, b)
    ensures b in g.members && g.names[b] in targets ==> b in r.inside
  {
    ClosureIsUnion(g, StartSet(g, Of, targets), b);
    if b in g.members && g.names[b] in targets { ReachesStart(g, StartSet(g, Of, targets), b); }
  }

  /** `--except`: the same from the packages that are not listed. */
  lemma ExceptIsTheOthersClosure(g: Graph, targets: set<Name>, r: Result, b: Id)
    requires Valid(g) && Answers(g, Except, targets, r) && r.Tagged?
    ensures b in r.inside <==> exists a :: a in g.members && g.names[a] !in targets && Reaches(g, {a}, b)
    ensures b in g.members && g.names[b] !in targets ==> b in r.inside
  {
    ClosureIsUnion(g, StartSet(g, Except, targets), b);
    if b in g.members && g.names[b] !in targets { ReachesStart(g, StartSet(g, Except, targets), b); }
  }

  /** What is inside brings the members among its direct dependencies. */
  lemma DependenciesAreInside(g: Graph, mode: Mode, targets: set<Name>, r: Result, a: Id, b: Id)
    requires Valid(g) && Answers(g, mode, targets, r) && r.Tagged? && mode != Own
    requires a in r.inside && a in g.members && b in g.deps[a] && b in g.members
    ensures b in r.inside
  {
    ReachesNext(g, StartSet(g, mode, targets), a, b);
  }

  /** And nothing is inside but starts and direct dependencies of what is inside. */
  lemma InsideIsNeeded(g: Graph, mode: Mode, targets: set<Name>, r: Result, b: Id)
    requires Valid(g) && Answers(g, mode, targets, r) && r.Tagged? && b in r.inside
    ensures b in g.members
    ensures (if mode == Except then g.names[b] !in targets else g.names[b] in targets)
            || exists a :: a in r.inside && a in g.members && b in g.deps[a]
  {
    if mode != Own {
      var p :| IsPath(g, p) && p[0] in StartSet(g, mode, targets) && p[|p| - 1] == b;
      if |p| > 1 {
        var a := LastStep(g, p, StartSet(g, mode, targets));
        assert a in r.inside;
      }
    }
  }

  lemma LastStep(g: Graph, p: seq<Id>, starts: set<Id>) returns (a: Id)
    requires IsPath(g, p) && |p| > 1 && p[0] in starts
    ensures Reaches(g, starts, a) && Edge(g, a, p[|p| - 1])
  {
    var q := p[..|p| - 1];
    a := q[|q| - 1];
    assert IsPath(g, q) && q[0] in starts;
    assert Edge(g, p[|p| - 2], p[|p| - 1]);
  }

  /** Without edges between members the closure adds nothing: `--of` tags the listed packages, `--except` the others. */
  lemma NoEdgesNoMore(g: Graph, mode: Mode, targets: set<Name>, r: Result, b: Id)
    requires Valid(g) && Answers(g, mode, targets, r) && r.Tagged? && b in g.members && forall x, y :: !Edge(g, x, y)
    ensures b in r.inside <==> (if mode == Except then g.names[b] !in targets else g.names[b] in targets)
  {
    if b in r.inside && mode != Own {
      var p :| IsPath(g, p) && p[0] in StartSet(g, mode, targets) && p[|p| - 1] == b;
      FirstStep(g, p);
    }
    if b in StartSet(g, mode, targets) { ReachesStart(g, StartSet(g, mode, targets), b); }
  }

  lemma FirstStep(g: Graph, p: seq<Id>)
    requires IsPath(g, p)
    ensures |p| > 1 ==> Edge(g, p[0], p[1])
  {
  }

  /** Refused exactly for a listed name that no member has, or for a walk with no start. */
  lemma RefusedExactly(g: Graph, mode: Mode, targets: set<Name>, r: Result)
    requires Valid(g) && Answers(g, mode, targets, r)
    ensures r.UnknownOrEmpty? <==>
            || (exists t :: t in targets && forall i :: i in g.members ==> g.names[i] != t)
            || (forall i :: i in g.members ==> (if mode == Except then g.names[i] in targets else g.names[i] !in targets))
  {
    var known := set i | i in g.members :: g.names[i];
    if t :| t in targets && forall i :: i in g.members ==> g.names[i] != t {
      assert t !in known;
    }
    if forall i :: i in g.members ==> (if mode == Except then g.names[i] in targets else g.names[i] !in targets) {
      assert StartSet(g, mode, targets) == {};
    }
    if i :| i in g.members && !(if mode == Except then g.names[i] in targets else g.names[i] !in targets) {
      assert i in StartSet(g, mode, targets);
    }
  }

  /** A closure of several packages is the union of theirs, so `--except` is the union over every unnamed member. */
  lemma ClosureIsUnion(g: Graph, starts: set<Id>, b: Id)
    ensures Reaches(g, starts, b) <==> exists a :: a in starts && Reaches(g, {a}, b)
  {
    if Reaches(g, starts, b) {
      var p :| IsPath(g, p) && p[0] in starts && p[|p| - 1] == b;
      assert Reaches(g, {p[0]}, b);
    }
    if a :| a in starts && Reaches(g, {a}, b) {
      var p :| IsPath(g, p) && p[0] in {a} && p[|p| - 1] == b;
      assert p[0] in starts;
    }
  }

  /**
   `--except` is not the complement of the named packages' closure: a named
   member is IN whenever an unnamed one reaches it.
   */
  lemma ExceptKeepsNeeded(g: Graph, targets: set<Name>, a: Id, b: Id)
    requires Valid(g) && a in StartSet(g, Except, targets) && b in StartSet(g, Of, targets)
    requires Reaches(g, {a}, b)
    ensures Reaches(g, StartSet(g, Except, targets), b) && Reaches(g, StartSet(g, Of, targets), b)
  {
    ClosureIsUnion(g, StartSet(g, Except, targets), b);
    ReachesStart(g, StartSet(g, Of, targets), b);
  }
}
