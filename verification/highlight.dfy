/**
 * Highlighting the dependencies of a selected bean. `markDependencies` marks
 * every link that leaves the selection and, when the transitive box is ticked,
 * recurses into each link's target. The recursion has no record of what it
 * already visited, so a dependency cycle makes it recurse until the call stack
 * overflows. `MarkDependencies` below is the traversal with a visited set: it
 * marks exactly the links whose source is reachable from the selection.
 * `RecMark` is the recursion as written, with a depth bound standing in for the
 * call stack; it agrees with `MarkDependencies` whenever it finishes, it
 * finishes on every acyclic graph, and it never finishes once a cycle is
 * reachable. A marked link is identified by its position in the link list.
 */
module Highlight {
  import opened Report
  import opened GraphSpec

  // ---------------------------------------------------------------------
  // Reachability along links
  // ---------------------------------------------------------------------

  /** Some link goes from `a` to `b`. */
  predicate Edge(links: seq<Link>, a: string, b: string)
  {
    exists i :: 0 <= i < |links| && links[i].source == a && links[i].target == b
  }

  /** `p` follows links from its first name to its last. */
  predicate IsWalk(links: seq<Link>, p: seq<string>)
  {
    |p| >= 1 && forall j :: 0 <= j < |p| - 1 ==> Edge(links, p[j], p[j + 1])
  }

  ghost predicate Reachable(links: seq<Link>, from: string, to: string)
  {
    exists p :: IsWalk(links, p) && p[0] == from && p[|p| - 1] == to
  }

  /** The links leaving `id`: what the non-transitive highlight marks. */
  function DirectLinks(links: seq<Link>, id: string): set<nat>
  {
    set i: nat | i < |links| && links[i].source == id
  }

  /** The links whose source can be reached from `id`: what the transitive highlight should mark. */
  ghost function ReachableLinks(links: seq<Link>, id: string): set<nat>
  {
    set i: nat | i < |links| && Reachable(links, id, links[i].source)
  }

  /** The marking the highlight is meant to produce. */
  ghost function MarkSpec(links: seq<Link>, id: string, transitive: bool): set<nat>
  {
    if transitive then ReachableLinks(links, id) else DirectLinks(links, id)
  }

  /** The targets of the links leaving `id`. */
  function Successors(links: seq<Link>, id: string): set<string>
  {
    set i | 0 <= i < |links| && links[i].source == id :: links[i].target
  }

  /** A set no link leads out of. */
  ghost predicate ClosedUnder(links: seq<Link>, s: set<string>)
  {
    forall i :: 0 <= i < |links| && links[i].source in s ==> links[i].target in s
  }

  lemma ReachableSelf(links: seq<Link>, x: string)
    ensures Reachable(links, x, x)
  {
    assert IsWalk(links, [x]);
  }

  /** A link out of a reachable name leads to a reachable name. */
  lemma ReachableExtend(links: seq<Link>, from: string, i: nat)
    requires i < |links| && Reachable(links, from, links[i].source)
    ensures Reachable(links, from, links[i].target)
  {
    var p :| IsWalk(links, p) && p[0] == from && p[|p| - 1] == links[i].source;
    var q := p + [links[i].target];
    forall j | 0 <= j < |q| - 1 ensures Edge(links, q[j], q[j + 1]) {
      if j < |p| - 1 {
        assert q[j] == p[j] && q[j + 1] == p[j + 1];
      } else {
        assert q[j] == links[i].source && q[j + 1] == links[i].target;
      }
    }
    assert IsWalk(links, q) && q[0] == from && q[|q| - 1] == links[i].target;
  }

  /** Whatever a link's target reaches, its source reaches too. */
  lemma ReachablePrepend(links: seq<Link>, i: nat, to: string)
    requires i < |links| && Reachable(links, links[i].target, to)
    ensures Reachable(links, links[i].source, to)
  {
    var p :| IsWalk(links, p) && p[0] == links[i].target && p[|p| - 1] == to;
    var q := [links[i].source] + p;
    forall j | 0 <= j < |q| - 1 ensures Edge(links, q[j], q[j + 1]) {
      if j > 0 {
        assert q[j] == p[j - 1] && q[j + 1] == p[j];
      } else {
        assert q[0] == links[i].source && q[1] == links[i].target;
      }
    }
    assert IsWalk(links, q) && q[0] == links[i].source && q[|q| - 1] == to;
  }

  /** A name reachable from `from` is `from` itself or reachable from the target of a link leaving `from`. */
  lemma ReachableFirstStep(links: seq<Link>, from: string, to: string)
    requires Reachable(links, from, to)
    ensures to == from || exists i :: 0 <= i < |links| && links[i].source == from && Reachable(links, links[i].target, to)
  {
    var p :| IsWalk(links, p) && p[0] == from && p[|p| - 1] == to;
    if |p| > 1 {
      assert Edge(links, p[0], p[1]);
      var i :| 0 <= i < |links| && links[i].source == p[0] && links[i].target == p[1];
      var q := p[1..];
      forall j | 0 <= j < |q| - 1 ensures Edge(links, q[j], q[j + 1]) {
        assert q[j] == p[j + 1] && q[j + 1] == p[j + 2];
      }
      assert IsWalk(links, q) && q[0] == links[i].target && q[|q| - 1] == to;
    }
  }

  /** A walk that starts inside a closed set stays inside it. */
  lemma {:induction false} ClosedKeepsWalk(links: seq<Link>, s: set<string>, p: seq<string>)
    requires ClosedUnder(links, s) && IsWalk(links, p) && p[0] in s
    ensures p[|p| - 1] in s
    decreases |p|
  {
    if |p| > 1 {
      var q := p[..|p| - 1];
      forall j | 0 <= j < |q| - 1 ensures Edge(links, q[j], q[j + 1]) {
        assert q[j] == p[j] && q[j + 1] == p[j + 1];
      }
      ClosedKeepsWalk(links, s, q);
      assert Edge(links, p[|p| - 2], p[|p| - 1]);
      var i :| 0 <= i < |links| && links[i].source == p[|p| - 2] && links[i].target == p[|p| - 1];
    }
  }

  // ---------------------------------------------------------------------
  // The traversal with a visited set
  // ---------------------------------------------------------------------

  /**
   * `markDependencies(id, transitive)` with a visited set: without the
   * transitive flag the links leaving `id`; with it, every link whose source
   * is reachable from `id`. Each name is expanded at most once.
   */
  method MarkDependencies(links: seq<Link>, id: string, transitive: bool) returns (marked: set<nat>)
    ensures marked == MarkSpec(links, id, transitive)
  {
    if !transitive {
      return DirectLinks(links, id);
    }
    ghost var names := {id} + set i | 0 <= i < |links| :: links[i].target;
    var visited := {id};
    var work := {id};
    marked := {};
    ReachableSelf(links, id);
    while work != {}
      invariant work <= visited <= names
      invariant id in visited
      invariant forall v :: v in visited ==> Reachable(links, id, v)
      invariant ExpandedAll(links, visited, visited - work)
      invariant marked == LinksFrom(links, visited - work)
      decreases names - visited, |work|
    {
      var a :| a in work;
      var next := Successors(links, a) - visited;
      VisitStep(links, id, visited, work, a, next);
      VisitShrinks(links, id, names, visited, work, a, next);
      marked := marked + DirectLinks(links, a);
      visited := visited + next;
      work := work - {a} + next;
    }
    VisitedAll(links, id, visited);
  }

  /** The links leaving some name of `s`. */
  ghost function LinksFrom(links: seq<Link>, s: set<string>): set<nat>
  {
    set i: nat | i < |links| && links[i].source in s
  }

  /** Every link leaving a name of `done` leads into `visited`. */
  ghost predicate ExpandedAll(links: seq<Link>, visited: set<string>, done: set<string>)
  {
    forall i :: 0 <= i < |links| && links[i].source in done ==> links[i].target in visited
  }

  /** Expanding `a`: it joins the expanded names, and its new successors join the visited ones and are reachable. */
  lemma VisitStep(links: seq<Link>, id: string, visited: set<string>, work: set<string>, a: string, next: set<string>)
    requires a in work && work <= visited
    requires next == Successors(links, a) - visited
    requires forall v :: v in visited ==> Reachable(links, id, v)
    requires ExpandedAll(links, visited, visited - work)
    ensures (visited + next) - (work - {a} + next) == (visited - work) + {a}
    ensures ExpandedAll(links, visited + next, (visited - work) + {a})
    ensures LinksFrom(links, visited - work) + DirectLinks(links, a) == LinksFrom(links, (visited - work) + {a})
    ensures forall t :: t in next ==> Reachable(links, id, t)
  {
    forall t | t in next ensures Reachable(links, id, t) {
      var i :| 0 <= i < |links| && links[i].source == a && links[i].target == t;
      ReachableExtend(links, id, i);
    }
    assert (visited + next) - (work - {a} + next) == (visited - work) + {a};
    forall i | 0 <= i < |links| && links[i].source in (visited - work) + {a}
      ensures links[i].target in visited + next
    {
      if links[i].source == a {
        assert links[i].target in Successors(links, a);
      }
    }
  }

  /** Expanding `a` either visits a new name, all of them among `names`, or leaves less work. */
  lemma VisitShrinks(links: seq<Link>, id: string, names: set<string>, visited: set<string>, work: set<string>,
                     a: string, next: set<string>)
    requires names == {id} + set i | 0 <= i < |links| :: links[i].target
    requires a in work && work <= visited <= names
    requires next == Successors(links, a) - visited
    ensures visited + next <= names
    ensures names - (visited + next) < names - visited
         || (names - (visited + next) == names - visited && |work - {a} + next| < |work|)
  {
    forall t | t in next ensures t in names {
      var i :| 0 <= i < |links| && links[i].source == a && links[i].target == t;
    }
    if next == {} {
      assert visited + next == visited;
      assert work - {a} + next == work - {a};
    } else {
      var t :| t in next;
      assert t in names - visited;
    }
  }

  /** With nothing left to expand, the visited names are exactly those reachable from `id`. */
  lemma VisitedAll(links: seq<Link>, id: string, visited: set<string>)
    requires id in visited
    requires forall v :: v in visited ==> Reachable(links, id, v)
    requires ExpandedAll(links, visited, visited - {})
    ensures LinksFrom(links, visited - {}) == ReachableLinks(links, id)
  {
    assert visited - {} == visited;
    assert ClosedUnder(links, visited);
    forall i: nat | i < |links| && Reachable(links, id, links[i].source)
      ensures links[i].source in visited
    {
      var p :| IsWalk(links, p) && p[0] == id && p[|p| - 1] == links[i].source;
      ClosedKeepsWalk(links, visited, p);
    }
  }

  /**
   * `mark`: a selection that is not a real node's name marks nothing;
   * otherwise it marks what `markDependencies` marks.
   */
  method Mark(g: Graph, current: string, transitive: bool) returns (marked: set<nat>)
    ensures current !in g.nodeNames ==> marked == {}
    ensures current in g.nodeNames ==> marked == MarkSpec(g.links, current, transitive)
  {
    marked := {};
    if current in g.nodeNames {
      marked := MarkDependencies(g.links, current, transitive);
    }
  }

  // ---------------------------------------------------------------------
  // The recursion as written
  // ---------------------------------------------------------------------

  /** `data.links.filter((n) => n.source === id)`, as positions in link order. */
  function Outgoing(links: seq<Link>, id: string): (r: seq<nat>)
    ensures forall k :: 0 <= k < |r| ==> r[k] < |links| && links[r[k]].source == id
    ensures forall i :: 0 <= i < |links| && links[i].source == id ==> i in r
  {
    if links == [] then []
    else
      var prefix := links[..|links| - 1];
      var prev := Outgoing(prefix, id);
      assert forall k :: 0 <= k < |prev| ==> links[prev[k]] == prefix[prev[k]];
      assert forall i :: 0 <= i < |prefix| ==> links[i] == prefix[i];
      prev + (if links[|links| - 1].source == id then [|links| - 1] else [])
  }

  /**
   * `markDependencies` as written, allowed `depth` nested calls: None when the
   * recursion needs more, which for a call that never ends is every depth.
   */
  function RecMark(links: seq<Link>, id: string, transitive: bool, depth: nat): (r: Option<set<nat>>)
    ensures r.Some? ==> forall i :: i in r.value ==> i < |links|
    ensures r.Some? ==> forall i :: 0 <= i < |links| && links[i].source == id ==> i in r.value
    decreases depth, 0
  {
    if depth == 0 then None
    else RecMarkEach(links, Outgoing(links, id), transitive, depth - 1)
  }

  /** The `forEach` over the outgoing links: mark each, then recurse into its target. */
  function RecMarkEach(links: seq<Link>, out: seq<nat>, transitive: bool, depth: nat): (r: Option<set<nat>>)
    requires forall k :: 0 <= k < |out| ==> out[k] < |links|
    ensures r.Some? ==> forall i :: i in r.value ==> i < |links|
    ensures r.Some? ==> forall k :: 0 <= k < |out| ==> out[k] in r.value
    decreases depth, 1, |out|
  {
    if out == [] then Some({})
    else
      var i := out[0];
      var below := if transitive then RecMark(links, links[i].target, transitive, depth) else Some({});
      var rest := RecMarkEach(links, out[1..], transitive, depth);
      if below.Some? && rest.Some? then Some({i} + below.value + rest.value) else None
  }

  /** What `RecMarkEach` marks when every recursive call marks what it should. */
  ghost function Gathered(links: seq<Link>, out: seq<nat>, transitive: bool): set<nat>
    requires forall k :: 0 <= k < |out| ==> out[k] < |links|
  {
    if out == [] then {}
    else
      {out[0]} + (if transitive then ReachableLinks(links, links[out[0]].target) else {})
        + Gathered(links, out[1..], transitive)
  }

  lemma {:induction false} GatheredMembers(links: seq<Link>, out: seq<nat>, transitive: bool, j: nat)
    requires forall k :: 0 <= k < |out| ==> out[k] < |links|
    ensures j in Gathered(links, out, transitive)
        <==> exists k :: 0 <= k < |out| && (j == out[k] || (transitive && j in ReachableLinks(links, links[out[k]].target)))
  {
    if out != [] {
      GatheredMembers(links, out[1..], transitive, j);
      if exists k :: 0 <= k < |out| && (j == out[k] || (transitive && j in ReachableLinks(links, links[out[k]].target))) {
        var k :| 0 <= k < |out| && (j == out[k] || (transitive && j in ReachableLinks(links, links[out[k]].target)));
        if k > 0 {
          assert out[1..][k - 1] == out[k];
        }
      }
      if exists k :: 0 <= k < |out[1..]| && (j == out[1..][k] || (transitive && j in ReachableLinks(links, links[out[1..][k]].target))) {
        var k :| 0 <= k < |out[1..]| && (j == out[1..][k] || (transitive && j in ReachableLinks(links, links[out[1..][k]].target)));
        assert out[1..][k] == out[k + 1];
      }
    }
  }

  /** Marking each outgoing link and what its target reaches is marking what the selection reaches. */
  lemma OutgoingGathered(links: seq<Link>, id: string, transitive: bool)
    ensures Gathered(links, Outgoing(links, id), transitive) == MarkSpec(links, id, transitive)
  {
    var out := Outgoing(links, id);
    forall j: nat ensures j in Gathered(links, out, transitive) <==> j in MarkSpec(links, id, transitive) {
      GatheredMembers(links, out, transitive, j);
      if j in Gathered(links, out, transitive) {
        var k :| 0 <= k < |out| && (j == out[k] || (transitive && j in ReachableLinks(links, links[out[k]].target)));
        if j == out[k] {
          ReachableSelf(links, id);
        } else {
          ReachablePrepend(links, out[k], links[j].source);
        }
      }
      if j in MarkSpec(links, id, transitive) {
        if links[j].source == id {
          var k :| 0 <= k < |out| && out[k] == j;
        } else {
          ReachableFirstStep(links, id, links[j].source);
          var i :| 0 <= i < |links| && links[i].source == id && Reachable(links, links[i].target, links[j].source);
          var k :| 0 <= k < |out| && out[k] == i;
          assert j in ReachableLinks(links, links[out[k]].target);
        }
      }
    }
  }

  /** Whenever the recursion finishes, it has marked exactly what `MarkDependencies` marks. */
  lemma {:induction false} RecMarkFinished(links: seq<Link>, id: string, transitive: bool, depth: nat)
    requires RecMark(links, id, transitive, depth).Some?
    ensures RecMark(links, id, transitive, depth).value == MarkSpec(links, id, transitive)
    decreases depth, 0
  {
    RecMarkEachFinished(links, Outgoing(links, id), transitive, depth - 1);
    OutgoingGathered(links, id, transitive);
  }

  lemma {:induction false} RecMarkEachFinished(links: seq<Link>, out: seq<nat>, transitive: bool, depth: nat)
    requires forall k :: 0 <= k < |out| ==> out[k] < |links|
    requires RecMarkEach(links, out, transitive, depth).Some?
    ensures RecMarkEach(links, out, transitive, depth).value == Gathered(links, out, transitive)
    decreases depth, 1, |out|
  {
    if out != [] {
      if transitive {
        RecMarkFinished(links, links[out[0]].target, transitive, depth);
      }
      RecMarkEachFinished(links, out[1..], transitive, depth);
    }
  }

  /** Every name of `c` has a link to another name of `c`: following links from `c` never stops. */
  ghost predicate Unending(links: seq<Link>, c: set<string>)
  {
    forall x {:trigger LeadsInto(links, x, c)} :: x in c ==> LeadsInto(links, x, c)
  }

  /** Some link leads from `x` into `c`. */
  ghost predicate LeadsInto(links: seq<Link>, x: string, c: set<string>)
  {
    exists i :: 0 <= i < |links| && links[i].source == x && links[i].target in c
  }

  lemma {:induction false} RecMarkEachFails(links: seq<Link>, out: seq<nat>, depth: nat, k: nat)
    requires forall k :: 0 <= k < |out| ==> out[k] < |links|
    requires k < |out| && RecMark(links, links[out[k]].target, true, depth).None?
    ensures RecMarkEach(links, out, true, depth).None?
    decreases k
  {
    if k > 0 {
      assert out[1..][k - 1] == out[k];
      RecMarkEachFails(links, out[1..], depth, k - 1);
    }
  }

  /** From inside an unending set the transitive recursion never finishes, whatever the depth. */
  lemma {:induction false} UnendingNeverFinishes(links: seq<Link>, c: set<string>, id: string, depth: nat)
    requires Unending(links, c) && id in c
    ensures RecMark(links, id, true, depth).None?
    decreases depth
  {
    if depth > 0 {
      assert LeadsInto(links, id, c);
      var i :| 0 <= i < |links| && links[i].source == id && links[i].target in c;
      var out := Outgoing(links, id);
      var k :| 0 <= k < |out| && out[k] == i;
      UnendingNeverFinishes(links, c, links[i].target, depth - 1);
      FailsThroughLink(links, id, out, k, i, depth);
    }
  }

  /** A call that never finishes below one outgoing link makes its caller never finish. */
  lemma FailsThroughLink(links: seq<Link>, id: string, out: seq<nat>, k: nat, i: nat, depth: nat)
    requires out == Outgoing(links, id) && k < |out| && out[k] == i && i < |links| && depth > 0
    requires RecMark(links, links[i].target, true, depth - 1).None?
    ensures RecMark(links, id, true, depth).None?
  {
    RecMarkEachFails(links, out, depth - 1, k);
  }

  /**
   * A cycle reachable from the selection (a walk `p` from `id` to a name that
   * a closed walk `cycle` returns to) makes the transitive recursion run
   * forever, while `MarkDependencies` still finishes.
   */
  lemma CycleNeverFinishes(links: seq<Link>, id: string, p: seq<string>, cycle: seq<string>, depth: nat)
    requires IsWalk(links, p) && p[0] == id
    requires IsWalk(links, cycle) && |cycle| >= 2 && cycle[0] == p[|p| - 1] && cycle[|cycle| - 1] == cycle[0]
    ensures RecMark(links, id, true, depth).None?
  {
    var c := set x | x in p + cycle;
    forall x | x in c ensures LeadsInto(links, x, c) {
      var j :| 0 <= j < |p + cycle| && (p + cycle)[j] == x;
      var a, b;
      if j < |p| - 1 {
        a, b := p[j], p[j + 1];
        assert (p + cycle)[j + 1] == b;
      } else {
        var m := if j < |p| then 0 else j - |p|;
        if m == |cycle| - 1 {
          m := 0;
        }
        a, b := cycle[m], cycle[m + 1];
        assert a == x;
        assert (p + cycle)[|p| + m + 1] == b;
      }
      assert Edge(links, a, b);
      var i :| 0 <= i < |links| && links[i].source == a && links[i].target == b;
    }
    assert id in p + cycle;
    UnendingNeverFinishes(links, c, id, depth);
  }

  /**
   * Three beans in a ring, A to B to C to A: the recursion never finishes,
   * though marking the three links once each is all there is to do.
   */
  lemma ThreeCycleNeverFinishes(depth: nat)
    ensures RecMark(ThreeCycle(), "A", true, depth).None?
  {
    var links := ThreeCycle();
    assert links[0].source == "A" && links[0].target == "B" && Edge(links, "A", "B");
    assert links[1].source == "B" && links[1].target == "C" && Edge(links, "B", "C");
    assert links[2].source == "C" && links[2].target == "A" && Edge(links, "C", "A");
    CycleNeverFinishes(links, "A", ["A"], ["A", "B", "C", "A"], depth);
  }

  /** On the same cycle, every link is reachable from A, so all three are to be marked. */
  lemma ThreeCycleMarksAll()
    ensures MarkSpec(ThreeCycle(), "A", true) == {0, 1, 2}
  {
    var links := ThreeCycle();
    assert links[0].source == "A" && links[0].target == "B";
    assert links[1].source == "B" && links[1].target == "C";
    ReachableSelf(links, "A");
    ReachableExtend(links, "A", 0);
    ReachableExtend(links, "A", 1);
  }

  /** The links A to B, B to C and C to A. */
  function ThreeCycle(): seq<Link>
  {
    [Link("A", "B", 1, None), Link("B", "C", 1, None), Link("C", "A", 1, None)]
  }

  /** A rank that every link decreases: the graph has no cycle. */
  ghost predicate Ranked(links: seq<Link>, rank: map<string, nat>)
  {
    forall i :: 0 <= i < |links| ==>
      links[i].source in rank && links[i].target in rank && rank[links[i].target] < rank[links[i].source]
  }

  /** On an acyclic graph the recursion finishes once it may nest one level deeper than the selection's rank. */
  lemma {:induction false} RankedFinishes(links: seq<Link>, rank: map<string, nat>, id: string, transitive: bool, depth: nat)
    requires Ranked(links, rank) && id in rank && depth > rank[id]
    ensures RecMark(links, id, transitive, depth).Some?
    decreases depth, 0
  {
    RankedEachFinishes(links, rank, Outgoing(links, id), transitive, depth - 1);
  }

  lemma {:induction false} RankedEachFinishes(links: seq<Link>, rank: map<string, nat>, out: seq<nat>, transitive: bool, depth: nat)
    requires Ranked(links, rank)
    requires forall k :: 0 <= k < |out| ==> out[k] < |links| && rank[links[out[k]].target] < depth
    ensures RecMarkEach(links, out, transitive, depth).Some?
    decreases depth, 1, |out|
  {
    if out != [] {
      if transitive {
        RankedFinishes(links, rank, links[out[0]].target, transitive, depth);
      }
      RankedEachFinishes(links, rank, out[1..], transitive, depth);
    }
  }

  /** On an acyclic graph the recursion as written and `MarkDependencies` mark the same links. */
  lemma RankedAgrees(links: seq<Link>, rank: map<string, nat>, id: string, transitive: bool)
    requires Ranked(links, rank) && id in rank
    ensures RecMark(links, id, transitive, rank[id] + 1) == Some(MarkSpec(links, id, transitive))
  {
    RankedFinishes(links, rank, id, transitive, rank[id] + 1);
    RecMarkFinished(links, id, transitive, rank[id] + 1);
  }
}
