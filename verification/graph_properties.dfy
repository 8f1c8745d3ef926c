/**
 * What the graph `render` builds is guaranteed to look like: dense node
 * numbers, real nodes before placeholders, nodes and links read from the
 * application context, one placeholder per unresolved dependency, every link
 * endpoint a node, and link keys that identify the endpoints.
 */
module GraphProperties {
  import opened Report
  import opened Groups
  import opened Decimal
  import opened GraphSpec

  // ---------------------------------------------------------------------
  // The pieces of the construction, one at a time
  // ---------------------------------------------------------------------

  /** The k-th real node is the k-th occurrence, numbered k + 1, read from the application context. */
  lemma {:induction false} RealNodesAt(occ: seq<string>, app: seq<Entry>)
    ensures forall k :: 0 <= k < |occ| ==>
      RealNodes(occ, app)[k] == Node(occ[k], k + 1, GroupMapper(occ[k]), ResourceOf(app, occ[k]))
  {
    if occ != [] {
      var prefix := occ[..|occ| - 1];
      RealNodesAt(prefix, app);
      forall k | 0 <= k < |occ| - 1
        ensures RealNodes(occ, app)[k] == Node(occ[k], k + 1, GroupMapper(occ[k]), ResourceOf(app, occ[k]))
      {
        assert occ[k] == prefix[k];
      }
    }
  }

  /**
   * Placeholders are numbered on from `start` in order, have group 0 and no
   * resource, and there is one for each name of `names` outside `known`.
   */
  lemma {:induction false} PlaceholdersFacts(names: seq<string>, known: set<string>, start: nat)
    ensures forall k :: 0 <= k < |Placeholders(names, known, start)| ==>
            && Placeholders(names, known, start)[k].iid == start + k + 1
            && Placeholders(names, known, start)[k].group == PlaceholderGroup
            && Placeholders(names, known, start)[k].resource == None
            && Placeholders(names, known, start)[k].id !in known
            && Placeholders(names, known, start)[k].id in names
    ensures forall x :: x in names && x !in known ==> exists k :: 0 <= k < |Placeholders(names, known, start)| && Placeholders(names, known, start)[k].id == x
  {
    if names != [] {
      var prefix := names[..|names| - 1];
      var last := names[|names| - 1];
      PlaceholdersFacts(prefix, known, start);
      var prev := Placeholders(prefix, known, start);
      var r := Placeholders(names, known, start);
      assert r == if last in known then prev else prev + [Node(last, start + |prev| + 1, PlaceholderGroup, None)];
      assert forall x :: x in names <==> x in prefix || x == last;
      forall k | 0 <= k < |r|
        ensures r[k].iid == start + k + 1 && r[k].group == PlaceholderGroup && r[k].resource == None
        ensures r[k].id !in known && r[k].id in names
      {
        if k < |prev| {
          assert r[k] == prev[k];
          assert prev[k].id in prefix;
        }
      }
      forall x | x in names && x !in known
        ensures exists k :: 0 <= k < |r| && r[k].id == x
      {
        if x in prefix {
          var k :| 0 <= k < |prev| && prev[k].id == x;
          assert r[k] == prev[k];
        } else {
          assert r[|r| - 1].id == x;
        }
      }
    }
  }

  /** Distinct names give placeholders with distinct ids. */
  lemma {:induction false} PlaceholdersDistinct(names: seq<string>, known: set<string>, start: nat)
    requires forall i, j :: 0 <= i < j < |names| ==> names[i] != names[j]
    ensures forall i, j :: 0 <= i < j < |Placeholders(names, known, start)| ==>
      Placeholders(names, known, start)[i].id != Placeholders(names, known, start)[j].id
  {
    if names != [] {
      var prefix := names[..|names| - 1];
      var last := names[|names| - 1];
      PlaceholdersDistinct(prefix, known, start);
      PlaceholdersFacts(prefix, known, start);
      var prev := Placeholders(prefix, known, start);
      var r := Placeholders(names, known, start);
      assert last !in prefix by {
        forall i | 0 <= i < |prefix| ensures prefix[i] != last {
          assert prefix[i] == names[i];
        }
      }
      forall i, j | 0 <= i < j < |r| ensures r[i].id != r[j].id {
        assert r[i] == prev[i];
        if j < |prev| {
          assert r[j] == prev[j];
        } else {
          assert prev[i].id in prefix;
        }
      }
    }
  }

  /**
   * Every link comes from an occurrence, points at one of that bean's
   * dependencies, carries its dependency count and has no key yet.
   */
  lemma {:induction false} RealLinksFacts(occ: seq<string>, app: seq<Entry>)
    ensures forall i :: 0 <= i < |RealLinks(occ, app)| ==>
      && RealLinks(occ, app)[i].source in occ
      && RealLinks(occ, app)[i].target in DependenciesOf(app, RealLinks(occ, app)[i].source)
      && RealLinks(occ, app)[i].value == |DependenciesOf(app, RealLinks(occ, app)[i].source)|
      && RealLinks(occ, app)[i].key == None
  {
    if occ != [] {
      var prefix := occ[..|occ| - 1];
      RealLinksFacts(prefix, app);
      var name := occ[|occ| - 1];
      var deps := DependenciesOf(app, name);
      var prev := RealLinks(prefix, app);
      var r := RealLinks(occ, app);
      forall i | 0 <= i < |r|
        ensures r[i].source in occ && r[i].target in DependenciesOf(app, r[i].source)
        ensures r[i].value == |DependenciesOf(app, r[i].source)| && r[i].key == None
      {
        if i < |prev| {
          assert r[i] == prev[i];
          assert prev[i].source in prefix;
        } else {
          assert r[i] == LinksOf(name, deps)[i - |prev|];
        }
      }
    }
  }

  /** The links of the first k occurrences come first. */
  lemma {:induction false} RealLinksPrefix(occ: seq<string>, app: seq<Entry>, k: nat)
    requires k <= |occ|
    ensures RealLinks(occ[..k], app) <= RealLinks(occ, app)
    decreases |occ|
  {
    if k < |occ| {
      var prefix := occ[..|occ| - 1];
      assert prefix[..k] == occ[..k];
      RealLinksPrefix(prefix, app, k);
    } else {
      assert occ[..k] == occ;
    }
  }

  /**
   * Occurrence k owns the block of links right after those of the first k
   * occurrences: position i of the block is the link to its i-th dependency.
   */
  lemma OccurrenceLinks(occ: seq<string>, app: seq<Entry>, k: nat, i: nat)
    requires k < |occ|
    requires |RealLinks(occ[..k], app)| <= i < |RealLinks(occ[..k], app)| + |DependenciesOf(app, occ[k])|
    ensures i < |RealLinks(occ, app)|
    ensures RealLinks(occ, app)[i]
         == Link(occ[k], DependenciesOf(app, occ[k])[i - |RealLinks(occ[..k], app)|], |DependenciesOf(app, occ[k])|, None)
  {
    var deps := DependenciesOf(app, occ[k]);
    var before := RealLinks(occ[..k], app);
    var upTo := RealLinks(occ[..k + 1], app);
    assert occ[..k + 1][..k] == occ[..k];
    assert upTo == before + LinksOf(occ[k], deps);
    RealLinksPrefix(occ, app, k + 1);
    assert RealLinks(occ, app)[i] == upTo[i] == LinksOf(occ[k], deps)[i - |before|];
  }

  /** `x` appears in `s` at a position where `y` has not appeared yet. */
  predicate SeenBefore(s: seq<string>, x: string, y: string)
  {
    exists a :: 0 <= a < |s| && s[a] == x && forall b :: 0 <= b <= a ==> s[b] != y
  }

  /**
   * `InsertionOrder` lists elements in order of first appearance: an element
   * listed before another first appears in `s` before the other appears at all.
   */
  lemma {:induction false} InsertionOrderFirstSeen(s: seq<string>)
    ensures forall i, j :: 0 <= i < j < |InsertionOrder(s)| ==>
      SeenBefore(s, InsertionOrder(s)[i], InsertionOrder(s)[j])
  {
    if s == [] {
      assert InsertionOrder(s) == [];
    } else {
      var p := s[..|s| - 1];
      var x := s[|s| - 1];
      InsertionOrderFirstSeen(p);
      assert s == p + [x];
      forall i, j | 0 <= i < j < |InsertionOrder(s)|
        ensures SeenBefore(s, InsertionOrder(s)[i], InsertionOrder(s)[j])
      {
        SeenBeforeExtend(p, x, InsertionOrder(p), InsertionOrder(s), i, j);
      }
    }
  }

  /**
   * One step of `InsertionOrderFirstSeen`, on plain sequences: `r` extends the listing `prev` of `p` by `x`
   * unless `x` is already listed.
   */
  lemma SeenBeforeExtend(p: seq<string>, x: string, prev: seq<string>, r: seq<string>, i: nat, j: nat)
    requires r == if x in prev then prev else prev + [x]
    requires forall y :: y in prev ==> y in p
    requires x in p ==> x in prev
    requires i < j < |r|
    requires j < |prev| ==> SeenBefore(p, prev[i], prev[j])
    ensures SeenBefore(p + [x], r[i], r[j])
  {
    var s := p + [x];
    assert r[i] == prev[i];
    if j < |prev| {
      assert r[j] == prev[j];
      var a :| 0 <= a < |p| && p[a] == prev[i] && forall b :: 0 <= b <= a ==> p[b] != prev[j];
      assert s[a] == r[i];
      assert forall b :: 0 <= b <= a ==> s[b] != r[j] by {
        forall b | 0 <= b <= a ensures s[b] != r[j] { assert s[b] == p[b]; }
      }
    } else {
      assert r[j] == x && x !in p;
      assert r[i] in p;
      var a :| 0 <= a < |p| && p[a] == r[i];
      assert s[a] == r[i];
      assert forall b :: 0 <= b <= a ==> s[b] != r[j] by {
        forall b | 0 <= b <= a ensures s[b] != r[j] { assert s[b] == p[b]; }
      }
    }
  }

  /** `InsertionOrder` keeps each element once, so its elements are distinct and none is lost. */
  lemma InsertionOrderOfTargets(links: seq<Link>, x: string)
    ensures x in InsertionOrder(Targets(links)) <==> exists i :: 0 <= i < |links| && links[i].target == x
  {
    if x in Targets(links) {
      var i :| 0 <= i < |links| && Targets(links)[i] == x;
    }
    if exists i :: 0 <= i < |links| && links[i].target == x {
      var i :| 0 <= i < |links| && links[i].target == x;
      assert Targets(links)[i] == x;
    }
  }

  // ---------------------------------------------------------------------
  // Node numbers and link keys
  // ---------------------------------------------------------------------

  /** Node k has `iid` k + 1. */
  ghost predicate Numbered(nodes: seq<Node>)
  {
    forall k :: 0 <= k < |nodes| ==> nodes[k].iid == k + 1
  }

  /** With dense numbers, `name2iid` names the position of the first node with that id. */
  lemma IidLocates(nodes: seq<Node>, name: string)
    requires Numbered(nodes)
    ensures NameToIid(nodes, name).Some? ==>
      && 1 <= NameToIid(nodes, name).value <= |nodes|
      && nodes[NameToIid(nodes, name).value - 1].id == name
      && forall j :: 0 <= j < NameToIid(nodes, name).value - 1 ==> nodes[j].id != name
  {
  }

  /** With dense numbers, two names with the same `iid` are the same name. */
  lemma IidInjective(nodes: seq<Node>, a: string, b: string)
    requires Numbered(nodes)
    requires NameToIid(nodes, a).Some? && NameToIid(nodes, a) == NameToIid(nodes, b)
    ensures a == b
  {
    IidLocates(nodes, a);
    IidLocates(nodes, b);
  }

  predicate AllDigits(s: string)
  {
    forall k :: 0 <= k < |s| ==> IsDigit(s[k])
  }

  /** A key `l<digits>_<rest>` determines both parts, because digits never contain '_'. */
  lemma {:induction false} KeyParts(s1: string, t1: string, s2: string, t2: string)
    requires AllDigits(s1) && AllDigits(s2)
    ensures "l" + s1 + "_" + t1 == "l" + s2 + "_" + t2 <==> s1 == s2 && t1 == t2
  {
    var a := "l" + s1 + "_" + t1;
    var b := "l" + s2 + "_" + t2;
    if a == b {
      assert a[1 + |s1|] == '_' && b[1 + |s2|] == '_';
      if |s1| < |s2| {
        assert false;
      } else if |s2| < |s1| {
        assert false;
      }
      assert s1 == a[1..1 + |s1|] == b[1..1 + |s2|] == s2;
      assert t1 == a[2 + |s1|..] == b[2 + |s2|..] == t2;
    }
  }

  // ---------------------------------------------------------------------
  // Properties of the built graph
  // ---------------------------------------------------------------------

  /** The pieces `BuildSpec` assembles, named for the lemmas below. */
  function Occ(contexts: seq<Context>): seq<string>
  {
    Occurrences(contexts, AppEntries(contexts))
  }

  function UnkeyedLinks(contexts: seq<Context>): seq<Link>
  {
    RealLinks(Occ(contexts), AppEntries(contexts))
  }

  /** Setting the keys changes nothing else about the links. */
  lemma KeyingKeepsEndpoints(contexts: seq<Context>, g: Graph)
    requires BuildSpec(contexts) == Success(g)
    ensures |g.links| == |UnkeyedLinks(contexts)|
    ensures forall i :: 0 <= i < |g.links| ==>
      && g.links[i].source == UnkeyedLinks(contexts)[i].source
      && g.links[i].target == UnkeyedLinks(contexts)[i].target
      && g.links[i].value == UnkeyedLinks(contexts)[i].value
  {
  }

  /** The nodes are numbered 1, 2, ... in creation order, so numbers are unique. */
  lemma BuildNumbersNodes(contexts: seq<Context>)
    requires BuildSpec(contexts).Success?
    ensures var g := BuildSpec(contexts).value;
      forall k :: 0 <= k < |g.nodes| ==> g.nodes[k].iid == k + 1
  {
    var app := AppEntries(contexts);
    var occ := Occ(contexts);
    var links := UnkeyedLinks(contexts);
    var names := InsertionOrder(Targets(links));
    RealNodesAt(occ, app);
    PlaceholdersFacts(names, Elements(occ), |occ|);
  }

  /**
   * The first |occ| nodes are the real ones: one per occurrence, with a name
   * the application context lists, its resource from that context and its
   * group from `GroupMapper`; every later node is a placeholder with group 0,
   * no resource and a name that is not a real node's.
   */
  lemma BuildRealThenPlaceholders(contexts: seq<Context>)
    requires BuildSpec(contexts).Success?
    ensures var g := BuildSpec(contexts).value;
            var app := AppEntries(contexts);
            var occ := Occ(contexts);
      && |occ| <= |g.nodes|
      && (forall k :: 0 <= k < |occ| ==>
            && g.nodes[k].id == occ[k]
            && Lookup(app, occ[k]).Some?
            && g.nodes[k].resource == Lookup(app, occ[k]).value.resource
            && g.nodes[k].group == GroupMapper(occ[k]) != PlaceholderGroup
            && g.nodes[k].id in g.nodeNames)
      && (forall k :: |occ| <= k < |g.nodes| ==>
            && g.nodes[k].group == PlaceholderGroup
            && g.nodes[k].resource == None
            && g.nodes[k].id !in g.nodeNames)
  {
    var app := AppEntries(contexts);
    var occ := Occ(contexts);
    var links := UnkeyedLinks(contexts);
    var names := InsertionOrder(Targets(links));
    RealNodesAt(occ, app);
    PlaceholdersFacts(names, Elements(occ), |occ|);
  }

  /** Real nodes are exactly the names listed in some context's beans that the application context also lists. */
  lemma BuildNodeNames(contexts: seq<Context>, x: string)
    requires BuildSpec(contexts).Success?
    ensures x in BuildSpec(contexts).value.nodeNames
        <==> Lookup(AppEntries(contexts), x).Some?
             && exists k :: 0 <= k < |contexts| && x in ListedNames(contexts[k])
  {
    OccurrencesMembers(contexts, AppEntries(contexts), x);
  }

  /**
   * Every link starts at a real node and points at one of that bean's
   * dependencies as the application context declares them; its value is the
   * number of those dependencies.
   */
  lemma BuildLinksFromApplication(contexts: seq<Context>)
    requires BuildSpec(contexts).Success?
    ensures var g := BuildSpec(contexts).value;
            var app := AppEntries(contexts);
      forall i :: 0 <= i < |g.links| ==>
        && g.links[i].source in g.nodeNames
        && Lookup(app, g.links[i].source).Some?
        && g.links[i].target in Lookup(app, g.links[i].source).value.dependencies
        && g.links[i].value == |Lookup(app, g.links[i].source).value.dependencies|
  {
    var g := BuildSpec(contexts).value;
    var app := AppEntries(contexts);
    var occ := Occ(contexts);
    var links := UnkeyedLinks(contexts);
    RealLinksFacts(occ, app);
    forall i | 0 <= i < |g.links|
      ensures g.links[i].source in g.nodeNames && Lookup(app, g.links[i].source).Some?
    {
      assert g.links[i].source == links[i].source;
      var k :| 0 <= k < |occ| && occ[k] == links[i].source;
    }
  }

  /**
   * Occurrence k of a qualifying bean owns one link per declared dependency,
   * in declaration order, right after the links of the earlier occurrences.
   */
  lemma BuildLinksPerOccurrence(contexts: seq<Context>, g: Graph, k: nat, i: nat)
    requires BuildSpec(contexts) == Success(g)
    requires k < |Occ(contexts)|
    requires |RealLinks(Occ(contexts)[..k], AppEntries(contexts))| <= i
    requires i < |RealLinks(Occ(contexts)[..k], AppEntries(contexts))| + |DependenciesOf(AppEntries(contexts), Occ(contexts)[k])|
    ensures i < |g.links|
    ensures g.links[i].source == Occ(contexts)[k]
    ensures g.links[i].target
         == DependenciesOf(AppEntries(contexts), Occ(contexts)[k])[i - |RealLinks(Occ(contexts)[..k], AppEntries(contexts))|]
    ensures g.links[i].value == |DependenciesOf(AppEntries(contexts), Occ(contexts)[k])|
  {
    KeyingKeepsEndpoints(contexts, g);
    KeyedBlock(Occ(contexts), AppEntries(contexts), g.links, k, i);
  }

  /** `OccurrenceLinks` for links that agree with the unkeyed ones on source, target and value. */
  lemma KeyedBlock(occ: seq<string>, app: seq<Entry>, keyed: seq<Link>, k: nat, i: nat)
    requires k < |occ|
    requires |keyed| == |RealLinks(occ, app)|
    requires forall i :: 0 <= i < |keyed| ==>
      && keyed[i].source == RealLinks(occ, app)[i].source
      && keyed[i].target == RealLinks(occ, app)[i].target
      && keyed[i].value == RealLinks(occ, app)[i].value
    requires |RealLinks(occ[..k], app)| <= i < |RealLinks(occ[..k], app)| + |DependenciesOf(app, occ[k])|
    ensures i < |keyed|
    ensures keyed[i].source == occ[k]
    ensures keyed[i].target == DependenciesOf(app, occ[k])[i - |RealLinks(occ[..k], app)|]
    ensures keyed[i].value == |DependenciesOf(app, occ[k])|
  {
    OccurrenceLinks(occ, app, k, i);
  }

  /** Placeholders have distinct ids. */
  lemma BuildPlaceholdersDistinct(contexts: seq<Context>, g: Graph)
    requires BuildSpec(contexts) == Success(g)
    ensures forall i, j :: |Occ(contexts)| <= i < j < |g.nodes| ==> g.nodes[i].id != g.nodes[j].id
  {
    var app := AppEntries(contexts);
    var occ := Occ(contexts);
    var names := InsertionOrder(Targets(UnkeyedLinks(contexts)));
    var ph := Placeholders(names, Elements(occ), |occ|);
    assert g.nodes == RealNodes(occ, app) + ph;
    PlaceholdersDistinct(names, Elements(occ), |occ|);
    forall i, j | |occ| <= i < j < |g.nodes| ensures g.nodes[i].id != g.nodes[j].id {
      assert g.nodes[i] == ph[i - |occ|] && g.nodes[j] == ph[j - |occ|];
    }
  }

  /** A name gets a placeholder exactly when it is some link's target and no real node has it. */
  lemma BuildPlaceholderNames(contexts: seq<Context>, g: Graph, x: string)
    requires BuildSpec(contexts) == Success(g)
    ensures (exists k :: |Occ(contexts)| <= k < |g.nodes| && g.nodes[k].id == x)
        <==> x !in g.nodeNames && exists i :: 0 <= i < |g.links| && g.links[i].target == x
  {
    if exists k :: |Occ(contexts)| <= k < |g.nodes| && g.nodes[k].id == x {
      var k :| |Occ(contexts)| <= k < |g.nodes| && g.nodes[k].id == x;
      PlaceholderIsLooseTarget(contexts, g, k);
    }
    if x !in g.nodeNames && exists i :: 0 <= i < |g.links| && g.links[i].target == x {
      var i :| 0 <= i < |g.links| && g.links[i].target == x;
      LooseTargetIsPlaceholder(contexts, g, i);
    }
  }

  lemma PlaceholderIsLooseTarget(contexts: seq<Context>, g: Graph, k: nat)
    requires BuildSpec(contexts) == Success(g)
    requires |Occ(contexts)| <= k < |g.nodes|
    ensures g.nodes[k].id !in g.nodeNames
    ensures exists i :: 0 <= i < |g.links| && g.links[i].target == g.nodes[k].id
  {
    var app := AppEntries(contexts);
    var occ := Occ(contexts);
    var links := UnkeyedLinks(contexts);
    var names := InsertionOrder(Targets(links));
    var ph := Placeholders(names, Elements(occ), |occ|);
    assert g.nodes == RealNodes(occ, app) + ph;
    var x := g.nodes[k].id;
    PlaceholdersFacts(names, Elements(occ), |occ|);
    InsertionOrderOfTargets(links, x);
    KeyingKeepsEndpoints(contexts, g);
    assert g.nodes[k] == ph[k - |occ|];
    var i :| 0 <= i < |links| && links[i].target == x;
    assert g.links[i].target == x;
  }

  lemma LooseTargetIsPlaceholder(contexts: seq<Context>, g: Graph, i: nat)
    requires BuildSpec(contexts) == Success(g)
    requires i < |g.links| && g.links[i].target !in g.nodeNames
    ensures exists k :: |Occ(contexts)| <= k < |g.nodes| && g.nodes[k].id == g.links[i].target
  {
    var app := AppEntries(contexts);
    var occ := Occ(contexts);
    var links := UnkeyedLinks(contexts);
    var names := InsertionOrder(Targets(links));
    var ph := Placeholders(names, Elements(occ), |occ|);
    assert g.nodes == RealNodes(occ, app) + ph;
    var x := g.links[i].target;
    PlaceholdersFacts(names, Elements(occ), |occ|);
    InsertionOrderOfTargets(links, x);
    KeyingKeepsEndpoints(contexts, g);
    assert g.nodeNames == Elements(occ);
    assert links[i].target == x;
    assert x in names && x !in Elements(occ);
    var k :| 0 <= k < |ph| && ph[k].id == x;
    assert g.nodes[|occ| + k] == ph[k];
  }

  /** Both ends of every link are node ids, so `name2iid` never yields '' for them. */
  lemma BuildClosed(contexts: seq<Context>)
    requires BuildSpec(contexts).Success?
    ensures var g := BuildSpec(contexts).value;
      forall i :: 0 <= i < |g.links| ==>
        NameToIid(g.nodes, g.links[i].source).Some? && NameToIid(g.nodes, g.links[i].target).Some?
  {
    var g := BuildSpec(contexts).value;
    var occ := Occ(contexts);
    BuildRealThenPlaceholders(contexts);
    BuildLinksFromApplication(contexts);
    forall i | 0 <= i < |g.links|
      ensures NameToIid(g.nodes, g.links[i].source).Some? && NameToIid(g.nodes, g.links[i].target).Some?
    {
      RealNodeNamed(contexts, g.links[i].source);
      var t := g.links[i].target;
      if t in g.nodeNames {
        RealNodeNamed(contexts, t);
      } else {
        BuildPlaceholderNames(contexts, g, t);
        assert g.links[i].target == t;
        var k :| |occ| <= k < |g.nodes| && g.nodes[k].id == t;
      }
    }
  }

  /** A name in `nodeNames` is the id of a real node. */
  lemma RealNodeNamed(contexts: seq<Context>, x: string)
    requires BuildSpec(contexts).Success?
    requires x in BuildSpec(contexts).value.nodeNames
    ensures exists k :: 0 <= k < |Occ(contexts)| && BuildSpec(contexts).value.nodes[k].id == x
  {
    BuildRealThenPlaceholders(contexts);
    var occ := Occ(contexts);
    var k :| 0 <= k < |occ| && occ[k] == x;
  }

  /**
   * Every link's key is `l<iid(source)>_<iid(target)>`, both numbers in
   * decimal, and two links have the same key exactly when they have the same
   * source and the same target (so swapped endpoints give different keys).
   */
  lemma BuildKeys(contexts: seq<Context>)
    requires BuildSpec(contexts).Success?
    ensures var g := BuildSpec(contexts).value;
      && (forall i :: 0 <= i < |g.links| ==>
            NameToIid(g.nodes, g.links[i].source).Some? && NameToIid(g.nodes, g.links[i].target).Some? &&
            g.links[i].key == Some("l" + NatToString(NameToIid(g.nodes, g.links[i].source).value)
                                   + "_" + NatToString(NameToIid(g.nodes, g.links[i].target).value)))
      && (forall i, j :: 0 <= i < |g.links| && 0 <= j < |g.links| ==>
            (g.links[i].key == g.links[j].key
             <==> g.links[i].source == g.links[j].source && g.links[i].target == g.links[j].target))
  {
    var g := BuildSpec(contexts).value;
    BuildClosed(contexts);
    BuildNumbersNodes(contexts);
    forall i, j | 0 <= i < |g.links| && 0 <= j < |g.links| && g.links[i].key == g.links[j].key
      ensures g.links[i].source == g.links[j].source && g.links[i].target == g.links[j].target
    {
      SameKeySameEnds(g.nodes, g.links[i], g.links[j]);
    }
  }

  /** Over densely numbered nodes, equal keys mean equal endpoints. */
  lemma SameKeySameEnds(nodes: seq<Node>, a: Link, b: Link)
    requires Numbered(nodes)
    requires NameToIid(nodes, a.source).Some? && NameToIid(nodes, a.target).Some?
    requires NameToIid(nodes, b.source).Some? && NameToIid(nodes, b.target).Some?
    requires LinkKey(nodes, a) == LinkKey(nodes, b)
    ensures a.source == b.source && a.target == b.target
  {
    var sa := NameToIid(nodes, a.source).value;
    var ta := NameToIid(nodes, a.target).value;
    var sb := NameToIid(nodes, b.source).value;
    var tb := NameToIid(nodes, b.target).value;
    KeyParts(NatToString(sa), NatToString(ta), NatToString(sb), NatToString(tb));
    NatToStringInjective(sa, sb);
    NatToStringInjective(ta, tb);
    IidInjective(nodes, a.source, b.source);
    IidInjective(nodes, a.target, b.target);
  }

  // ---------------------------------------------------------------------
  // Which names become real nodes
  // ---------------------------------------------------------------------

  lemma {:induction false} QualifyingMembers(beans: seq<Entry>, app: seq<Entry>, x: string)
    ensures x in QualifyingIn(beans, app)
        <==> Lookup(app, x).Some? && exists j :: 0 <= j < |beans| && beans[j].name == x
  {
    if beans != [] {
      var prefix := beans[..|beans| - 1];
      var last := beans[|beans| - 1].name;
      QualifyingMembers(prefix, app, x);
      assert x in QualifyingIn(beans, app)
         <==> x in QualifyingIn(prefix, app) || (x == last && Lookup(app, last).Some?);
      if x in QualifyingIn(prefix, app) {
        var j :| 0 <= j < |prefix| && prefix[j].name == x;
        assert beans[j].name == x;
      }
      if Lookup(app, x).Some? && x != last && exists j :: 0 <= j < |beans| && beans[j].name == x {
        var j :| 0 <= j < |beans| && beans[j].name == x;
        assert prefix[j].name == x;
      }
    }
  }

  /** A name occurs exactly when some context lists it and the application context has it. */
  lemma {:induction false} OccurrencesMembers(contexts: seq<Context>, app: seq<Entry>, x: string)
    ensures x in Occurrences(contexts, app) <==> Lookup(app, x).Some? && ListedSomewhere(contexts, x)
  {
    if contexts != [] {
      var prefix := contexts[..|contexts| - 1];
      var last := contexts[|contexts| - 1];
      OccurrencesMembers(prefix, app, x);
      ListedMembers(last, app, x);
      ListedSomewhereStep(contexts, x);
    }
  }

  /** Some context lists `x` among its beans. */
  predicate ListedSomewhere(contexts: seq<Context>, x: string)
  {
    exists k :: 0 <= k < |contexts| && x in ListedNames(contexts[k])
  }

  lemma ListedSomewhereStep(contexts: seq<Context>, x: string)
    requires contexts != []
    ensures ListedSomewhere(contexts, x)
        <==> ListedSomewhere(contexts[..|contexts| - 1], x) || x in ListedNames(contexts[|contexts| - 1])
  {
    var prefix := contexts[..|contexts| - 1];
    if ListedSomewhere(contexts, x) {
      var k :| 0 <= k < |contexts| && x in ListedNames(contexts[k]);
      if k < |prefix| { assert prefix[k] == contexts[k]; }
    }
    if ListedSomewhere(prefix, x) {
      var k :| 0 <= k < |prefix| && x in ListedNames(prefix[k]);
      assert prefix[k] == contexts[k];
    }
  }

  /** What one context contributes: the names it lists that the application context has. */
  lemma ListedMembers(c: Context, app: seq<Entry>, x: string)
    ensures (c.beans.Some? && x in QualifyingIn(c.beans.value, app)) <==> Lookup(app, x).Some? && x in ListedNames(c)
  {
    if c.beans.Some? {
      QualifyingMembers(c.beans.value, app, x);
    }
  }

  /** The occurrences of two runs of contexts are those of each run, one after the other. */
  lemma {:induction false} OccurrencesAppend(a: seq<Context>, b: seq<Context>, app: seq<Entry>)
    ensures Occurrences(a + b, app) == Occurrences(a, app) + Occurrences(b, app)
  {
    if b != [] {
      var prefix := b[..|b| - 1];
      OccurrencesAppend(a, prefix, app);
      assert (a + b)[..|a + b| - 1] == a + prefix;
    } else {
      assert a + b == a;
    }
  }

  /** A context without `beans` contributes no node and no link, wherever it stands. */
  lemma ContextWithoutBeans(before: seq<Context>, name: string, after: seq<Context>, app: seq<Entry>)
    ensures Occurrences(before + [Context(name, None)] + after, app) == Occurrences(before + after, app)
  {
    OccurrencesAppend(before + [Context(name, None)], after, app);
    OccurrencesAppend(before, [Context(name, None)], app);
    OccurrencesAppend(before, after, app);
    assert [Context(name, None)][..0] == [];
  }

  /**
   * A bean listed by two contexts becomes two nodes with the same id, each
   * with its own number; `name2iid` then always resolves to the first.
   */
  lemma ListedTwiceTwoNodes(contexts: seq<Context>, name: string, bean: Bean, other: string)
    requires contexts == [Context(ApplicationContext, Some([Entry(name, bean)])), Context(other, Some([Entry(name, bean)]))]
    requires bean.dependencies == []
    ensures BuildSpec(contexts).Success?
    ensures BuildSpec(contexts).value.nodes
         == [Node(name, 1, GroupMapper(name), bean.resource), Node(name, 2, GroupMapper(name), bean.resource)]
    ensures NameToIid(BuildSpec(contexts).value.nodes, name) == Some(1)
  {
    var app := [Entry(name, bean)];
    ListedTwiceOccurrences(contexts, name, bean, other);
    assert RealNodes([name], app) == [Node(name, 1, GroupMapper(name), bean.resource)];
    assert RealLinks([name], app) == [];
    assert RealLinks([name, name], app) == [];
  }

  lemma ListedTwiceOccurrences(contexts: seq<Context>, name: string, bean: Bean, other: string)
    requires contexts == [Context(ApplicationContext, Some([Entry(name, bean)])), Context(other, Some([Entry(name, bean)]))]
    ensures AppEntries(contexts) == [Entry(name, bean)]
    ensures Lookup([Entry(name, bean)], name) == Some(bean)
    ensures Occurrences(contexts, [Entry(name, bean)]) == [name, name]
  {
    var app := [Entry(name, bean)];
    assert ApplicationBeans(contexts) == Some(app);
    assert Lookup(app, name) == Some(bean);
    assert contexts[..1] == [contexts[0]];
    assert Occurrences(contexts[..1], app) == [name];
  }
}
