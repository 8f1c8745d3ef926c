/**
 * The graph construction inside `render`, step by step as the source does
 * it: nested loops over the contexts, their beans and each bean's
 * dependencies push nodes and links, a counter numbers the nodes, a set
 * records the real node names and an insertion-ordered set the referenced
 * dependency names; then a placeholder pass and a pass that keys every link.
 */
module GraphBuilder {
  import opened Report
  import opened Groups
  import opened GraphSpec

  /** The variables `render` updates while it walks the contexts. */
  datatype Draft = Draft(nodes: seq<Node>, links: seq<Link>, nodeNames: set<string>,
                         linkNames: seq<string>, counter: nat)

  /** The draft holds what the occurrences `occ` contribute, and nothing else. */
  predicate Tracks(d: Draft, occ: seq<string>, app: seq<Entry>)
  {
    && d.nodes == RealNodes(occ, app)
    && d.links == RealLinks(occ, app)
    && d.nodeNames == Elements(occ)
    && d.linkNames == InsertionOrder(Targets(d.links))
    && d.counter == |d.nodes|
  }

  /** Walks `render`'s loops; the result is exactly `BuildSpec`. */
  method Build(contexts: seq<Context>) returns (r: Result<Graph, RenderError>)
    ensures r == BuildSpec(contexts)
  {
    var appBeans := ApplicationBeans(contexts);
    var app := if appBeans.Some? then appBeans.value else [];
    var d := Draft([], [], {}, [], 0);

    for i := 0 to |contexts|
      invariant appBeans.None? ==> !ListsABean(contexts[..i])
      invariant Tracks(d, Occurrences(contexts[..i], app), app)
    {
      ContextStep(contexts, i, app);
      ghost var before := Occurrences(contexts[..i], app);
      ghost var after := Occurrences(contexts[..i + 1], app);
      if contexts[i].beans.Some? {
        var beans := contexts[i].beans.value;
        if appBeans.None? && |beans| > 0 {
          // the first `hasOwnProperty` call is made on an undefined value
          assert ListsABean(contexts) by {
            assert contexts[i].beans.Some? && |contexts[i].beans.value| > 0;
          }
          return Failure(TypeError);
        }
        d := AddBeans(d, beans, app, before);
        assert after == before + QualifyingIn(beans, app);
      } else {
        assert after == before;
      }
    }
    assert contexts[..|contexts|] == contexts;

    var nodes := AddPlaceholders(d.nodes, d.counter, d.linkNames, d.nodeNames);
    var links := AssignKeys(d.links, nodes);
    r := Success(Graph(nodes, links, d.nodeNames));
  }

  /**
   * `for (const name in ctx.beans)`: each name the application context also
   * lists adds a node numbered by the counter and the links of its
   * dependencies, all read from the application context's record.
   */
  method AddBeans(d: Draft, beans: seq<Entry>, app: seq<Entry>, ghost occ: seq<string>) returns (d': Draft)
    requires Tracks(d, occ, app)
    ensures Tracks(d', occ + QualifyingIn(beans, app), app)
  {
    d' := d;
    ghost var done := occ;
    assert occ + QualifyingIn(beans[..0], app) == occ;
    for j := 0 to |beans|
      invariant done == occ + QualifyingIn(beans[..j], app)
      invariant Tracks(d', done, app)
    {
      var name := beans[j].name;
      var found := Lookup(app, name);
      QualifyingStep(occ, beans, j, app);
      if found.Some? {
        d' := AddBean(d', name, found.value, app, done);
        done := done + [name];
      }
    }
    assert beans[..|beans|] == beans;
  }

  /**
   * The body of the `for...in` loop for a name the application context
   * lists: a node numbered by the incremented counter, then the links of the
   * dependencies, both taken from the application context's record.
   */
  method AddBean(d: Draft, name: string, bean: Bean, app: seq<Entry>, ghost done: seq<string>) returns (d': Draft)
    requires Tracks(d, done, app)
    requires Lookup(app, name) == Some(bean)
    ensures Tracks(d', done + [name], app)
  {
    OccurrenceStep(done, name, app);
    var node := Node(name, d.counter + 1, GroupMapper(name), bean.resource);
    assert node == Node(name, |done| + 1, GroupMapper(name), ResourceOf(app, name));
    var links, linkNames := PushDependencies(d.links, d.linkNames, name, bean.dependencies);
    d' := Draft(d.nodes + [node], links, d.nodeNames + {name}, linkNames, d.counter + 1);
  }

  /** One more context adds the qualifying names it lists. */
  lemma ContextStep(contexts: seq<Context>, i: nat, app: seq<Entry>)
    requires i < |contexts|
    ensures Occurrences(contexts[..i + 1], app)
         == Occurrences(contexts[..i], app)
            + (if contexts[i].beans.Some? then QualifyingIn(contexts[i].beans.value, app) else [])
    ensures ListsABean(contexts[..i + 1])
        <==> (ListsABean(contexts[..i]) || (contexts[i].beans.Some? && |contexts[i].beans.value| > 0))
  {
    assert contexts[..i + 1][..i] == contexts[..i];
    var c := contexts[..i + 1];
    if ListsABean(c) {
      var k :| 0 <= k < |c| && c[k].beans.Some? && |c[k].beans.value| > 0;
      if k < i { assert contexts[..i][k] == c[k]; }
    }
    if ListsABean(contexts[..i]) {
      var k :| 0 <= k < i && contexts[..i][k].beans.Some? && |contexts[..i][k].beans.value| > 0;
      assert c[k] == contexts[..i][k];
    }
  }

  /** One more bean of a context adds its name when the application context lists it. */
  lemma QualifyingStep(occ: seq<string>, beans: seq<Entry>, j: nat, app: seq<Entry>)
    requires j < |beans|
    ensures occ + QualifyingIn(beans[..j + 1], app)
         == occ + QualifyingIn(beans[..j], app) + (if Lookup(app, beans[j].name).Some? then [beans[j].name] else [])
  {
    assert beans[..j + 1][..j] == beans[..j];
  }

  /** One more occurrence adds its node, its links and its name. */
  lemma OccurrenceStep(occ: seq<string>, name: string, app: seq<Entry>)
    ensures RealNodes(occ + [name], app)
         == RealNodes(occ, app) + [Node(name, |occ| + 1, GroupMapper(name), ResourceOf(app, name))]
    ensures RealLinks(occ + [name], app) == RealLinks(occ, app) + LinksOf(name, DependenciesOf(app, name))
    ensures Elements(occ + [name]) == Elements(occ) + {name}
  {
    assert (occ + [name])[..|occ|] == occ;
  }

  /**
   * `bean.dependencies.forEach`: one link per dependency, in order, each
   * target also added to the insertion-ordered set of referenced names.
   */
  method PushDependencies(links: seq<Link>, linkNames: seq<string>, name: string, dependencies: seq<string>)
    returns (links': seq<Link>, linkNames': seq<string>)
    requires linkNames == InsertionOrder(Targets(links))
    ensures links' == links + LinksOf(name, dependencies)
    ensures linkNames' == InsertionOrder(Targets(links'))
  {
    links', linkNames' := links, linkNames;
    for k := 0 to |dependencies|
      invariant links' == links + LinksOf(name, dependencies)[..k]
      invariant linkNames' == InsertionOrder(Targets(links'))
    {
      var dependency := dependencies[k];
      var link := Link(name, dependency, |dependencies|, None);
      assert Targets(links' + [link]) == Targets(links') + [dependency];
      assert (Targets(links') + [dependency])[..|links'|] == Targets(links');
      if dependency !in linkNames' {
        linkNames' := linkNames' + [dependency];
      }
      links' := links' + [link];
    }
    assert LinksOf(name, dependencies)[..|dependencies|] == LinksOf(name, dependencies);
  }

  /**
   * `linkNames.forEach`: a placeholder node, numbered on from `counter`, for
   * each referenced name that is not a real node.
   */
  method AddPlaceholders(nodes: seq<Node>, counter: nat, linkNames: seq<string>, nodeNames: set<string>)
    returns (nodes': seq<Node>)
    requires counter == |nodes|
    ensures nodes' == nodes + Placeholders(linkNames, nodeNames, |nodes|)
  {
    nodes' := nodes;
    var count := counter;
    for m := 0 to |linkNames|
      invariant nodes' == nodes + Placeholders(linkNames[..m], nodeNames, |nodes|)
      invariant count == |nodes'|
    {
      assert linkNames[..m + 1][..m] == linkNames[..m];
      var link := linkNames[m];
      if link !in nodeNames {
        count := count + 1;
        nodes' := nodes' + [Node(link, count, PlaceholderGroup, None)];
      }
    }
    assert linkNames[..|linkNames|] == linkNames;
  }

  /** `data.links.forEach(link => link.iid = ...)`: sets the key of every link in place. */
  method AssignKeys(links: seq<Link>, nodes: seq<Node>) returns (keyed: seq<Link>)
    ensures keyed == WithKeys(links, nodes)
  {
    keyed := links;
    for p := 0 to |links|
      invariant |keyed| == |links|
      invariant forall q :: 0 <= q < p ==> keyed[q] == links[q].(key := Some(LinkKey(nodes, links[q])))
      invariant forall q :: p <= q < |links| ==> keyed[q] == links[q]
    {
      var link := keyed[p];
      keyed := keyed[p := link.(key := Some(LinkKey(nodes, link)))];
    }
  }

  /** The upload handler: rejects a report without contexts, otherwise builds. */
  method Load(report: Report) returns (r: Result<Graph, RenderError>)
    ensures r == LoadSpec(report)
    ensures !HasContexts(report) ==> r == Failure(InvalidFormat)
  {
    if report.contexts.Some? && |report.contexts.value| > 0 {
      r := Build(report.contexts.value);
    } else {
      r := Failure(InvalidFormat);
    }
  }
}
