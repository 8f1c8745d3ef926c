/**
 * What `render` builds from a report, stated as functions: the nodes (one per
 * listed bean occurrence that the application context knows, then one
 * placeholder per unresolved dependency), the links (one per declared
 * dependency) and the key of every link. Each list is defined by extending
 * the result for a prefix, in the order the source's loops visit the input.
 */
module GraphSpec {
  import opened Report
  import opened Groups
  import opened Decimal

  /** A circle of the diagram; `iid` is its 1-based creation number. */
  datatype Node = Node(id: string, iid: nat, group: int, resource: Option<string>)

  /**
   * An arrow from a bean to one of its dependencies; `value` is the number of
   * dependencies of the source bean; `key` is unset until the key pass.
   */
  datatype Link = Link(source: string, target: string, value: nat, key: Option<string>)

  /** The nodes, the links, and the set of names that became real nodes. */
  datatype Graph = Graph(nodes: seq<Node>, links: seq<Link>, nodeNames: set<string>)

  datatype RenderError =
    | InvalidFormat   // the upload has no non-empty `contexts`
    | TypeError       // `contexts.application.beans` was read while undefined

  /** The dependencies the application context declares for `name` (none if it has no such bean). */
  function DependenciesOf(app: seq<Entry>, name: string): seq<string>
  {
    match Lookup(app, name)
    case Some(bean) => bean.dependencies
    case None => []
  }

  /** The resource the application context records for `name`, if any. */
  function ResourceOf(app: seq<Entry>, name: string): Option<string>
  {
    match Lookup(app, name)
    case Some(bean) => bean.resource
    case None => None
  }

  /** The names of `beans`, in key order, that the application context also lists. */
  function QualifyingIn(beans: seq<Entry>, app: seq<Entry>): (r: seq<string>)
    ensures forall k :: 0 <= k < |r| ==> Lookup(app, r[k]).Some?
    ensures |r| <= |beans|
  {
    if beans == [] then []
    else
      var last := beans[|beans| - 1].name;
      QualifyingIn(beans[..|beans| - 1], app) + (if Lookup(app, last).Some? then [last] else [])
  }

  /** The qualifying bean names of every context, contexts in key order. */
  function Occurrences(contexts: seq<Context>, app: seq<Entry>): (r: seq<string>)
    ensures forall k :: 0 <= k < |r| ==> Lookup(app, r[k]).Some?
  {
    if contexts == [] then []
    else
      var last := contexts[|contexts| - 1];
      Occurrences(contexts[..|contexts| - 1], app)
        + (if last.beans.Some? then QualifyingIn(last.beans.value, app) else [])
  }

  /** One real node per occurrence, numbered from 1. */
  function RealNodes(occ: seq<string>, app: seq<Entry>): (r: seq<Node>)
    ensures |r| == |occ|
  {
    if occ == [] then []
    else
      var name := occ[|occ| - 1];
      RealNodes(occ[..|occ| - 1], app) + [Node(name, |occ|, GroupMapper(name), ResourceOf(app, name))]
  }

  /** The links one occurrence of `name` adds, one per dependency, in order. */
  function LinksOf(name: string, dependencies: seq<string>): (r: seq<Link>)
    ensures |r| == |dependencies|
  {
    seq(|dependencies|, k requires 0 <= k < |dependencies| =>
      Link(name, dependencies[k], |dependencies|, None))
  }

  /** The links of all occurrences, in occurrence order. */
  function RealLinks(occ: seq<string>, app: seq<Entry>): seq<Link>
  {
    if occ == [] then []
    else
      var name := occ[|occ| - 1];
      RealLinks(occ[..|occ| - 1], app) + LinksOf(name, DependenciesOf(app, name))
  }

  function Targets(links: seq<Link>): (r: seq<string>)
    ensures |r| == |links|
  {
    seq(|links|, i requires 0 <= i < |links| => links[i].target)
  }

  /** The distinct elements of `s` in order of first appearance: how a JavaScript `Set` iterates. */
  function InsertionOrder(s: seq<string>): (r: seq<string>)
    ensures forall x :: x in r <==> x in s
    ensures forall i, j :: 0 <= i < j < |r| ==> r[i] != r[j]
  {
    if s == [] then []
    else
      var prev := InsertionOrder(s[..|s| - 1]);
      var x := s[|s| - 1];
      assert forall y :: y in s <==> y in s[..|s| - 1] || y == x;
      if x in prev then prev else prev + [x]
  }

  /**
   * The placeholder nodes for `names` (in that order) that are not in `known`,
   * numbered on from `start`.
   */
  function Placeholders(names: seq<string>, known: set<string>, start: nat): (r: seq<Node>)
    ensures |r| <= |names|
  {
    if names == [] then []
    else
      var prev := Placeholders(names[..|names| - 1], known, start);
      var name := names[|names| - 1];
      if name in known then prev
      else prev + [Node(name, start + |prev| + 1, PlaceholderGroup, None)]
  }

  /** `name2iid`: the `iid` of the first node with that id, or None (the source's ''). */
  function NameToIid(nodes: seq<Node>, name: string): (r: Option<nat>)
    ensures r.None? <==> forall k :: 0 <= k < |nodes| ==> nodes[k].id != name
    ensures r.Some? ==> exists k :: 0 <= k < |nodes| && nodes[k].id == name && nodes[k].iid == r.value
                                    && forall j :: 0 <= j < k ==> nodes[j].id != name
  {
    if nodes == [] then None
    else if nodes[0].id == name then Some(nodes[0].iid)
    else
      var r := NameToIid(nodes[1..], name);
      assert forall k :: 1 <= k < |nodes| ==> nodes[k] == nodes[1..][k - 1];
      r
  }

  /** An `iid` as a template literal writes it; the empty string for None. */
  function IidText(iid: Option<nat>): string
  {
    match iid
    case Some(n) => NatToString(n)
    case None => ""
  }

  /** `l<iid(source)>_<iid(target)>`. */
  function LinkKey(nodes: seq<Node>, link: Link): string
  {
    "l" + IidText(NameToIid(nodes, link.source)) + "_" + IidText(NameToIid(nodes, link.target))
  }

  /** Every link with its key set. */
  function WithKeys(links: seq<Link>, nodes: seq<Node>): (r: seq<Link>)
    ensures |r| == |links|
  {
    seq(|links|, i requires 0 <= i < |links| => links[i].(key := Some(LinkKey(nodes, links[i]))))
  }

  /** Some context lists at least one bean, so the application beans get read. */
  predicate ListsABean(contexts: seq<Context>)
  {
    exists k :: 0 <= k < |contexts| && contexts[k].beans.Some? && |contexts[k].beans.value| > 0
  }

  /** The application context's beans, or none when it is missing. */
  function AppEntries(contexts: seq<Context>): seq<Entry>
  {
    match ApplicationBeans(contexts)
    case Some(entries) => entries
    case None => []
  }

  /** The names that become real nodes (`nodeNames`). */
  function Elements(occ: seq<string>): set<string>
  {
    set x | x in occ
  }

  /** The graph `render` builds from `contexts`, or the TypeError it throws. */
  function BuildSpec(contexts: seq<Context>): Result<Graph, RenderError>
  {
    if ApplicationBeans(contexts).None? && ListsABean(contexts) then Failure(TypeError)
    else
      var app := AppEntries(contexts);
      var occ := Occurrences(contexts, app);
      var realNodes := RealNodes(occ, app);
      var links := RealLinks(occ, app);
      var nodes := realNodes + Placeholders(InsertionOrder(Targets(links)), Elements(occ), |realNodes|);
      Success(Graph(nodes, WithKeys(links, nodes), Elements(occ)))
  }

  /** Loading an upload: rejected without contexts, otherwise built. */
  function LoadSpec(report: Report): Result<Graph, RenderError>
  {
    if HasContexts(report) then BuildSpec(report.contexts.value) else Failure(InvalidFormat)
  }
}
