/**
 * The bean report read by the visualizer: the JSON object produced by the
 * Spring Boot Actuator `/beans` endpoint. A JSON object is modelled as an
 * ordered list of entries, in the order `Object.keys` and `for...in` visit
 * its keys; a lookup returns the first entry with the wanted key.
 */
module Report {

  datatype Option<+T> = None | Some(value: T)

  datatype Result<+T, +E> = Success(value: T) | Failure(error: E)

  /** One bean record: where it was defined and the names it depends on. */
  datatype Bean = Bean(resource: Option<string>, dependencies: seq<string>)

  /** One key of a `beans` object. */
  datatype Entry = Entry(name: string, bean: Bean)

  /** One application context; `beans` is absent in some contexts. */
  datatype Context = Context(name: string, beans: Option<seq<Entry>>)

  /** The parsed file; `contexts` may be missing from a malformed upload. */
  datatype Report = Report(contexts: Option<seq<Context>>)

  /** The name of the context that decides which beans exist. */
  const ApplicationContext: string := "application"

  /**
   * `beans.hasOwnProperty(name)` followed by `beans[name]`: the record of the
   * first entry called `name`, or None when there is none.
   */
  function Lookup(entries: seq<Entry>, name: string): (r: Option<Bean>)
    ensures r.None? <==> forall k :: 0 <= k < |entries| ==> entries[k].name != name
    ensures r.Some? ==> exists k :: 0 <= k < |entries| && entries[k] == Entry(name, r.value)
                                    && forall j :: 0 <= j < k ==> entries[j].name != name
  {
    if entries == [] then None
    else if entries[0].name == name then Some(entries[0].bean)
    else
      var r := Lookup(entries[1..], name);
      assert forall k :: 1 <= k < |entries| ==> entries[k] == entries[1..][k - 1];
      r
  }

  /**
   * `inData.contexts.application.beans`: the beans of the first context named
   * "application", or None when that context or its `beans` is missing.
   */
  function ApplicationBeans(contexts: seq<Context>): (r: Option<seq<Entry>>)
    ensures r.Some? ==> exists k :: 0 <= k < |contexts| && contexts[k].name == ApplicationContext
                                    && contexts[k].beans == r
                                    && forall j :: 0 <= j < k ==> contexts[j].name != ApplicationContext
    ensures (forall k :: 0 <= k < |contexts| ==> contexts[k].name != ApplicationContext) ==> r.None?
    ensures forall k ::
              (0 <= k < |contexts| && contexts[k].name == ApplicationContext
               && forall j :: 0 <= j < k ==> contexts[j].name != ApplicationContext)
              ==> r == contexts[k].beans
  {
    if contexts == [] then None
    else if contexts[0].name == ApplicationContext then contexts[0].beans
    else
      var r := ApplicationBeans(contexts[1..]);
      assert forall k :: 1 <= k < |contexts| ==> contexts[k] == contexts[1..][k - 1];
      r
  }

  /** The bean names a context lists, in key order; none when it has no `beans`. */
  function ListedNames(c: Context): (r: seq<string>)
    ensures |r| == (if c.beans.Some? then |c.beans.value| else 0)
    ensures forall x :: x in r <==> c.beans.Some? && exists j :: 0 <= j < |c.beans.value| && c.beans.value[j].name == x
  {
    if c.beans.Some? then
      var names := seq(|c.beans.value|, k requires 0 <= k < |c.beans.value| => c.beans.value[k].name);
      assert forall k :: 0 <= k < |names| ==> names[k] == c.beans.value[k].name;
      names
    else []
  }

  /**
   * The check made after parsing an upload: the report is accepted only when
   * `contexts` is present and has at least one key.
   */
  predicate HasContexts(report: Report)
  {
    report.contexts.Some? && |report.contexts.value| > 0
  }
}
