/** org_chart/florence.py: the chart of one manager's whole team. The
    manager is the first person whose name mentions "Florence"; the team is
    everyone reachable from her through "Reports To"; the edges are the
    reporting lines inside the team. */
module Florence {

  import opened Options
  import opened Strings
  import opened Roster
  import opened Reports
  import opened GraphvizCharts

  /** "Reports To" after `.astype(str).str.strip()` and the replacement of
      "nan", "None" and "" by None. */
  function TeamManager(c: Cell): (r: Cell)
    ensures r.None? <==> Strip(AsStr(c)) == "nan" || Strip(AsStr(c)) == "None" || Strip(AsStr(c)) == ""
    ensures r.Some? ==> r.value == Strip(AsStr(c))
  {
    var s := Strip(AsStr(c));
    if s == "nan" || s == "None" || s == "" then None else Some(s)
  }

  /** "Unique Identifier" after `.astype(str).str.strip()`. */
  function TeamId(c: Cell): string {
    Strip(AsStr(c))
  }

  /** The rows as this script scans them. */
  function TeamLinks(df: seq<Row>): (links: seq<Link>)
    ensures |links| == |df|
    ensures forall i :: 0 <= i < |df| ==>
              links[i].uid == TeamId(df[i].id) && links[i].mgr == TeamManager(df[i].reportsTo)
  {
    seq(|df|, i requires 0 <= i < |df| => Link(TeamId(df[i].id), TeamManager(df[i].reportsTo)))
  }

  /** Python truthiness of a manager value, the test `if mgr:`. */
  predicate Truthy(x: Cell) {
    x.Some? && x.value != ""
  }

  /** On the normalised column `if mgr:` and `not is_null(mgr)` agree, so
      the adjacency map and the edge filter of the chart scripts apply
      here unchanged. */
  lemma TruthyIsNotNull(c: Cell)
    ensures Truthy(TeamManager(c)) <==> !IsNull(TeamManager(c))
  {
    var s := Strip(AsStr(c));
    if TeamManager(c).Some? {
      StripByIdempotent(AsStr(c), IsSpace);
      BlankIff(s);
    }
  }

  /** `df["Name"].str.contains("Florence", case=False)` on one row. */
  predicate NamesFlorence(r: Row) {
    Contains(Lower(NameText(r.name)), "florence")
  }

  /** The first position from `k` on whose element satisfies `p`; None
      when there is none. */
  function FirstWhere<T>(s: seq<T>, p: T -> bool, k: nat): (r: Option<nat>)
    requires k <= |s|
    ensures r.Some? ==> k <= r.value < |s| && p(s[r.value])
                        && forall j :: k <= j < r.value ==> !p(s[j])
    ensures r.None? ==> forall j :: k <= j < |s| ==> !p(s[j])
    decreases |s| - k
  {
    if k == |s| then None
    else if p(s[k]) then Some(k)
    else FirstWhere(s, p, k + 1)
  }

  /** `df[df["Name"].str.contains("Florence", case=False)].iloc[0]`: the
      first matching row; None where `.iloc[0]` fails on no match. */
  function FindFlorence(df: seq<Row>): (r: Option<nat>)
    ensures r.Some? ==> r.value < |df| && NamesFlorence(df[r.value])
                        && forall j :: 0 <= j < r.value ==> !NamesFlorence(df[j])
    ensures r.None? ==> forall j :: 0 <= j < |df| ==> !NamesFlorence(df[j])
  {
    FirstWhere(df, NamesFlorence, 0)
  }

  /** `for r in manager_to_reports.get(current, []): stack.append(r)`. */
  method PushAll(stack: seq<string>, reports: seq<string>) returns (out: seq<string>)
    ensures out == stack + reports
  {
    out := stack;
    var j := 0;
    while j < |reports|
      invariant 0 <= j <= |reports|
      invariant out == stack + reports[..j]
    {
      assert reports[..j + 1] == reports[..j] + [reports[j]];
      out := out + [reports[j]];
      j := j + 1;
    }
    assert reports[..j] == reports;
  }

  /** The subtree loop: pop, skip an id already in the team, otherwise add
      it and push all its reports. It ends on cyclic data because each id
      is added at most once; the team is the least closed set holding the
      manager, and `expanded` lists each member once. */
  method TeamOf(m: map<string, seq<string>>, lead: string)
    returns (subtree: set<string>, ghost expanded: seq<string>)
    ensures LeastClosed(m, lead, subtree)
    ensures Seqs.Distinct(expanded) && forall x :: x in expanded <==> x in subtree
  {
    ghost var u := Universe(m, lead);
    subtree := {};
    expanded := [];
    var stack := [lead];
    while stack != []
      invariant WalkInv(m, lead, u, subtree, stack, expanded)
      decreases |u - subtree|, |stack|
    {
      var current := stack[|stack| - 1];
      ghost var full := stack;
      stack := stack[..|stack| - 1];
      if current in subtree {
        WalkSkip(m, lead, u, subtree, full, expanded);
      } else {
        stack := PushAll(stack, Get(m, current));
        WalkVisit(m, lead, u, subtree, full, expanded, stack);
        subtree := subtree + {current};
        expanded := expanded + [current];
      }
    }
    WalkDone(m, lead, u, subtree, expanded);
  }

  /** What the chart shows: the manager's id, the team and its edges. */
  datatype Team = Team(lead: string, members: set<string>, edges: seq<Edge>)

  /** The whole script up to rendering: find the manager, build
      `manager_to_reports`, walk the team, then draw each row's reporting
      line when the manager is set and both ends are in the team. Fails
      exactly when no name mentions "Florence". */
  method FlorenceChart(df: seq<Row>) returns (r: Option<Team>)
    ensures r.None? <==> FindFlorence(df).None?
    ensures r.Some? ==>
              && r.value.lead == TeamId(df[FindFlorence(df).value].id)
              && LeastClosed(ReportsMap(TeamLinks(df)), r.value.lead, r.value.members)
              && r.value.edges == EdgesOf(TeamLinks(df), r.value.members)
  {
    var found := FindFlorence(df);
    if found.None? {
      return None;
    }
    var lead := TeamId(df[found.value].id);
    var links := TeamLinks(df);
    var m := ManagerToReports(links);
    var members, _ := TeamOf(m, lead);
    var edges := EmitEdges(links, members);
    r := Some(Team(lead, members, edges));
  }

  /** Every drawn edge starts at a manager the script treats as set and
      joins two members of the team. */
  lemma TeamEdgesInside(df: seq<Row>, members: set<string>, e: Edge)
    requires e in EdgesOf(TeamLinks(df), members)
    ensures e.from in members && e.to in members
    ensures exists i :: 0 <= i < |df| && Truthy(TeamManager(df[i].reportsTo))
                        && TeamManager(df[i].reportsTo).value == e.from && TeamId(df[i].id) == e.to
  {
    var links := TeamLinks(df);
    EdgesOfIff(links, members, e.from, e.to);
    var i :| Drawn(links, members, i) && links[i].mgr.value == e.from && links[i].uid == e.to;
    TruthyIsNotNull(df[i].reportsTo);
  }
}
