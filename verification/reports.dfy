/** The manager-to-reports adjacency that department.py and florence.py
    fill from the roster, and the closure property their subtree walks
    establish. */
module Reports {

  import opened Options
  import opened Seqs
  import opened Roster

  /** One row as the adjacency loop sees it: the employee id and the
      (possibly missing) manager id. */
  datatype Link = Link(uid: string, mgr: Cell)

  /** The rows as department.py, build_org_chart.py, v3.py and v2.py
      scan them: the `astype(str)` id and "Reports To" with the text "nan"
      read as missing. */
  function RosterLinks(df: seq<Row>): (links: seq<Link>)
    ensures |links| == |df|
    ensures forall i :: 0 <= i < |df| ==>
              links[i].uid == AsStr(df[i].id) && links[i].mgr == ManagerCell(df[i].reportsTo)
  {
    seq(|df|, i requires 0 <= i < |df| => Link(AsStr(df[i].id), ManagerCell(df[i].reportsTo)))
  }

  /** The row of position `i` names `u` as a direct report of `m`. */
  ghost predicate LinkAt(links: seq<Link>, i: int, u: string, m: string) {
    0 <= i < |links| && !IsNull(links[i].mgr) && links[i].mgr.value == m && links[i].uid == u
  }

  /** The reports of `m`, in row order: `manager_to_reports[m]`. */
  function ReportsOf(links: seq<Link>, m: string): (r: seq<string>)
    ensures |r| <= |links|
    ensures forall u :: u in r <==> exists i :: LinkAt(links, i, u, m)
  {
    if links == [] then []
    else
      var init := links[..|links| - 1];
      var last := links[|links| - 1];
      var r := ReportsOf(init, m);
      assert forall i, u :: LinkAt(init, i, u, m) ==> LinkAt(links, i, u, m);
      assert forall i, u :: 0 <= i < |links| - 1 && LinkAt(links, i, u, m) ==> LinkAt(init, i, u, m);
      if !IsNull(last.mgr) && last.mgr.value == m then
        assert LinkAt(links, |links| - 1, last.uid, m);
        r + [last.uid]
      else r
  }

  /** Adding a row extends only its own manager's list, at the end. */
  lemma ReportsOfSnoc(links: seq<Link>, m: string)
    requires links != []
    ensures var last := links[|links| - 1];
            ReportsOf(links, m) == ReportsOf(links[..|links| - 1], m) +
              (if !IsNull(last.mgr) && last.mgr.value == m then [last.uid] else [])
  {
  }

  /** The managers that have at least one report. */
  function Managers(links: seq<Link>): set<string> {
    set i | 0 <= i < |links| && !IsNull(links[i].mgr) :: links[i].mgr.value
  }

  /** The finished `manager_to_reports`: every manager with a report,
      mapped to its reports in row order. */
  function ReportsMap(links: seq<Link>): map<string, seq<string>> {
    map x | x in Managers(links) :: ReportsOf(links, x)
  }

  /** `manager_to_reports.get(x, [])`. */
  function Get(m: map<string, seq<string>>, x: string): seq<string> {
    if x in m then m[x] else []
  }

  /** department.py lines 93-100 and florence.py lines 32-38: rows with a
      null manager are skipped; every other row appends its id to its
      manager's list, creating the list on first use. */
  method ManagerToReports(links: seq<Link>) returns (m: map<string, seq<string>>)
    ensures m == ReportsMap(links)
  {
    m := map[];
    var k := 0;
    while k < |links|
      invariant 0 <= k <= |links| && m == ReportsMap(links[..k])
    {
      var link := links[k];
      ReportsStep(links, k);
      if !IsNull(link.mgr) {
        m := m[link.mgr.value := Get(m, link.mgr.value) + [link.uid]];
      }
      k := k + 1;
    }
    assert links[..k] == links;
  }

  /** One more row appends its id to its own manager's list only,
      creating the list on first use. */
  lemma ReportsStep(links: seq<Link>, k: int)
    requires 0 <= k < |links|
    ensures var l := links[k];
            var m := ReportsMap(links[..k]);
            ReportsMap(links[..k + 1]) ==
              if IsNull(l.mgr) then m else m[l.mgr.value := Get(m, l.mgr.value) + [l.uid]]
  {
    var l := links[k];
    var m := ReportsMap(links[..k]);
    var m' := if IsNull(l.mgr) then m else m[l.mgr.value := Get(m, l.mgr.value) + [l.uid]];
    assert links[..k + 1][..k] == links[..k];
    forall x
      ensures ReportsOf(links[..k + 1], x) ==
              ReportsOf(links[..k], x) + (if !IsNull(l.mgr) && l.mgr.value == x then [l.uid] else [])
    {
      ReportsOfSnoc(links[..k + 1], x);
    }
    assert Managers(links[..k + 1]) == Managers(links[..k]) + (if IsNull(l.mgr) then {} else {l.mgr.value});
    if !IsNull(l.mgr) && l.mgr.value !in m {
      ReportsOfManager(links[..k], l.mgr.value);
    }
    SameReportsMap(links[..k + 1], m');
  }

  lemma SameReportsMap(links: seq<Link>, m: map<string, seq<string>>)
    requires forall x :: x in m <==> x in Managers(links)
    requires forall x :: x in m ==> m[x] == ReportsOf(links, x)
    ensures m == ReportsMap(links)
  {
  }

  /** Each report list is never empty, and a report list holds exactly the
      rows that name that manager: an adjacency entry is `Get` of it. */
  lemma ReportsOfManager(links: seq<Link>, x: string)
    ensures x in Managers(links) <==> ReportsOf(links, x) != []
  {
    if x in Managers(links) {
      var i :| 0 <= i < |links| && !IsNull(links[i].mgr) && links[i].mgr.value == x;
      assert LinkAt(links, i, links[i].uid, x);
      assert links[i].uid in ReportsOf(links, x);
    }
    if ReportsOf(links, x) != [] {
      var u := ReportsOf(links, x)[0];
      assert u in ReportsOf(links, x);
      var i :| LinkAt(links, i, u, x);
    }
  }

  /** Every report of a member of `s` is in `s`. */
  ghost predicate Closed(m: map<string, seq<string>>, s: set<string>) {
    forall x :: x in s ==> forall c :: c in Get(m, x) ==> c in s
  }

  /** The ids a walk from `root` can meet: `root` and every listed report. */
  function Universe(m: map<string, seq<string>>, root: string): set<string> {
    {root} + set x, c | x in m && c in m[x] :: c
  }

  /** `s` is the least set that holds `root` and is closed under reports:
      exactly the ids reachable from `root`. */
  ghost predicate LeastClosed(m: map<string, seq<string>>, root: string, s: set<string>) {
    && root in s && Closed(m, s)
    && forall t :: Closed(m, t) && root in t ==> s <= t
  }

  /** The ids a walk can meet form a closed set. */
  lemma UniverseClosed(m: map<string, seq<string>>, root: string)
    ensures root in Universe(m, root) && Closed(m, Universe(m, root))
  {
    var u := Universe(m, root);
    forall x, c | x in u && c in Get(m, x)
      ensures c in u
    {
      assert x in m && c in m[x];
    }
  }

  /** Every member of the least closed set other than `root` is a direct
      report of another member: membership is reachability from `root`. */
  lemma LeastClosedHasManager(m: map<string, seq<string>>, root: string, s: set<string>, x: string)
    requires LeastClosed(m, root, s)
    requires x in s && x != root
    ensures exists y :: y in s && x in Get(m, y)
  {
    if !exists y :: y in s && x in Get(m, y) {
      var t := s - {x};
      forall y, c | y in t && c in Get(m, y)
        ensures c in t
      {
        assert c in s;
      }
      assert Closed(m, t);
    }
  }

  /** A set that contains `root`, is closed and lies inside every closed
      set containing `root` is unique, so any two walks agree. */
  lemma LeastClosedUnique(m: map<string, seq<string>>, root: string, s: set<string>, t: set<string>)
    requires LeastClosed(m, root, s) && LeastClosed(m, root, t)
    ensures s == t
  {
    assert s <= t && t <= s;
  }

  // The stack walks of department.py and florence.py share one loop
  // invariant; each pop either skips a seen id or expands a new one.

  /** Everything seen or waiting lies among the ids the walk can meet. */
  ghost predicate Within(u: set<string>, seen: set<string>, stack: seq<string>) {
    seen <= u && forall y :: y in stack ==> y in u
  }

  /** Everything seen or waiting lies in every closed set holding `root`. */
  ghost predicate InEveryClosed(m: map<string, seq<string>>, root: string,
                                seen: set<string>, stack: seq<string>) {
    forall t :: Closed(m, t) && root in t ==> seen <= t && forall y :: y in stack ==> y in t
  }

  /** What holds before each pop of the walk. */
  ghost predicate WalkInv(m: map<string, seq<string>>, root: string, u: set<string>,
                          seen: set<string>, stack: seq<string>, expanded: seq<string>) {
    && u == Universe(m, root)
    && Within(u, seen, stack)
    && (seen == {} ==> stack == [root])
    && (seen != {} ==> root in seen)
    && Frontier(m, seen, stack)
    && InEveryClosed(m, root, seen, stack)
    && Distinct(expanded) && (forall x :: x in expanded <==> x in seen)
  }

  /** Popping an id already seen keeps the invariant. */
  lemma WalkSkip(m: map<string, seq<string>>, root: string, u: set<string>,
                 seen: set<string>, full: seq<string>, expanded: seq<string>)
    requires full != [] && full[|full| - 1] in seen
    requires WalkInv(m, root, u, seen, full, expanded)
    ensures WalkInv(m, root, u, seen, full[..|full| - 1], expanded)
  {
    assert forall y :: y in full[..|full| - 1] ==> y in full;
    FrontierPop(m, seen, full);
  }

  /** Expanding a new id keeps the invariant and brings the walk closer to
      having seen every id it can meet. */
  lemma WalkVisit(m: map<string, seq<string>>, root: string, u: set<string>,
                  seen: set<string>, full: seq<string>, expanded: seq<string>,
                  after: seq<string>)
    requires full != [] && full[|full| - 1] !in seen
    requires WalkInv(m, root, u, seen, full, expanded)
    requires forall y :: y in full[..|full| - 1] ==> y in after
    requires forall y :: y in after ==> y in full[..|full| - 1] || y in Get(m, full[|full| - 1])
    requires forall c :: c in Get(m, full[|full| - 1]) ==> c in seen + {full[|full| - 1]} || c in after
    ensures WalkInv(m, root, u, seen + {full[|full| - 1]}, after, expanded + [full[|full| - 1]])
    ensures |u - (seen + {full[|full| - 1]})| < |u - seen|
  {
    var x := full[|full| - 1];
    assert x in full;
    assert u - (seen + {x}) < u - seen;
    WalkExpand(m, root, u, seen, full, after);
    FrontierExpand(m, seen, full, after);
    ExpandOnce(seen, expanded, x);
  }

  lemma ExpandOnce(seen: set<string>, expanded: seq<string>, x: string)
    requires Distinct(expanded) && (forall y :: y in expanded <==> y in seen)
    requires x !in seen
    ensures Distinct(expanded + [x]) && (forall y :: y in expanded + [x] <==> y in seen + {x})
  {
  }

  /** An empty stack leaves the least closed set holding `root`. */
  lemma WalkDone(m: map<string, seq<string>>, root: string, u: set<string>,
                 seen: set<string>, expanded: seq<string>)
    requires WalkInv(m, root, u, seen, [], expanded)
    ensures LeastClosed(m, root, seen)
  {
  }

  lemma WalkExpand(m: map<string, seq<string>>, root: string, u: set<string>,
                   seen: set<string>, full: seq<string>, after: seq<string>)
    requires full != [] && u == Universe(m, root)
    requires Within(u, seen, full) && InEveryClosed(m, root, seen, full)
    requires forall y :: y in after ==> y in full[..|full| - 1] || y in Get(m, full[|full| - 1])
    ensures Within(u, seen + {full[|full| - 1]}, after)
    ensures InEveryClosed(m, root, seen + {full[|full| - 1]}, after)
  {
    var x := full[|full| - 1];
    assert forall y :: y in full[..|full| - 1] ==> y in full;
    forall c | c in Get(m, x)
      ensures c in u
    {
      assert x in m && c in m[x];
    }
  }

  /** Every report of a seen id is seen or still waiting on the stack. */
  ghost predicate Frontier(m: map<string, seq<string>>, seen: set<string>, stack: seq<string>) {
    forall x, c :: x in seen && c in Get(m, x) ==> c in seen || c in stack
  }

  lemma FrontierPop(m: map<string, seq<string>>, seen: set<string>, full: seq<string>)
    requires full != [] && full[|full| - 1] in seen
    requires Frontier(m, seen, full)
    ensures Frontier(m, seen, full[..|full| - 1])
  {
    assert forall y :: y in full ==> y == full[|full| - 1] || y in full[..|full| - 1];
  }

  lemma FrontierExpand(m: map<string, seq<string>>, seen: set<string>, full: seq<string>,
                       after: seq<string>)
    requires full != []
    requires Frontier(m, seen, full)
    requires forall y :: y in full[..|full| - 1] ==> y in after
    requires forall c :: c in Get(m, full[|full| - 1]) ==>
               c in seen + {full[|full| - 1]} || c in after
    ensures Frontier(m, seen + {full[|full| - 1]}, after)
  {
    assert forall y :: y in full ==> y == full[|full| - 1] || y in full[..|full| - 1];
  }
}
