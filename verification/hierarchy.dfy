/** The part org_chart/jan_21.py and org_chart/jan_22_2.py share line for
    line: the id-keyed node dictionary, the parent and child maps filled by
    one row scan, the attachment of children to their managers' nodes and
    the root list. Node dictionaries hold their children by reference; here
    a node holds its children's ids, and the scripts' node records are type
    parameters. */
module Hierarchy {

  import opened Options
  import opened Roster
  import opened Reports
  import Seqs

  /** The manager a jan script records for a row: "Reports To" after
      `.astype(str).replace({"nan": None})`, dropped when `is_null` holds
      for it (None, blank, or "nan" in any case once stripped). */
  function ParentOf(r: Row): (p: Cell)
    ensures p.None? <==> IsNullOrNan(ManagerCell(r.reportsTo))
    ensures p.Some? ==> p == r.reportsTo && !IsNull(p)
  {
    var m := ManagerCell(r.reportsTo);
    if IsNullOrNan(m) then None
    else
      Strings.BlankIff(m.value);
      m
  }

  /** The rows as the jan scripts' parent scan sees them. */
  function ParentLinks(df: seq<Row>): (links: seq<Link>)
    ensures |links| == |df|
    ensures forall i :: 0 <= i < |df| ==> links[i] == Link(AsStr(df[i].id), ParentOf(df[i]))
  {
    seq(|df|, i requires 0 <= i < |df| => Link(AsStr(df[i].id), ParentOf(df[i])))
  }

  /** What a dictionary keyed by id and written once per row ends up
      holding: `f` of the last row with each id. */
  function ByLastRow<V>(df: seq<Row>, f: Row -> V): map<string, V> {
    map id | id in IdColumn(df) :: f(RowById(df, id))
  }

  /** One more row overwrites (or adds) the entry of its own id only. */
  lemma ByLastRowSnoc<V>(df: seq<Row>, k: int, f: Row -> V)
    requires 0 <= k < |df|
    ensures ByLastRow(df[..k + 1], f) == ByLastRow(df[..k], f)[AsStr(df[k].id) := f(df[k])]
  {
    var a := df[..k + 1];
    assert a[..|a| - 1] == df[..k] && a[|a| - 1] == df[k];
    assert IdColumn(a) == IdColumn(df[..k]) + [AsStr(df[k].id)];
    var lhs := ByLastRow(a, f);
    var rhs := ByLastRow(df[..k], f)[AsStr(df[k].id) := f(df[k])];
    forall id | id in lhs
      ensures id in rhs && lhs[id] == rhs[id]
    {
      RowByIdSnoc(a, id);
    }
    assert lhs.Keys == rhs.Keys;
  }

  /** One more row adds its id at the end of the key order, unless the id
      is already a key. */
  lemma IdKeysSnoc(df: seq<Row>, k: int)
    requires 0 <= k < |df|
    ensures var id := AsStr(df[k].id);
            IdKeys(df[..k + 1]) == if id in IdKeys(df[..k]) then IdKeys(df[..k]) else IdKeys(df[..k]) + [id]
  {
    var s := IdColumn(df[..k + 1]);
    assert s[..|s| - 1] == IdColumn(df[..k]);
  }

  /** The node loop (jan_21.py lines 56-64, jan_22_2.py lines 73-102):
      `nodes[uid] = make(row)` for every row, so each id is a key once and
      holds the node made from its last row. */
  method BuildNodes<N>(df: seq<Row>, make: Row -> N) returns (nodes: map<string, N>)
    ensures nodes == ByLastRow(df, make)
  {
    nodes := map[];
    var k := 0;
    while k < |df|
      invariant 0 <= k <= |df|
      invariant nodes == ByLastRow(df[..k], make)
    {
      ByLastRowSnoc(df, k, make);
      nodes := nodes[AsStr(df[k].id) := make(df[k])];
      k := k + 1;
    }
    assert df[..k] == df;
  }

  /** The parent scan (jan_21.py lines 73-82): every row records its id in
      `parent_map`, with None when `is_null` holds for its manager, and
      otherwise appends its id to `children_map[manager]`. The keys of
      `parent_map` come in first-occurrence order and hold the last row's
      manager; `children_map` lists every row naming each manager, in row
      order, the same id as often as its rows do. */
  method ScanParents(df: seq<Row>)
    returns (keys: seq<string>, parent: map<string, Cell>, children: map<string, seq<string>>)
    ensures keys == IdKeys(df)
    ensures parent == ByLastRow(df, ParentOf)
    ensures children == ReportsMap(ParentLinks(df))
  {
    ghost var links := ParentLinks(df);
    keys, parent, children := [], map[], map[];
    var k := 0;
    while k < |df|
      invariant 0 <= k <= |df|
      invariant keys == IdKeys(df[..k])
      invariant parent == ByLastRow(df[..k], ParentOf)
      invariant children == ReportsMap(links[..k])
    {
      var uid := AsStr(df[k].id);
      var managerId := ManagerCell(df[k].reportsTo);
      IdKeysSnoc(df, k);
      ByLastRowSnoc(df, k, ParentOf);
      ReportsStep(links, k);
      if uid !in keys {
        keys := keys + [uid];
      }
      if IsNullOrNan(managerId) {
        parent := parent[uid := None];
      } else {
        parent := parent[uid := managerId];
        children := children[managerId.value := Get(children, managerId.value) + [uid]];
      }
      k := k + 1;
    }
    assert df[..k] == df;
    assert links[..k] == links;
  }

  /** `[nodes[cid] for cid in child_ids if cid in nodes]`, by id. */
  function Present<N>(ids: seq<string>, nodes: map<string, N>): seq<string> {
    Seqs.Filter(ids, (c: string) => c in nodes)
  }

  /** The node dictionary once every manager in `cm` that has a node holds
      its children that have nodes; `attach` replaces a node's children. */
  function Attached<N>(nodes: map<string, N>, cm: map<string, seq<string>>, attach: (N, seq<string>) -> N)
    : map<string, N>
  {
    map id | id in nodes :: if id in cm then attach(nodes[id], Present(cm[id], nodes)) else nodes[id]
  }

  /** The attachment loop (jan_21.py lines 85-87): each manager of
      `children_map` that has a node gets its children that have nodes,
      in list order. Each manager is handled once and the handling of one
      does not read another's, so the loop's visiting order is left open. */
  method AttachChildren<N>(nodes: map<string, N>, cm: map<string, seq<string>>, attach: (N, seq<string>) -> N)
    returns (out: map<string, N>)
    ensures out == Attached(nodes, cm, attach)
  {
    out := nodes;
    var todo := cm.Keys;
    while todo != {}
      invariant todo <= cm.Keys
      invariant out.Keys == nodes.Keys
      invariant forall id :: id in nodes ==>
                  out[id] == if id in cm && id !in todo then attach(nodes[id], Present(cm[id], nodes)) else nodes[id]
      decreases |todo|
    {
      var p :| p in todo;
      if p in out {
        out := out[p := attach(out[p], Present(cm[p], out))];
      }
      todo := todo - {p};
    }
  }

  /** `[uid for uid, pid in parent_map.items() if pid is None]`. */
  function RootsOf(keys: seq<string>, parent: map<string, Cell>): seq<string> {
    Seqs.Filter(keys, (uid: string) => uid in parent && parent[uid].None?)
  }

  /** The roots of a roster: the ids whose last row has no manager. */
  function Roots(df: seq<Row>): seq<string> {
    RootsOf(IdKeys(df), ByLastRow(df, ParentOf))
  }

  /** Each root is listed once, in first-occurrence order of the ids, and
      an id is a root exactly when the last row with it has a null
      manager. */
  lemma RootsIff(df: seq<Row>)
    ensures Seqs.Distinct(Roots(df))
    ensures forall u :: u in Roots(df) <==> u in IdColumn(df) && ParentOf(RowById(df, u)).None?
  {
    Seqs.FilterDistinct(IdKeys(df), (uid: string) => uid in ByLastRow(df, ParentOf) && ByLastRow(df, ParentOf)[uid].None?);
  }

  /** Every id a row lists under a manager is the id of a row. */
  lemma ReportsAreIds(df: seq<Row>, m: string)
    ensures forall u :: u in ReportsOf(ParentLinks(df), m) ==> u in IdColumn(df)
  {
    forall u | u in ReportsOf(ParentLinks(df), m)
      ensures u in IdColumn(df)
    {
      var i :| LinkAt(ParentLinks(df), i, u, m);
      assert IdColumn(df)[i] == u;
    }
  }

  /** The node dictionary after attachment: an id's node is the one made
      from its last row, holding as children every row that names it as
      manager, in row order. The `if cid in nodes` test never drops
      anything, since every listed child is the id of a row. */
  lemma AttachedChildren<N>(df: seq<Row>, make: Row -> N, attach: (N, seq<string>) -> N, p: string)
    requires p in IdColumn(df)
    ensures var t := Attached(ByLastRow(df, make), ReportsMap(ParentLinks(df)), attach);
            && p in t
            && t[p] == if ReportsOf(ParentLinks(df), p) == [] then make(RowById(df, p))
                       else attach(make(RowById(df, p)), ReportsOf(ParentLinks(df), p))
  {
    var links := ParentLinks(df);
    var nodes := ByLastRow(df, make);
    ReportsOfManager(links, p);
    if p in Managers(links) {
      ReportsAreIds(df, p);
      Seqs.FilterKeepsAll(ReportsOf(links, p), (c: string) => c in nodes);
    }
  }

  /** A row whose manager is not the id of any row, when it is the only
      row with its id, makes neither a root nor anyone's child: that
      person is on no chart. */
  lemma DanglingDropped(df: seq<Row>, i: int)
    requires 0 <= i < |df|
    requires ParentOf(df[i]).Some? && ParentOf(df[i]).value !in IdColumn(df)
    requires forall j :: 0 <= j < |df| && j != i ==> AsStr(df[j].id) != AsStr(df[i].id)
    ensures AsStr(df[i].id) !in Roots(df)
    ensures forall m :: AsStr(df[i].id) !in ReportsOf(ParentLinks(df), m) || m !in IdColumn(df)
  {
    var u := AsStr(df[i].id);
    assert RowById(df, u) == df[i];
    RootsIff(df);
    forall m | u in ReportsOf(ParentLinks(df), m)
      ensures m !in IdColumn(df)
    {
      var j :| LinkAt(ParentLinks(df), j, u, m);
    }
  }
}
