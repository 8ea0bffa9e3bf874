/** The Graphviz chart scripts build_org_chart.py and v3.py, whose pieces
    v2.py and florence.py repeat: the id-to-label dictionary, the root
    ids, the node loop and the edge loop that draws a reporting line only
    when both ends are on the chart. */
module GraphvizCharts {

  import opened Options
  import opened Roster
  import opened Reports
  import Seqs

  /** `build_label(row)` on a row whose "Name" was stripped on load. */
  function Label(r: Row): string {
    BuildLabel(NameText(r.name), r.title)
  }

  /** `{row["Unique Identifier"]: build_label(row) for _, row in
      df.iterrows()}`: the rows are entered one after another, so a later
      row with the same id overwrites an earlier one. */
  function LabelsByRow(df: seq<Row>): (labels: map<string, string>)
    ensures forall id :: id in labels <==> id in IdColumn(df)
  {
    if df == [] then map[]
    else
      var init := df[..|df| - 1];
      var last := df[|df| - 1];
      assert IdColumn(df) == IdColumn(init) + [AsStr(last.id)];
      LabelsByRow(init)[AsStr(last.id) := Label(last)]
  }

  /** `{uid: build_label(row) for uid, row in id_to_row.items()}` over the
      id-keyed row dictionary. */
  function LabelsByKey(d: RowDict): (labels: map<string, string>)
    ensures forall id :: id in labels <==> id in d.rows
  {
    map id | id in d.rows :: Label(d.rows[id])
  }

  /** Both ways of building `id_to_label` agree: one label per distinct
      id, made from the last row with that id. */
  lemma LabelsLastRowWins(df: seq<Row>)
    ensures LabelsByRow(df) == LabelsByKey(RowsById(df))
  {
    LabelsByLastRow(df);
    var d := RowsById(df);
    assert d.rows.Keys == LastLabels(df).Keys;
  }

  /** The labels the row loop leaves: the last row's label for each id. */
  function LastLabels(df: seq<Row>): map<string, string> {
    map id | id in IdColumn(df) :: Label(RowById(df, id))
  }

  lemma LabelsByLastRow(df: seq<Row>)
    ensures LabelsByRow(df) == LastLabels(df)
  {
    LabelsAt(df);
    var a := LabelsByRow(df);
    var b := LastLabels(df);
    assert a.Keys == b.Keys;
  }

  lemma LabelsAt(df: seq<Row>)
    ensures forall id :: id in IdColumn(df) ==> id in LabelsByRow(df) && LabelsByRow(df)[id] == Label(RowById(df, id))
  {
    forall id | id in IdColumn(df)
      ensures id in LabelsByRow(df) && LabelsByRow(df)[id] == Label(RowById(df, id))
    {
      LabelAt(df, id);
    }
  }

  /** The row loop leaves each id with the label of its last row. */
  lemma {:induction false} LabelAt(df: seq<Row>, id: string)
    requires id in IdColumn(df)
    ensures id in LabelsByRow(df) && LabelsByRow(df)[id] == Label(RowById(df, id))
  {
    var init := df[..|df| - 1];
    RowByIdSnoc(df, id);
    if id != AsStr(df[|df| - 1].id) {
      LabelAt(init, id);
    }
  }

  /** The row at `i` has id `u` and a null manager. */
  ghost predicate RootRow(df: seq<Row>, i: int, u: string) {
    0 <= i < |df| && AsStr(df[i].id) == u && IsNull(ManagerCell(df[i].reportsTo))
  }

  /** `df[df["Reports To"].apply(is_null)]["Unique Identifier"].tolist()`:
      the ids of the rows with no manager, in row order. */
  function RootIds(df: seq<Row>): (roots: seq<string>)
    ensures |roots| <= |df|
    ensures forall u :: u in roots <==> exists i :: RootRow(df, i, u)
  {
    if df == [] then []
    else
      var init := df[..|df| - 1];
      var last := df[|df| - 1];
      var r := RootIds(init);
      assert forall i, u :: RootRow(init, i, u) ==> RootRow(df, i, u);
      assert forall i, u :: 0 <= i < |df| - 1 && RootRow(df, i, u) ==> RootRow(init, i, u);
      if IsNull(ManagerCell(last.reportsTo)) then
        assert RootRow(df, |df| - 1, AsStr(last.id));
        r + [AsStr(last.id)]
      else r
  }

  /** A Graphviz node: its id, its label text and whether it is drawn as a root. */
  datatype ChartNode = ChartNode(id: string, text: string, root: bool)

  /** The node loop: `for uid, label in id_to_label.items()`, marking the
      ids listed in `roots`. With the dictionary's keys each listed once,
      every id gets exactly one node. */
  method EmitNodes(keys: seq<string>, labels: map<string, string>, roots: seq<string>)
    returns (nodes: seq<ChartNode>)
    requires Seqs.Distinct(keys) && forall k :: k in keys <==> k in labels
    ensures |nodes| == |keys|
    ensures forall i :: 0 <= i < |nodes| ==>
              nodes[i].id == keys[i] && nodes[i].text == labels[keys[i]]
              && (nodes[i].root <==> keys[i] in roots)
    ensures forall i, j :: 0 <= i < j < |nodes| ==> nodes[i].id != nodes[j].id
    ensures forall id :: id in labels <==> exists i :: 0 <= i < |nodes| && nodes[i].id == id
  {
    nodes := [];
    var k := 0;
    while k < |keys|
      invariant 0 <= k <= |keys|
      invariant |nodes| == k
      invariant forall i :: 0 <= i < k ==>
                  nodes[i].id == keys[i] && nodes[i].text == labels[keys[i]]
                  && (nodes[i].root <==> keys[i] in roots)
    {
      var uid := keys[k];
      nodes := nodes + [ChartNode(uid, labels[uid], uid in roots)];
      k := k + 1;
    }
    forall id | id in labels
      ensures exists i :: 0 <= i < |nodes| && nodes[i].id == id
    {
      var i := Seqs.FirstIndexOf(keys, id);
      assert nodes[i].id == id;
    }
  }

  /** A reporting line from manager `from` to employee `to`. */
  datatype Edge = Edge(from: string, to: string)

  /** The row at `i` gets an edge: its manager is not null and both its
      manager and its own id are on the chart. */
  ghost predicate Drawn(links: seq<Link>, known: set<string>, i: int) {
    0 <= i < |links| && !IsNull(links[i].mgr)
    && links[i].mgr.value in known && links[i].uid in known
  }

  /** The edges the loop draws, in row order. */
  function EdgesOf(links: seq<Link>, known: set<string>): (edges: seq<Edge>)
    ensures |edges| <= |links|
    ensures forall e :: e in edges ==> e.from in known && e.to in known
  {
    if links == [] then []
    else
      var init := links[..|links| - 1];
      var last := links[|links| - 1];
      if !IsNull(last.mgr) && last.mgr.value in known && last.uid in known then
        EdgesOf(init, known) + [Edge(last.mgr.value, last.uid)]
      else EdgesOf(init, known)
  }

  /** The edge loop of build_org_chart.py, v3.py and v2.py (and, with the
      team as `known`, of florence.py): skip a null manager, otherwise
      draw `manager -> employee` when both ids are known. */
  method EmitEdges(links: seq<Link>, known: set<string>) returns (edges: seq<Edge>)
    ensures edges == EdgesOf(links, known)
  {
    edges := [];
    var k := 0;
    while k < |links|
      invariant 0 <= k <= |links|
      invariant edges == EdgesOf(links[..k], known)
    {
      assert links[..k + 1][..k] == links[..k];
      var uid := links[k].uid;
      var mgr := links[k].mgr;
      if !IsNull(mgr) {
        if mgr.value in known && uid in known {
          edges := edges + [Edge(mgr.value, uid)];
        }
      }
      k := k + 1;
    }
    assert links[..k] == links;
  }

  /** An edge is drawn exactly when some row names its source as the
      manager of its target and the row passes the filter. */
  lemma {:induction false} EdgesOfIff(links: seq<Link>, known: set<string>, a: string, b: string)
    ensures Edge(a, b) in EdgesOf(links, known) <==>
            exists i :: Drawn(links, known, i) && links[i].mgr.value == a && links[i].uid == b
  {
    if links != [] {
      var init := links[..|links| - 1];
      EdgesOfIff(init, known, a, b);
      assert forall i :: 0 <= i < |init| ==> init[i] == links[i];
      if exists i :: Drawn(links, known, i) && links[i].mgr.value == a && links[i].uid == b {
        var i :| Drawn(links, known, i) && links[i].mgr.value == a && links[i].uid == b;
        if i < |init| {
          assert Drawn(init, known, i);
        }
      }
    }
  }
}
