/** org_chart/jan_21.py: the nested hierarchy handed to the OrgChart page.
    Every id gets a node from its last row, managers that have a node get
    their children, and the chart root is the single root or a virtual
    root over all of them; no root at all is an error. */
module Jan21 {

  import opened Options
  import opened Roster
  import opened Reports
  import opened Hierarchy
  import Seqs

  /** A node of the hierarchy: "id", "name", "title", "org" and the ids
      of its "children". The title and organisation cells are kept as
      read, since `value or ""` leaves both a text and a missing value
      unchanged. */
  datatype Person = Person(id: string, name: string, title: Cell, org: Cell, children: seq<string>)

  /** `is_null` of lines 42-49 on the values it is given (a text or None):
      a missing manager, a blank text, or "nan" in any case once stripped.
      It says null to everything the other scripts' `is_null` says null
      to. */
  lemma IsNullWidens(x: Cell)
    ensures IsNull(x) ==> IsNullOrNan(x)
  {
    if x.Some? {
      Strings.BlankIff(x.value);
    }
  }

  /** ... and also to the text "NaN", which the other scripts keep. */
  lemma NanIsNull()
    ensures IsNullOrNan(Some("NaN")) && !IsNull(Some("NaN"))
  {
    assert !Strings.IsSpace('N');
    Strings.StripKeeps("NaN");
    assert Strings.Lower("NaN") == "nan" by {
      assert Strings.LowerChar('N') == 'n' && Strings.LowerChar('a') == 'a';
    }
  }

  /** The node of lines 58-64, before any child is attached. */
  function NewPerson(r: Row): (p: Person)
    ensures p.id == AsStr(r.id) && p.children == []
  {
    Person(AsStr(r.id), NameText(r.name), r.title, r.org, [])
  }

  /** `nodes[parent_id]["children"] = ...`. */
  function WithChildren(p: Person, ids: seq<string>): Person {
    p.(children := ids)
  }

  /** The node dictionary after lines 54-87. */
  function Tree(df: seq<Row>): map<string, Person> {
    Attached(ByLastRow(df, NewPerson), ReportsMap(ParentLinks(df)), WithChildren)
  }

  /** Every id has exactly one node, made from its last row, whose
      children are the ids of all rows that name it as manager, in row
      order. */
  lemma TreeNodes(df: seq<Row>)
    ensures forall id :: id in Tree(df) <==> id in IdColumn(df)
    ensures forall id :: id in Tree(df) ==>
              Tree(df)[id] == NewPerson(RowById(df, id)).(children := ReportsOf(ParentLinks(df), id))
  {
    forall id | id in IdColumn(df)
      ensures id in Tree(df)
      ensures Tree(df)[id] == NewPerson(RowById(df, id)).(children := ReportsOf(ParentLinks(df), id))
    {
      AttachedChildren(df, NewPerson, WithChildren, id);
    }
  }

  /** The id of the node that holds several roots. */
  const VirtualId := "VIRTUAL_ROOT"

  /** The message of the RuntimeError raised when no root is found. */
  const NoRoots := "No root nodes detected – cannot build org chart."

  /** Lines 95-112: no root is an error, one root is the chart root, and
      several hang in order under a virtual node named "Organization". */
  function RootNode(nodes: map<string, Person>, roots: seq<string>): (r: Result<Person, string>)
    requires forall u :: u in roots ==> u in nodes
    ensures r.Err? <==> roots == []
    ensures r.Err? ==> r.error == NoRoots
    ensures |roots| == 1 ==> r == Ok(nodes[roots[0]])
    ensures |roots| > 1 ==> r == Ok(Person(VirtualId, "Organization", Some(""), Some(""), roots))
  {
    if |roots| == 0 then Err(NoRoots)
    else if |roots| == 1 then Ok(nodes[roots[0]])
    else Ok(Person(VirtualId, "Organization", Some(""), Some(""), roots))
  }

  /** The hierarchy: every node, and the node at the top. */
  datatype Chart = Chart(nodes: map<string, Person>, root: Person)

  /** The script from loading to the hierarchy it serialises. It fails
      exactly when no id's last row has a null manager; otherwise the
      nodes are `Tree(df)` and every root is the chart root or one of its
      children, in order. */
  method Jan21Chart(df: seq<Row>) returns (r: Result<Chart, string>)
    ensures r.Err? <==> Roots(df) == []
    ensures r.Err? ==> r.error == NoRoots
    ensures r.Ok? ==> r.value.nodes == Tree(df)
    ensures r.Ok? && |Roots(df)| == 1 ==> r.value.root == Tree(df)[Roots(df)[0]]
    ensures r.Ok? && |Roots(df)| > 1 ==> r.value.root == Person(VirtualId, "Organization", Some(""), Some(""), Roots(df))
  {
    var nodes := BuildNodes(df, NewPerson);
    var keys, parent, children := ScanParents(df);
    nodes := AttachChildren(nodes, children, WithChildren);
    var roots := RootsOf(keys, parent);
    RootsIff(df);
    TreeNodes(df);
    var top := RootNode(nodes, roots);
    if top.Err? {
      return Err(top.error);
    }
    r := Ok(Chart(nodes, top.value));
  }
}
