/** convert_to_json.py: `build_tree` turns the roster into a forest of
    nested nodes. Both id columns go through `astype(str)` first, so a
    missing manager is the text "nan" and a missing id is the key "nan".
    The row scan of lines 21-26 is the method `ScanRows`; `to_node` is the
    recursive function `ToNode`. */
module ConvertToJson {

  import opened Options
  import opened Seqs
  import opened Strings
  import opened Roster

  /** The nested record of lines 30-36. */
  datatype Node = Node(id: string, name: Cell, title: Cell, department: Cell, children: seq<Node>)

  /** The manager text of the row stored under `uid` (line 22). */
  function ManagerOf(d: RowDict, uid: string): string
    requires uid in d.rows
  {
    AsStr(d.rows[uid].reportsTo)
  }

  /** Line 23: `uid` is a key whose manager text is blank or is no key. */
  predicate IsRootId(d: RowDict, uid: string) {
    uid in d.rows && (IsNull(Some(ManagerOf(d, uid))) || ManagerOf(d, uid) !in d.rows)
  }

  /** Line 26: `uid` is a key appended to the child list of the key `m`. */
  predicate ReportsTo(d: RowDict, uid: string, m: string) {
    uid in d.rows && !IsRootId(d, uid) && ManagerOf(d, uid) == m
  }

  function RootTest(d: RowDict): string -> bool {
    uid => IsRootId(d, uid)
  }

  function ChildTest(d: RowDict, m: string): string -> bool {
    uid => ReportsTo(d, uid, m)
  }

  /** `roots`: the root keys in the dictionary's order. */
  function Roots(d: RowDict): (r: seq<string>)
    requires d.Valid()
    ensures Distinct(r)
    ensures forall uid :: uid in r <==> IsRootId(d, uid)
  {
    FilterDistinct(d.keys, RootTest(d));
    Filter(d.keys, RootTest(d))
  }

  /** `children_map[m]`: the keys reporting to `m`, in the dictionary's
      order. */
  function Children(d: RowDict, m: string): (r: seq<string>)
    requires d.Valid()
    ensures Distinct(r)
    ensures forall uid :: uid in r <==> ReportsTo(d, uid, m)
  {
    FilterDistinct(d.keys, ChildTest(d, m));
    Filter(d.keys, ChildTest(d, m))
  }

  /** `children_map` once the scan is over. */
  function ChildrenMap(d: RowDict): (cm: map<string, seq<string>>)
    requires d.Valid()
    ensures forall m :: m in cm <==> m in d.rows
  {
    map m | m in d.rows :: Children(d, m)
  }

  /** Lines 17-26: every key starts with an empty child list, then each key
      in turn becomes a root or is appended to its manager's list. */
  method ScanRows(d: RowDict) returns (childrenMap: map<string, seq<string>>, roots: seq<string>)
    requires d.Valid()
    ensures childrenMap == ChildrenMap(d)
    ensures roots == Roots(d)
  {
    var rows := d.keys;
    childrenMap := map uid | uid in rows :: [];
    roots := [];
    var k := 0;
    while k < |rows|
      invariant 0 <= k <= |rows|
      invariant forall m :: m in childrenMap <==> m in d.rows
      invariant roots == Filter(rows[..k], RootTest(d))
      invariant forall m :: m in childrenMap ==> childrenMap[m] == Filter(rows[..k], ChildTest(d, m))
    {
      var uid := rows[k];
      var mgr := ManagerOf(d, uid);
      ghost var before, rootsBefore := childrenMap, roots;
      if IsNull(Some(mgr)) || mgr !in childrenMap {
        roots := roots + [uid];
      } else {
        childrenMap := childrenMap[mgr := childrenMap[mgr] + [uid]];
      }
      ScanStep(d, k, rootsBefore, roots, before, childrenMap);
      k := k + 1;
    }
    ScanDone(d, roots, childrenMap);
  }

  /** Once every key is scanned, the lists are those of the whole key
      sequence. */
  lemma ScanDone(d: RowDict, roots: seq<string>, cm: map<string, seq<string>>)
    requires d.Valid()
    requires roots == Filter(d.keys[..|d.keys|], RootTest(d))
    requires forall m :: m in cm <==> m in d.rows
    requires forall m :: m in cm ==> cm[m] == Filter(d.keys[..|d.keys|], ChildTest(d, m))
    ensures cm == ChildrenMap(d)
    ensures roots == Roots(d)
  {
    assert d.keys[..|d.keys|] == d.keys;
  }

  /** One step of the scan: the key at position `k` joins the roots or
      the child list of its manager, and no other list. */
  lemma ScanStep(d: RowDict, k: int, roots: seq<string>, roots': seq<string>,
                 cm: map<string, seq<string>>, cm': map<string, seq<string>>)
    requires d.Valid() && 0 <= k < |d.keys|
    requires roots == Filter(d.keys[..k], RootTest(d))
    requires forall m :: m in cm <==> m in d.rows
    requires forall m :: m in cm ==> cm[m] == Filter(d.keys[..k], ChildTest(d, m))
    requires var uid := d.keys[k];
             var mgr := ManagerOf(d, uid);
             if IsNull(Some(mgr)) || mgr !in cm then roots' == roots + [uid] && cm' == cm
             else roots' == roots && cm' == cm[mgr := cm[mgr] + [uid]]
    ensures roots' == Filter(d.keys[..k + 1], RootTest(d))
    ensures forall m :: m in cm' <==> m in d.rows
    ensures forall m :: m in cm' ==> cm'[m] == Filter(d.keys[..k + 1], ChildTest(d, m))
  {
    var uid := d.keys[k];
    assert uid in d.keys;
    assert d.keys[..k + 1] == d.keys[..k] + [uid];
    FilterSnoc(d.keys[..k], uid, RootTest(d));
    forall m | m in cm' ensures cm'[m] == Filter(d.keys[..k + 1], ChildTest(d, m)) {
      FilterSnoc(d.keys[..k], uid, ChildTest(d, m));
    }
  }

  /** `p` climbs from `p[0]` to a root one manager at a time, never
      visiting a key twice. */
  ghost predicate Chain(d: RowDict, p: seq<string>) {
    && |p| >= 1
    && Distinct(p)
    && (forall i :: 0 <= i < |p| ==> p[i] in d.rows)
    && Links(d, p)
    && IsRootId(d, p[|p| - 1])
  }

  /** Each key of `p` reports to the next one. */
  ghost predicate Links(d: RowDict, p: seq<string>) {
    forall i :: 0 <= i < |p| - 1 ==> ReportsTo(d, p[i], p[i + 1])
  }

  /** A chain visits distinct keys, so it is no longer than the key list. */
  lemma ChainBound(d: RowDict, p: seq<string>)
    requires d.Valid() && Chain(d, p)
    ensures |p| <= |d.keys|
  {
    DistinctLengthBound(p, d.keys);
  }

  /** A report of the head of a chain extends the chain: it cannot already
      be on it, since its only manager is the head. */
  lemma ChainExtends(d: RowDict, p: seq<string>, c: string)
    requires Chain(d, p) && ReportsTo(d, c, p[0])
    ensures Chain(d, [c] + p)
  {
    var q := [c] + p;
    forall i, j | 0 <= i < j < |q| ensures q[i] != q[j] {
      if i == 0 && j < |p| {
        assert ReportsTo(d, q[j], p[j]);
      }
    }
    forall i | 0 <= i < |q| - 1 ensures ReportsTo(d, q[i], q[i + 1]) {
      if i > 0 {
        assert q[i] == p[i - 1] && q[i + 1] == p[i];
      }
    }
  }

  lemma ChainExtendsAll(d: RowDict, p: seq<string>)
    requires Chain(d, p)
    ensures forall c :: ReportsTo(d, c, p[0]) ==> Chain(d, [c] + p)
  {
    forall c | ReportsTo(d, c, p[0]) ensures Chain(d, [c] + p) {
      ChainExtends(d, p, c);
    }
  }

  /** `to_node` (lines 28-36) on the key `uid`, reached from a root along
      the reversed chain `path`: the data of the row stored under `uid`
      and one child node per entry of `children_map[uid]`, in order. */
  function ToNode(d: RowDict, cm: map<string, seq<string>>, uid: string, ghost path: seq<string>): (r: Node)
    requires d.Valid() && cm == ChildrenMap(d)
    requires Chain(d, path) && path[0] == uid
    ensures r.id == uid
    ensures r.name == d.rows[uid].name && r.title == d.rows[uid].title
    ensures r.department == d.rows[uid].org
    ensures |r.children| == |cm[uid]|
    ensures forall i :: 0 <= i < |r.children| ==> r.children[i].id == cm[uid][i]
    decreases |d.keys| - |path|
  {
    var row := d.rows[uid];
    var cs := cm[uid];
    ChainExtendsAll(d, path);
    ChainBound(d, path);
    Node(uid, row.name, row.title, row.org,
         seq(|cs|, i requires 0 <= i < |cs| =>
           ChainBound(d, [cs[i]] + path);
           ToNode(d, cm, cs[i], [cs[i]] + path)))
  }

  /** `[to_node(root) for root in roots]`. */
  function Forest(d: RowDict): (f: seq<Node>)
    requires d.Valid()
    ensures |f| == |Roots(d)|
    ensures forall i :: 0 <= i < |f| ==> f[i].id == Roots(d)[i]
  {
    var rs := Roots(d);
    seq(|rs|, i requires 0 <= i < |rs| =>
      RootChain(d, i);
      ToNode(d, ChildrenMap(d), rs[i], [rs[i]]))
  }

  /** `build_tree`: the dictionary of rows, the scan, then one nested node
      per root. */
  method BuildTree(df: seq<Row>) returns (tree: seq<Node>)
    ensures tree == Forest(RowsById(df))
  {
    var rows := RowsById(df);
    var childrenMap, roots := ScanRows(rows);
    tree := [];
    var k := 0;
    while k < |roots|
      invariant 0 <= k <= |roots| && |tree| == k
      invariant forall i :: 0 <= i < k ==> RootNodeAt(rows, tree, i)
    {
      RootChain(rows, k);
      var node := ToNode(rows, childrenMap, roots[k], [roots[k]]);
      AppendRootNode(rows, tree, node);
      tree := tree + [node];
      k := k + 1;
    }
    ForestIs(rows, tree);
  }

  /** Position `i` of `tree` holds the node of the `i`-th root. */
  ghost predicate RootNodeAt(d: RowDict, tree: seq<Node>, i: int)
    requires d.Valid()
  {
    0 <= i < |tree| && i < |Roots(d)| && Chain(d, [Roots(d)[i]])
    && tree[i] == ToNode(d, ChildrenMap(d), Roots(d)[i], [Roots(d)[i]])
  }

  lemma AppendRootNode(d: RowDict, tree: seq<Node>, node: Node)
    requires d.Valid() && |tree| < |Roots(d)|
    requires forall i :: 0 <= i < |tree| ==> RootNodeAt(d, tree, i)
    requires Chain(d, [Roots(d)[|tree|]])
    requires node == ToNode(d, ChildrenMap(d), Roots(d)[|tree|], [Roots(d)[|tree|]])
    ensures forall i :: 0 <= i < |tree| + 1 ==> RootNodeAt(d, tree + [node], i)
  {
    forall i | 0 <= i < |tree| + 1 ensures RootNodeAt(d, tree + [node], i) {
      if i < |tree| {
        assert RootNodeAt(d, tree, i);
      }
    }
  }

  /** A root alone is a chain. */
  lemma RootChain(d: RowDict, k: int)
    requires d.Valid() && 0 <= k < |Roots(d)|
    ensures Chain(d, [Roots(d)[k]])
  {
    assert Roots(d)[k] in Roots(d);
  }

  /** Node by node, `tree` is the forest. */
  lemma ForestIs(d: RowDict, tree: seq<Node>)
    requires d.Valid() && |tree| == |Roots(d)|
    requires forall i :: 0 <= i < |tree| ==> RootNodeAt(d, tree, i)
    ensures tree == Forest(d)
  {
    forall i | 0 <= i < |tree| ensures tree[i] == Forest(d)[i] {
      assert RootNodeAt(d, tree, i);
    }
  }

  // ---------------------------------------------------------------------
  // Properties of the forest
  // ---------------------------------------------------------------------

  /** Every key is placed exactly once: it is a root, or it sits in the
      child list of exactly one key. */
  lemma PlacedOnce(d: RowDict, uid: string)
    requires d.Valid() && uid in d.rows
    ensures uid in Roots(d) <==> forall m :: uid !in Children(d, m)
    ensures forall m1, m2 :: uid in Children(d, m1) && uid in Children(d, m2) ==> m1 == m2
  {
    if uid !in Roots(d) {
      assert uid in Children(d, ManagerOf(d, uid));
    }
  }

  /** Line 23: a key is a root exactly when its manager text is blank or
      names no key. */
  lemma RootIff(d: RowDict, uid: string)
    requires d.Valid() && uid in d.rows
    ensures uid in Roots(d) <==>
              var mgr := AsStr(d.rows[uid].reportsTo);
              Strip(mgr) == "" || mgr !in d.rows
  {
    IsNullIff(Some(ManagerOf(d, uid)));
  }

  /** Roots and child lists keep the order in which the dictionary holds
      the keys. */
  lemma ScanOrder(d: RowDict, m: string, i: int, j: int)
    requires d.Valid()
    ensures 0 <= i < j < |Roots(d)| ==>
              FirstIndexOf(d.keys, Roots(d)[i]) < FirstIndexOf(d.keys, Roots(d)[j])
    ensures 0 <= i < j < |Children(d, m)| ==>
              FirstIndexOf(d.keys, Children(d, m)[i]) < FirstIndexOf(d.keys, Children(d, m)[j])
  {
    if 0 <= i < j < |Roots(d)| {
      FilterOrder(d.keys, RootTest(d), i, j);
    }
    if 0 <= i < j < |Children(d, m)| {
      FilterOrder(d.keys, ChildTest(d, m), i, j);
    }
  }

  /** The dictionary built from the rows holds its keys in the order of
      their first row. */
  lemma KeyOrder(df: seq<Row>, i: int, j: int)
    requires 0 <= i < j < |RowsById(df).keys|
    ensures var ks := RowsById(df).keys;
            FirstIndexOf(IdColumn(df), ks[i]) < FirstIndexOf(IdColumn(df), ks[j])
  {
    DedupOrder(IdColumn(df), i, j);
  }

  /** The ids a node tree mentions. */
  ghost predicate Mentions(n: Node, id: string) {
    n.id == id || exists i :: 0 <= i < |n.children| && Mentions(n.children[i], id)
  }

  /** `id` climbs to a root along some chain. */
  ghost predicate Rooted(d: RowDict, id: string) {
    exists p :: Chain(d, p) && p[0] == id
  }

  /** Every id in the tree of `to_node(uid)` climbs to a root. */
  lemma {:induction false} ToNodeRooted(d: RowDict, uid: string, path: seq<string>, id: string)
    requires d.Valid() && Chain(d, path) && path[0] == uid
    requires Mentions(ToNode(d, ChildrenMap(d), uid, path), id)
    ensures Rooted(d, id)
    decreases |d.keys| - |path|
  {
    var n := ToNode(d, ChildrenMap(d), uid, path);
    if n.id != id {
      var i :| 0 <= i < |n.children| && Mentions(n.children[i], id);
      var c := ChildrenMap(d)[uid][i];
      assert c in Children(d, uid);
      ChainExtends(d, path, c);
      ChainBound(d, path);
      ChainBound(d, [c] + path);
      assert n.children[i] == ToNode(d, ChildrenMap(d), c, [c] + path);
      ToNodeRooted(d, c, [c] + path, id);
    }
  }

  /** Keys that report to one another around a loop: `cyc[i]` reports to
      `cyc[i + 1]`, and the last to the first. */
  ghost predicate IsCycle(d: RowDict, cyc: seq<string>) {
    |cyc| >= 1 && forall i :: 0 <= i < |cyc| ==> ReportsTo(d, cyc[i], Next(cyc, i))
  }

  /** The key after position `i` of a cycle, wrapping round at the end. */
  function Next(cyc: seq<string>, i: int): string
    requires 0 <= i < |cyc|
  {
    if i + 1 < |cyc| then cyc[i + 1] else cyc[0]
  }

  /** Climbing from a key of a cycle stays on the cycle, so it never
      reaches a root. */
  lemma CycleNotRooted(d: RowDict, cyc: seq<string>, k: int)
    requires IsCycle(d, cyc) && 0 <= k < |cyc|
    ensures !Rooted(d, cyc[k])
  {
    if p :| Chain(d, p) && p[0] == cyc[k] {
      StaysOnCycle(d, cyc, p, |p| - 1);
    }
  }

  /** Following managers from a key of a cycle never leaves the cycle. */
  lemma {:induction false} StaysOnCycle(d: RowDict, cyc: seq<string>, p: seq<string>, i: int)
    requires IsCycle(d, cyc) && Links(d, p) && |p| >= 1 && p[0] in cyc
    requires 0 <= i < |p|
    ensures p[i] in cyc
  {
    if i > 0 {
      StaysOnCycle(d, cyc, p, i - 1);
      var j :| 0 <= j < |cyc| && cyc[j] == p[i - 1];
      assert ReportsTo(d, cyc[j], Next(cyc, j));
      assert ReportsTo(d, p[i - 1], p[i]);
      ManagerUnique(d, p[i - 1], p[i], Next(cyc, j));
    }
  }

  /** A key has one manager. */
  lemma ManagerUnique(d: RowDict, a: string, m1: string, m2: string)
    requires ReportsTo(d, a, m1) && ReportsTo(d, a, m2)
    ensures m1 == m2
  {
  }

  /** The keys of a reporting cycle appear nowhere in the output of
      `build_tree`: `to_node` only walks down from roots. */
  lemma ForestOmitsCycles(d: RowDict, cyc: seq<string>, k: int, i: int)
    requires d.Valid() && IsCycle(d, cyc) && 0 <= k < |cyc|
    requires 0 <= i < |Forest(d)|
    ensures !Mentions(Forest(d)[i], cyc[k])
  {
    var r := Roots(d)[i];
    assert r in Roots(d);
    assert Chain(d, [r]);
    if Mentions(Forest(d)[i], cyc[k]) {
      ToNodeRooted(d, r, [r], cyc[k]);
      CycleNotRooted(d, cyc, k);
    }
  }

  /** After `astype(str)` a missing manager is the text "nan", which is not
      blank: when some row has a missing id (the key "nan"), every other
      key whose stored row has a missing manager is placed under it instead
      of becoming a root. */
  lemma MissingManagerJoinsNanKey(d: RowDict, uid: string)
    requires d.Valid() && "nan" in d.rows
    requires uid in d.rows && uid != "nan"
    requires d.rows[uid].reportsTo.None?
    ensures uid !in Roots(d)
    ensures uid in Children(d, "nan")
  {
    NanNotNull();
  }
}
