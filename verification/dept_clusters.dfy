/** org_chart/v2.py: the chart that groups people into one Graphviz
    cluster per department ("Organization Name"), clusters in sorted order,
    each filled with a colour from a fixed palette taken in turn. */
module DeptClusters {

  import opened Options
  import opened Strings
  import opened Roster
  import opened Seqs

  /** "Organization Name" after `.fillna("Unknown").astype(str).str.strip()`
      and the replacement of "" by "Unknown". A roster without the column
      reads as all cells missing, which gives the same "Unknown". */
  function OrgName(c: Cell): (r: string)
    ensures r != [] && Strip(r) == r
    ensures c.Some? && Strip(c.value) != "" ==> r == Strip(c.value)
    ensures c.None? || Strip(c.value) == "" ==> r == "Unknown"
  {
    StripKeeps("Unknown");
    if c.None? then "Unknown"
    else
      var s := Strip(c.value);
      StripByIdempotent(c.value, IsSpace);
      if s == "" then "Unknown" else s
  }

  /** `safe_name`: the cluster name made of letters, digits and single
      underscores, never empty, with no underscore at either end;
      "cluster" when the department has no letter or digit. */
  function SafeName(s: string): (r: string)
    ensures IsSlug(r)
    ensures Alnums(s) != [] ==> Alnums(r) == Alnums(s)
    ensures Alnums(s) != [] ==> r == Join(Words(s))
    ensures Alnums(s) == [] ==> r == "cluster"
  {
    assert IsSlug("cluster");
    Slug(s, "cluster")
  }

  /** The department column as the grouping loop reads it. */
  type DeptOf = Row -> string

  /** The department of the id `uid` in the id-keyed row dictionary. The
      fallback is never taken on a valid dictionary. */
  function OrgOfKey(d: RowDict, dept: DeptOf, uid: string): string {
    if uid in d.rows then dept(d.rows[uid]) else "Unknown"
  }

  /** The departments of `keys`, one per key, in order. */
  function OrgsOf(d: RowDict, dept: DeptOf, keys: seq<string>): (orgs: seq<string>)
    ensures |orgs| == |keys|
    ensures forall i :: 0 <= i < |keys| ==> orgs[i] == OrgOfKey(d, dept, keys[i])
  {
    if keys == [] then [] else OrgsOf(d, dept, keys[..|keys| - 1]) + [OrgOfKey(d, dept, keys[|keys| - 1])]
  }

  /** The ids of department `o`, in key order. */
  function Members(d: RowDict, dept: DeptOf, keys: seq<string>, o: string): seq<string> {
    Filter(keys, (uid: string) => OrgOfKey(d, dept, uid) == o)
  }

  /** What holds after the first `k` keys: `orgs` is the order in which
      their departments first appear, and each department maps to its ids
      among them. */
  ghost predicate Grouped(d: RowDict, dept: DeptOf, k: int, orgs: seq<string>, groups: map<string, seq<string>>) {
    && 0 <= k <= |d.keys|
    && Distinct(orgs)
    && (forall o :: o in orgs <==> o in OrgsOf(d, dept, d.keys[..k]))
    && (forall o :: o in groups <==> o in orgs)
    && (forall o :: o in groups ==> groups[o] == Members(d, dept, d.keys[..k], o))
  }

  /** The `org_to_ids` loop over `id_to_row.items()`: each id is appended to
      the list of its department, a list created on first use (so the keys
      come in order of first appearance). `orgs` holds each department
      once; its order is not stated, as only the sorted names are used. */
  method GroupByOrg(d: RowDict, dept: DeptOf) returns (orgs: seq<string>, groups: map<string, seq<string>>)
    ensures Distinct(orgs) && forall o :: o in orgs <==> o in OrgsOf(d, dept, d.keys)
    ensures forall o :: o in groups <==> o in orgs
    ensures forall o :: o in groups ==> groups[o] == Members(d, dept, d.keys, o)
  {
    orgs := [];
    groups := map[];
    var k := 0;
    while k < |d.keys|
      invariant Grouped(d, dept, k, orgs, groups)
    {
      var uid := d.keys[k];
      var org := OrgOfKey(d, dept, uid);
      ghost var orgs0, groups0 := orgs, groups;
      if org !in groups {
        orgs := orgs + [org];
        groups := groups[org := []];
      }
      groups := groups[org := groups[org] + [uid]];
      GroupStep(d, dept, k, orgs0, groups0, orgs, groups);
      k := k + 1;
    }
    assert d.keys[..k] == d.keys;
  }

  /** One more key: its department joins the key order if new, and the key
      joins that department's list and no other. */
  lemma GroupStep(d: RowDict, dept: DeptOf, k: int, orgs0: seq<string>, groups0: map<string, seq<string>>,
                  orgs: seq<string>, groups: map<string, seq<string>>)
    requires Grouped(d, dept, k, orgs0, groups0) && k < |d.keys|
    requires var o := OrgOfKey(d, dept, d.keys[k]);
             && orgs == (if o in groups0 then orgs0 else orgs0 + [o])
             && groups == groups0[o := (if o in groups0 then groups0[o] else []) + [d.keys[k]]]
    ensures Grouped(d, dept, k + 1, orgs, groups)
  {
    var o := OrgOfKey(d, dept, d.keys[k]);
    GroupOrder(d, dept, k, orgs0, groups0, orgs);
    forall p | p in groups
      ensures groups[p] == Members(d, dept, d.keys[..k + 1], p)
    {
      GroupStepAt(d, dept, k, groups0, groups, p);
    }
  }

  /** The key order grows by the department of key `k` when it is new. */
  lemma GroupOrder(d: RowDict, dept: DeptOf, k: int, orgs0: seq<string>,
                   groups0: map<string, seq<string>>, orgs: seq<string>)
    requires Grouped(d, dept, k, orgs0, groups0) && k < |d.keys|
    requires var o := OrgOfKey(d, dept, d.keys[k]);
             orgs == (if o in groups0 then orgs0 else orgs0 + [o])
    ensures Distinct(orgs) && forall o :: o in orgs <==> o in OrgsOf(d, dept, d.keys[..k + 1])
  {
    var keys := d.keys;
    TakeSnoc(keys, k);
    var s := OrgsOf(d, dept, keys[..k + 1]);
    assert keys[..k + 1][..k] == keys[..k];
    assert s == OrgsOf(d, dept, keys[..k]) + [OrgOfKey(d, dept, d.keys[k])];
  }

  lemma GroupStepAt(d: RowDict, dept: DeptOf, k: int, groups0: map<string, seq<string>>,
                    groups: map<string, seq<string>>, p: string)
    requires 0 <= k < |d.keys|
    requires forall o :: o in groups0 ==> groups0[o] == Members(d, dept, d.keys[..k], o)
    requires forall o :: o in groups0 <==> o in OrgsOf(d, dept, d.keys[..k])
    requires var o := OrgOfKey(d, dept, d.keys[k]);
             groups == groups0[o := (if o in groups0 then groups0[o] else []) + [d.keys[k]]]
    requires p in groups
    ensures groups[p] == Members(d, dept, d.keys[..k + 1], p)
  {
    var keys := d.keys;
    var o := OrgOfKey(d, dept, keys[k]);
    TakeSnoc(keys, k);
    FilterSnoc(keys[..k], keys[k], (uid: string) => OrgOfKey(d, dept, uid) == p);
    if p == o && o !in groups0 {
      MembersShowOrg(d, dept, keys[..k], o);
    }
  }

  /** A department with an id among `keys` is among their departments. */
  lemma MembersShowOrg(d: RowDict, dept: DeptOf, keys: seq<string>, o: string)
    ensures o !in OrgsOf(d, dept, keys) ==> Members(d, dept, keys, o) == []
  {
    forall uid | uid in Members(d, dept, keys, o)
      ensures o in OrgsOf(d, dept, keys)
    {
      var i :| 0 <= i < |keys| && keys[i] == uid;
      assert OrgsOf(d, dept, keys)[i] == o;
    }
    if Members(d, dept, keys, o) != [] {
      assert Members(d, dept, keys, o)[0] in Members(d, dept, keys, o);
    }
  }

  /** `org_to_ids` splits the ids: each id of the dictionary is listed
      under its own department, exactly once, and under no other. */
  lemma GroupsPartition(d: RowDict, dept: DeptOf, uid: string, o: string)
    requires d.Valid() && uid in d.keys
    ensures uid in Members(d, dept, d.keys, o) <==> o == dept(d.rows[uid])
    ensures Distinct(Members(d, dept, d.keys, o))
  {
    FilterDistinct(d.keys, (u: string) => OrgOfKey(d, dept, u) == o);
  }

  /** Every department in `org_to_ids` holds at least one id. */
  lemma GroupsNonEmpty(d: RowDict, dept: DeptOf, o: string)
    requires o in OrgsOf(d, dept, d.keys)
    ensures Members(d, dept, d.keys, o) != []
  {
    var i :| 0 <= i < |d.keys| && OrgsOf(d, dept, d.keys)[i] == o;
    assert d.keys[i] in Members(d, dept, d.keys, o);
  }

  /** Every pair in order. */
  ghost predicate Sorted(s: seq<string>) {
    forall i, j :: 0 <= i < j < |s| ==> LessEq(s[i], s[j])
  }

  /** Places `x` into a sorted sequence. */
  function Insert(x: string, s: seq<string>): (r: seq<string>)
    requires Sorted(s)
    ensures Sorted(r) && multiset(r) == multiset(s) + multiset{x}
  {
    if s == [] then [x]
    else if LessEq(x, s[0]) then
      forall j | 0 <= j < |s| ensures LessEq(x, s[j]) {
        if j > 0 { LessEqTrans(x, s[0], s[j]); }
      }
      assert s == [s[0]] + s[1..];
      [x] + s
    else
      var t := Insert(x, s[1..]);
      LessEqTotal(x, s[0]);
      forall j | 0 <= j < |t| ensures LessEq(s[0], t[j]) {
        assert t[j] in multiset(t);
        if t[j] != x {
          assert t[j] in multiset(s[1..]);
          var k :| 0 <= k < |s[1..]| && s[1..][k] == t[j];
          assert s[k + 1] == t[j];
        }
      }
      assert s == [s[0]] + s[1..];
      [s[0]] + t
  }

  /** `sorted(...)` on texts, as an insertion sort. */
  function Sort(s: seq<string>): (r: seq<string>)
    ensures Sorted(r) && multiset(r) == multiset(s)
  {
    if s == [] then []
    else
      assert s == s[..|s| - 1] + [s[|s| - 1]];
      Insert(s[|s| - 1], Sort(s[..|s| - 1]))
  }

  /** Sorting the distinct keys gives distinct names. */
  lemma SortDistinct(s: seq<string>, r: seq<string>)
    requires Distinct(s) && multiset(r) == multiset(s)
    ensures Distinct(r)
  {
    forall i, j | 0 <= i < j < |r|
      ensures r[i] != r[j]
    {
      if r[i] == r[j] {
        TwiceCounted(r, i, j);
        OnceCounted(s, r[i]);
      }
    }
  }

  lemma TwiceCounted(r: seq<string>, i: int, j: int)
    requires 0 <= i < j < |r| && r[i] == r[j]
    ensures multiset(r)[r[i]] >= 2
  {
    assert r == r[..j] + r[j..];
    assert r[i] in r[..j];
    assert r[j] in r[j..];
  }

  lemma OnceCounted(s: seq<string>, x: string)
    requires Distinct(s)
    ensures multiset(s)[x] <= 1
  {
    if x in s {
      var k :| 0 <= k < |s| && s[k] == x;
      assert s == s[..k] + [x] + s[k + 1..];
      assert x !in s[..k];
      assert x !in s[k + 1..];
    }
  }

  /** The seven pastel department colours. */
  const Palette: seq<string> :=
    ["#E3F2FD", "#FFF3E0", "#E8F5E9", "#F3E5F5", "#E0F7FA", "#FBE9E7", "#FFFDE7"]

  /** `org_to_color`: the department at place `i` of the sorted names gets
      the palette colour at `i % 7`. */
  function OrgColors(names: seq<string>): (colors: map<string, string>)
    requires Distinct(names)
    ensures forall o :: o in colors <==> o in names
    ensures forall o :: o in colors ==> colors[o] in Palette
  {
    map i | 0 <= i < |names| :: names[i] := Palette[i % |Palette|]
  }

  /** The colour of each department is the one its sorted place selects. */
  lemma OrgColorAt(names: seq<string>, i: int)
    requires Distinct(names) && 0 <= i < |names|
    ensures OrgColors(names)[names[i]] == Palette[i % |Palette|]
  {
  }

  lemma OrgColorsAll(names: seq<string>)
    requires Distinct(names)
    ensures forall i :: 0 <= i < |names| ==> OrgColors(names)[names[i]] == Palette[i % |Palette|]
  {
    forall i | 0 <= i < |names|
      ensures OrgColors(names)[names[i]] == Palette[i % |Palette|]
    {
      OrgColorAt(names, i);
    }
  }

  /** Two departments fewer than seven places apart never share a colour. */
  lemma OrgColorsDiffer(names: seq<string>, i: int, j: int)
    requires Distinct(names) && 0 <= i < j < |names| && j - i < |Palette|
    ensures OrgColors(names)[names[i]] != OrgColors(names)[names[j]]
  {
    OrgColorAt(names, i);
    OrgColorAt(names, j);
    assert i % |Palette| != j % |Palette|;
  }

  /** The departments listed in the key order are exactly those of the
      rows kept in the dictionary. */
  lemma OrgsOfRows(d: RowDict, dept: DeptOf, o: string)
    requires d.Valid()
    ensures o in OrgsOf(d, dept, d.keys) <==> exists uid :: uid in d.rows && dept(d.rows[uid]) == o
  {
    if o in OrgsOf(d, dept, d.keys) {
      var i :| 0 <= i < |d.keys| && OrgsOf(d, dept, d.keys)[i] == o;
      assert d.keys[i] in d.rows;
    }
    if exists uid :: uid in d.rows && dept(d.rows[uid]) == o {
      var uid :| uid in d.rows && dept(d.rows[uid]) == o;
      var i :| 0 <= i < |d.keys| && d.keys[i] == uid;
      assert OrgsOf(d, dept, d.keys)[i] == o;
    }
  }

  /** The department of a row: its normalised "Organization Name". */
  function RowDept(r: Row): string {
    OrgName(r.org)
  }

  /** What the clusters are made of: the department names in sorted
      order, the ids of each and its colour. */
  datatype Clusters = Clusters(names: seq<string>, groups: map<string, seq<string>>,
                               colors: map<string, string>)

  /** The department part of the script: group the ids of the id-keyed
      row dictionary, sort the department names and colour them. */
  method BuildClusters(df: seq<Row>) returns (c: Clusters)
    ensures Sorted(c.names) && Distinct(c.names)
    ensures forall o :: o in c.names <==> o in c.groups
    ensures forall o :: o in c.names <==>
              exists uid :: uid in RowsById(df).rows && RowDept(RowsById(df).rows[uid]) == o
    ensures forall o :: o in c.groups ==> c.groups[o] == Members(RowsById(df), RowDept, RowsById(df).keys, o)
    ensures forall o :: o in c.colors <==> o in c.names
    ensures forall i :: 0 <= i < |c.names| ==> c.colors[c.names[i]] == Palette[i % |Palette|]
  {
    var d := RowsById(df);
    var orgs, groups := GroupByOrg(d, RowDept);
    var names := Sort(orgs);
    SortDistinct(orgs, names);
    SameMembers(orgs, names);
    forall o
      ensures o in names <==> exists uid :: uid in d.rows && RowDept(d.rows[uid]) == o
    {
      OrgsOfRows(d, RowDept, o);
    }
    var colors := OrgColors(names);
    OrgColorsAll(names);
    c := Clusters(names, groups, colors);
  }

  lemma SameMembers(s: seq<string>, r: seq<string>)
    requires multiset(r) == multiset(s)
    ensures forall x :: x in r <==> x in s
  {
    assert forall x :: x in r <==> x in multiset(r);
    assert forall x :: x in s <==> x in multiset(s);
  }
}
