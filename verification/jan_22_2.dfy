/** org_chart/jan_22_2.py: the hierarchy of jan_21.py with a short title
    and a leader flag on every node, the single root's direct reports
    sorted into three section nodes by title keyword, and a recursive pass
    that marks which nodes start collapsed. Python's nodes are dictionaries
    shared by reference; here they live in a heap keyed by `Key`, and a
    node lists the keys of its children. */
module Jan22 {

  import opened Options
  import opened Strings
  import opened Roster
  import opened Reports
  import opened Hierarchy
  import Seqs

  /** `is_leader_value` (lines 56-65) on the "Organization Name" cell: a
      text that is neither blank nor "nan" in any case once stripped. It
      is exactly the negation of `is_null` (lines 44-53). */
  function IsLeaderValue(v: Cell): (r: bool)
    ensures r <==> !IsNullOrNan(v)
  {
    if v.None? then false
    else
      var s := Strip(v.value);
      s != "" && Lower(s) != "nan"
  }

  /** The full title of lines 78-82: a text title stripped, anything
      else (a missing cell) the empty text. */
  function FullTitle(c: Cell): (r: string)
    ensures c.None? ==> r == ""
    ensures c.Some? ==> r == Strip(c.value)
  {
    if c.Some? then Strip(c.value) else ""
  }

  /** The first comma clause of a title, stripped: `title.split(",")[0].strip()`. */
  function Clause(title: string): string {
    Strip(BeforeFirst(title, ','))
  }

  /** The longest short title. */
  const MaxShort := 40

  /** The ellipsis that marks a cut short title. */
  const Ellipsis: char := '\U{2026}'

  /** The short title of lines 86-92: the first comma clause, stripped;
      when longer than 40 characters, its first 37 characters with the
      trailing whitespace dropped, followed by an ellipsis. It is never
      longer than 40, and a cut title is the start of the clause. */
  function ShortTitle(full: string): (r: string)
    ensures |r| <= MaxShort
    ensures |Clause(full)| <= MaxShort ==> r == Clause(full)
    ensures |Clause(full)| > MaxShort ==>
              && 1 <= |r| <= 38 && r[|r| - 1] == Ellipsis
              && r[..|r| - 1] == Clause(full)[..|r| - 1]
  {
    var cut := if ',' in full then BeforeFirst(full, ',') else full;
    assert ',' !in full ==> cut == BeforeFirst(full, ',');
    var s := Strip(cut);
    if |s| > MaxShort then RStrip(s[..37]) + [Ellipsis] else s
  }

  /** A short title holds no comma and no whitespace at either end, and
      is its own short title. */
  lemma ShortTitleClean(full: string)
    ensures var r := ShortTitle(full);
            && ',' !in r && Strip(r) == r
            && ShortTitle(r) == r
  {
    ShortTitleNoComma(full);
    ShortTitleFixed(ShortTitle(full));
  }

  lemma ShortTitleNoComma(full: string)
    ensures var r := ShortTitle(full);
            ',' !in r && Strip(r) == r
  {
    var c := Clause(full);
    ClauseShape(full);
    ShortTitleIs(full);
    if |c| > MaxShort {
      CutShape(c);
    }
  }

  /** A short text with no comma and no whitespace at either end is its
      own short title. */
  lemma ShortTitleFixed(r: string)
    requires ',' !in r && Strip(r) == r && |r| <= MaxShort
    ensures ShortTitle(r) == r
  {
    assert BeforeFirst(r, ',') == r;
    ShortTitleIs(r);
  }

  /** The short title is the clause, or the clause cut at 37 with an
      ellipsis. */
  lemma ShortTitleIs(full: string)
    ensures var c := Clause(full);
            ShortTitle(full) == if |c| > MaxShort then RStrip(c[..37]) + [Ellipsis] else c
  {
    assert ',' !in full ==> full == BeforeFirst(full, ',');
  }

  /** The first clause holds no comma and no whitespace at either end. */
  lemma ClauseShape(full: string)
    ensures var c := Clause(full);
            ',' !in c && Strip(c) == c && (c == [] || !IsSpace(c[0]))
  {
    var b := BeforeFirst(full, ',');
    assert ',' !in b;
    StripByIdempotent(b, IsSpace);
    NoCharAfterStrip(b, ',');
  }

  /** Stripping adds no character. */
  lemma NoCharAfterStrip(s: string, ch: char)
    requires ch !in s
    ensures ch !in Strip(s)
  {
    assert Strip(s) == s[StripStart(s, IsSpace)..StripEnd(s, IsSpace)];
  }

  /** Cutting a clean clause at 37 and adding the ellipsis gives a clean
      text of at most 38 characters. */
  lemma CutShape(c: string)
    requires ',' !in c && |c| > MaxShort && !IsSpace(c[0])
    ensures var r := RStrip(c[..37]) + [Ellipsis];
            ',' !in r && Strip(r) == r && 1 <= |r| <= 38
  {
    var t := RStrip(c[..37]);
    assert t == c[..|t|];
    assert !IsSpace(c[..37][0]);
    assert t != [];
    var r := t + [Ellipsis];
    assert r[0] == c[0];
    assert r[|r| - 1] == Ellipsis;
    StripKeeps(r);
  }

  /** The three sections the single root's reports are sorted into. */
  datatype Section = Leaders | Staff | Trainees

  /** Which node a child entry refers to: an employee's node, the virtual
      root, or a section node. */
  datatype Key = Emp(uid: string) | VirtualRoot | Group(section: Section)

  /** A node: "id", "name", "title", "shortTitle", "org", "isLeader",
      "isGroup" (absent on employee nodes, read as false), "compact"
      (section nodes only), "collapsed" (None until the collapse pass sets
      it) and the keys of its "children". */
  datatype Card = Card(id: string, name: string, title: string, shortTitle: string, org: Cell,
                       isLeader: bool, isGroup: bool, compact: Option<bool>,
                       collapsed: Option<bool>, children: seq<Key>)

  /** The node of lines 94-102, before any child is attached. */
  function NewCard(r: Row): (c: Card)
    ensures c.id == AsStr(r.id) && c.children == [] && c.collapsed.None? && !c.isGroup
    ensures c.isLeader <==> !IsNullOrNan(r.org)
    ensures |c.shortTitle| <= MaxShort
  {
    var full := FullTitle(r.title);
    Card(AsStr(r.id), NameText(r.name), full, ShortTitle(full), r.org,
         IsLeaderValue(r.org), false, None, None, [])
  }

  /** The keys of employee nodes. */
  function EmpKeys(ids: seq<string>): (ks: seq<Key>)
    ensures |ks| == |ids|
    ensures forall i :: 0 <= i < |ids| ==> ks[i] == Emp(ids[i])
  {
    seq(|ids|, i requires 0 <= i < |ids| => Emp(ids[i]))
  }

  /** `nodes[parent_id]["children"] = ...`. */
  function WithKids(c: Card, ids: seq<string>): Card {
    c.(children := EmpKeys(ids))
  }

  /** The node dictionary after lines 71-124. */
  function Tree(df: seq<Row>): map<string, Card> {
    Attached(ByLastRow(df, NewCard), ReportsMap(ParentLinks(df)), WithKids)
  }

  /** Every id has exactly one node, made from its last row, whose
      children are the ids of all rows naming it as manager, in row
      order. */
  lemma TreeNodes(df: seq<Row>)
    ensures forall id :: id in Tree(df) <==> id in IdColumn(df)
    ensures forall id :: id in Tree(df) ==>
              Tree(df)[id] == NewCard(RowById(df, id)).(children := EmpKeys(ReportsOf(ParentLinks(df), id)))
  {
    forall id | id in IdColumn(df)
      ensures id in Tree(df)
      ensures Tree(df)[id] == NewCard(RowById(df, id)).(children := EmpKeys(ReportsOf(ParentLinks(df), id)))
    {
      AttachedChildren(df, NewCard, WithKids, id);
    }
  }

  /** The employee nodes in the heap. */
  function Heap(nodes: map<string, Card>): (h: map<Key, Card>)
    ensures forall k :: k in h <==> k.Emp? && k.uid in nodes
    ensures forall id :: id in nodes ==> h[Emp(id)] == nodes[id]
  {
    map id | id in nodes :: Emp(id) := nodes[id]
  }

  /** Every child entry refers to a node of the heap. */
  ghost predicate Linked(h: map<Key, Card>) {
    forall k, c :: k in h && c in h[k].children ==> c in h
  }

  /** The employee heap of a roster is linked: every child is the id of
      a row. */
  lemma TreeLinked(df: seq<Row>)
    ensures Linked(Heap(Tree(df)))
  {
    var h := Heap(Tree(df));
    forall k, c | k in h && c in h[k].children
      ensures c in h
    {
      KidsAreIds(df, k.uid);
      TreeNodes(df);
    }
  }

  /** Each child of an employee node is the employee node of a row. */
  lemma KidsAreIds(df: seq<Row>, id: string)
    requires id in Tree(df)
    ensures forall c :: c in Tree(df)[id].children ==> c.Emp? && c.uid in IdColumn(df)
  {
    TreeNodes(df);
    var kids := ReportsOf(ParentLinks(df), id);
    ReportsAreIds(df, id);
    forall c | c in Tree(df)[id].children
      ensures c.Emp? && c.uid in IdColumn(df)
    {
      var i :| 0 <= i < |kids| && EmpKeys(kids)[i] == c;
      assert kids[i] in kids;
    }
  }

  /** A lower-cased title naming a leader role. */
  predicate HasLeaderWord(t: string) {
    Contains(t, "director") || Contains(t, "head") || Contains(t, "manager") || Contains(t, "chief")
  }

  /** The section of lines 196-204 for a title: "trainee" anywhere in
      the lower-cased title wins, then a leader word, then staff. */
  function SectionOf(title: string): Section {
    var t := Lower(title);
    if Contains(t, "trainee") then Trainees
    else if HasLeaderWord(t) then Leaders
    else Staff
  }

  /** The section of a child entry, by the title of its node. */
  function SectionOfKey(h: map<Key, Card>, c: Key): Section {
    if c in h then SectionOf(h[c].title) else Staff
  }

  /** Assigns each child entry its section. */
  type Sorter = Key -> Section

  /** The sorting of lines 196-204 over the heap `h`. */
  function ByTitle(h: map<Key, Card>): Sorter {
    (c: Key) => SectionOfKey(h, c)
  }

  /** The children that sort into `s`, in their order. */
  function Members(sort: Sorter, kids: seq<Key>, s: Section): seq<Key> {
    Seqs.Filter(kids, (c: Key) => sort(c) == s)
  }

  /** The sort loop of lines 196-204: each child is appended to the list
      of its section, in child order. */
  method SplitSections(h: map<Key, Card>, kids: seq<Key>)
    returns (leaders: seq<Key>, staff: seq<Key>, trainees: seq<Key>)
    ensures leaders == Members(ByTitle(h), kids, Leaders)
    ensures staff == Members(ByTitle(h), kids, Staff)
    ensures trainees == Members(ByTitle(h), kids, Trainees)
  {
    leaders, staff, trainees := [], [], [];
    var i := 0;
    while i < |kids|
      invariant 0 <= i <= |kids|
      invariant leaders == Members(ByTitle(h), kids[..i], Leaders)
      invariant staff == Members(ByTitle(h), kids[..i], Staff)
      invariant trainees == Members(ByTitle(h), kids[..i], Trainees)
    {
      var child := kids[i];
      Seqs.TakeSnoc(kids, i);
      MembersSnoc(ByTitle(h), kids[..i], child);
      var title := if child in h then h[child].title else "";
      ChildSection(h, child);
      var t := Lower(title);
      if Contains(t, "trainee") {
        trainees := trainees + [child];
      } else if HasLeaderWord(t) {
        leaders := leaders + [child];
      } else {
        staff := staff + [child];
      }
      i := i + 1;
    }
    assert kids[..i] == kids;
  }

  /** A child without a node sorts as a blank title does. */
  lemma ChildSection(h: map<Key, Card>, c: Key)
    ensures ByTitle(h)(c) == SectionOf(if c in h then h[c].title else "")
  {
    if c !in h {
      assert !Contains("", "trainee") && !HasLeaderWord("");
    }
  }

  /** One more child joins the end of its own section's list only. */
  lemma MembersSnoc(sort: Sorter, kids: seq<Key>, c: Key)
    ensures forall s :: Members(sort, kids + [c], s) ==
              Members(sort, kids, s) + if sort(c) == s then [c] else []
  {
    forall s
      ensures Members(sort, kids + [c], s) == Members(sort, kids, s) + if sort(c) == s then [c] else []
    {
      Seqs.FilterSnoc(kids, c, (x: Key) => sort(x) == s);
    }
  }

  /** The three sections split the children: together they hold every
      child exactly as often as the list does, and a child is in the
      section its title names and in no other. */
  lemma {:induction false} SectionsPartition(sort: Sorter, kids: seq<Key>)
    ensures multiset(Members(sort, kids, Leaders)) + multiset(Members(sort, kids, Staff))
            + multiset(Members(sort, kids, Trainees)) == multiset(kids)
  {
    if kids != [] {
      var c, rest := kids[0], kids[1..];
      SectionsPartition(sort, rest);
      MembersCons(sort, kids, Leaders);
      MembersCons(sort, kids, Staff);
      MembersCons(sort, kids, Trainees);
      MultisetCons(kids);
      AddOne(multiset(Members(sort, rest, Leaders)), multiset(Members(sort, rest, Staff)),
             multiset(Members(sort, rest, Trainees)), c, sort(c));
    }
  }

  lemma MultisetCons(s: seq<Key>)
    requires s != []
    ensures multiset(s) == multiset{s[0]} + multiset(s[1..])
  {
    assert s == [s[0]] + s[1..];
  }

  /** Adding one element to the part its section names adds it to the sum. */
  lemma AddOne(l: multiset<Key>, m: multiset<Key>, t: multiset<Key>, c: Key, s: Section)
    ensures var one := multiset{c};
            var none: multiset<Key> := multiset{};
            ((if s == Leaders then one else none) + l) + ((if s == Staff then one else none) + m)
            + ((if s == Trainees then one else none) + t) == one + (l + m + t)
  {
  }

  /** The first child heads its own section's list and no other. */
  lemma MembersCons(sort: Sorter, kids: seq<Key>, s: Section)
    requires kids != []
    ensures multiset(Members(sort, kids, s)) ==
            (if sort(kids[0]) == s then multiset{kids[0]} else multiset{}) + multiset(Members(sort, kids[1..], s))
  {
  }

  /** The "id" of a section node. */
  function GroupId(s: Section): string {
    match s
    case Leaders => "GROUP_LEADERS"
    case Staff => "GROUP_STAFF"
    case Trainees => "GROUP_TRAINEES"
  }

  /** The section node of lines 162-194 holding `kids`: a leader group
      node, compact only for the trainees. */
  function GroupCard(s: Section, kids: seq<Key>): (c: Card)
    ensures c.id == GroupId(s) && c.isGroup && c.isLeader && c.children == kids && c.collapsed.None?
  {
    match s
    case Leaders =>
      Card(GroupId(s), "LEADERSHIP & HEADS", "Directors, Heads, Managers, Chiefs",
           "LEADERSHIP & HEADS", Some(""), true, true, Some(false), None, kids)
    case Staff =>
      Card(GroupId(s), "PROFESSIONAL STAFF", "Coordinators, Specialists, Officers",
           "PROFESSIONAL STAFF", Some(""), true, true, Some(false), None, kids)
    case Trainees =>
      Card(GroupId(s), "TRAINEES & EARLY CAREER", "Academic Operations Trainees & similar roles",
           "TRAINEES & EARLY CAREER", Some(""), true, true, Some(true), None, kids)
  }

  /** The order in which the sections are offered. */
  const Order: seq<Section> := [Leaders, Staff, Trainees]

  /** The sections among `ss` that have members. */
  function NonEmpty(sort: Sorter, kids: seq<Key>, ss: seq<Section>): seq<Section> {
    Seqs.Filter(ss, (s: Section) => Members(sort, kids, s) != [])
  }

  /** The sections that have members, in the order leaders, staff,
      trainees. */
  function Kept(sort: Sorter, kids: seq<Key>): seq<Section> {
    NonEmpty(sort, kids, Order)
  }

  /** The keys of section nodes. */
  function GroupKeys(ss: seq<Section>): (ks: seq<Key>)
    ensures |ks| == |ss|
    ensures forall i :: 0 <= i < |ss| ==> ks[i] == Group(ss[i])
  {
    seq(|ss|, i requires 0 <= i < |ss| => Group(ss[i]))
  }

  /** The ids of section nodes: `group_ids`. */
  function GroupIds(ss: seq<Section>): (ids: seq<string>)
    ensures |ids| == |ss|
    ensures forall i :: 0 <= i < |ss| ==> ids[i] == GroupId(ss[i])
  {
    seq(|ss|, i requires 0 <= i < |ss| => GroupId(ss[i]))
  }

  /** The section nodes of `ss`, each holding its members. */
  function GroupNodes(sort: Sorter, kids: seq<Key>, ss: seq<Section>): map<Key, Card> {
    map g | g in GroupKeys(ss) :: GroupCard(g.section, Members(sort, kids, g.section))
  }

  /** The heap after lines 157-215 for the single root `r`: the sections
      with members become nodes and replace the root's children, unless
      no section has a member. */
  function Grouped(h: map<Key, Card>, r: Key): map<Key, Card>
    requires r in h
  {
    Regroup(h, r, ByTitle(h))
  }

  /** `Grouped` for any sorting of the children. */
  function Regroup(h: map<Key, Card>, r: Key, sort: Sorter): map<Key, Card>
    requires r in h
  {
    var kids := h[r].children;
    var kept := Kept(sort, kids);
    if kept == [] then h
    else (h + GroupNodes(sort, kids, kept))[r := h[r].(children := GroupKeys(kept))]
  }

  /** The section loop of lines 206-213: every section with members is
      appended to `new_children` and its id to `group_ids`; the root's
      children are replaced only when some section has members. */
  method GroupUnderRoot(h: map<Key, Card>, r: Key) returns (out: map<Key, Card>, groupIds: seq<string>)
    requires r in h && r.Emp?
    ensures out == Grouped(h, r)
    ensures groupIds == GroupIds(Kept(ByTitle(h), h[r].children))
  {
    ghost var sort := ByTitle(h);
    var kids := h[r].children;
    var leaders, staff, trainees := SplitSections(h, kids);
    var groups := [GroupCard(Leaders, leaders), GroupCard(Staff, staff), GroupCard(Trainees, trainees)];
    SectionGroupsAre(sort, kids, groups);
    var newChildren: seq<Key> := [];
    groupIds := [];
    out := h;
    var i := 0;
    KeepStart(h, sort, kids);
    while i < |Order|
      invariant KeepInv(h, sort, kids, i, newChildren, groupIds, out)
    {
      var group := groups[i];
      KeepAdvance(h, sort, kids, i, newChildren, groupIds, out, group);
      if group.children != [] {
        newChildren := newChildren + [Group(Order[i])];
        groupIds := groupIds + [group.id];
        out := out[Group(Order[i]) := group];
      }
      i := i + 1;
    }
    GroupFinish(h, r, sort, i, newChildren, groupIds, out);
    if newChildren != [] {
      out := out[r := out[r].(children := newChildren)];
    }
  }

  /** After the three sections, replacing the root's children (when
      there are new ones) gives the regrouped heap. */
  lemma GroupFinish(h: map<Key, Card>, r: Key, sort: Sorter, i: int,
                    newChildren: seq<Key>, groupIds: seq<string>, out: map<Key, Card>)
    requires r in h && r.Emp? && i == |Order|
    requires KeepInv(h, sort, h[r].children, i, newChildren, groupIds, out)
    ensures newChildren != [] ==> r in out && out[r := out[r].(children := newChildren)] == Regroup(h, r, sort)
    ensures newChildren == [] ==> out == Regroup(h, r, sort)
    ensures groupIds == GroupIds(Kept(sort, h[r].children))
  {
    assert Order[..i] == Order;
    RegroupFrom(h, r, sort, newChildren, out);
  }

  lemma RegroupFrom(h: map<Key, Card>, r: Key, sort: Sorter, newChildren: seq<Key>, out: map<Key, Card>)
    requires r in h && r.Emp?
    requires newChildren == GroupKeys(Kept(sort, h[r].children))
    requires out == h + GroupNodes(sort, h[r].children, Kept(sort, h[r].children))
    ensures newChildren != [] ==> r in out && out[r := out[r].(children := newChildren)] == Regroup(h, r, sort)
    ensures newChildren == [] ==> out == Regroup(h, r, sort)
  {
    var kept := Kept(sort, h[r].children);
    GroupNodesAreGroups(sort, h[r].children, kept);
    if newChildren != [] {
      assert out[r] == h[r];
    } else {
      assert kept == [];
    }
  }

  /** The state of the section loop after the first `i` sections. */
  ghost predicate KeepInv(h: map<Key, Card>, sort: Sorter, kids: seq<Key>, i: int,
                          newChildren: seq<Key>, groupIds: seq<string>, out: map<Key, Card>) {
    && 0 <= i <= |Order|
    && newChildren == GroupKeys(NonEmpty(sort, kids, Order[..i]))
    && groupIds == GroupIds(NonEmpty(sort, kids, Order[..i]))
    && out == h + GroupNodes(sort, kids, NonEmpty(sort, kids, Order[..i]))
  }

  /** The section nodes before the loop, in the order of `Order`. */
  function SectionGroups(sort: Sorter, kids: seq<Key>): (gs: seq<Card>)
    ensures |gs| == |Order|
  {
    seq(|Order|, i requires 0 <= i < |Order| => GroupCard(Order[i], Members(sort, kids, Order[i])))
  }

  lemma SectionGroupsAre(sort: Sorter, kids: seq<Key>, groups: seq<Card>)
    requires groups == [GroupCard(Leaders, Members(sort, kids, Leaders)), GroupCard(Staff, Members(sort, kids, Staff)),
                        GroupCard(Trainees, Members(sort, kids, Trainees))]
    ensures groups == SectionGroups(sort, kids)
  {
  }

  /** Before the loop nothing is kept. */
  lemma KeepStart(h: map<Key, Card>, sort: Sorter, kids: seq<Key>)
    ensures KeepInv(h, sort, kids, 0, [], [], h)
  {
    assert Order[..0] == [];
    assert GroupNodes(sort, kids, []) == map[];
  }

  /** Offering the next section: its node is kept exactly when it has
      members. */
  lemma KeepAdvance(h: map<Key, Card>, sort: Sorter, kids: seq<Key>, i: int,
                    newChildren: seq<Key>, groupIds: seq<string>, out: map<Key, Card>, group: Card)
    requires KeepInv(h, sort, kids, i, newChildren, groupIds, out) && i < |Order|
    requires group == SectionGroups(sort, kids)[i]
    ensures group.children != [] ==>
              KeepInv(h, sort, kids, i + 1, newChildren + [Group(Order[i])], groupIds + [group.id],
                      out[Group(Order[i]) := group])
    ensures group.children == [] ==> KeepInv(h, sort, kids, i + 1, newChildren, groupIds, out)
  {
    var s := Order[i];
    var before := NonEmpty(sort, kids, Order[..i]);
    KeepStep(sort, kids, i);
    AddGroup(sort, kids, before, s);
    PlusUpdate(h, GroupNodes(sort, kids, before), Group(s), group);
  }

  lemma PlusUpdate<K, V>(a: map<K, V>, b: map<K, V>, k: K, v: V)
    ensures a + b[k := v] == (a + b)[k := v]
  {
  }

  /** Section nodes sit under section keys only. */
  lemma GroupNodesAreGroups(sort: Sorter, kids: seq<Key>, ss: seq<Section>)
    ensures forall g :: g in GroupNodes(sort, kids, ss) ==> g.Group?
  {
  }

  /** One more section offered: kept when it has members. */
  lemma KeepStep(sort: Sorter, kids: seq<Key>, i: int)
    requires 0 <= i < |Order|
    ensures NonEmpty(sort, kids, Order[..i + 1]) ==
            NonEmpty(sort, kids, Order[..i]) + (if Members(sort, kids, Order[i]) != [] then [Order[i]] else [])
  {
    assert Order[..i + 1] == Order[..i] + [Order[i]];
    Seqs.FilterSnoc(Order[..i], Order[i], (x: Section) => Members(sort, kids, x) != []);
  }

  /** A kept section adds its key, its id and its node. */
  lemma AddGroup(sort: Sorter, kids: seq<Key>, ss: seq<Section>, s: Section)
    ensures GroupKeys(ss + [s]) == GroupKeys(ss) + [Group(s)]
    ensures GroupIds(ss + [s]) == GroupIds(ss) + [GroupId(s)]
    ensures GroupNodes(sort, kids, ss + [s]) == GroupNodes(sort, kids, ss)[Group(s) := GroupCard(s, Members(sort, kids, s))]
  {
    assert GroupKeys(ss + [s]) == GroupKeys(ss) + [Group(s)];
    assert GroupIds(ss + [s]) == GroupIds(ss) + [GroupId(s)];
    AddGroupNode(sort, kids, ss, s);
  }

  lemma AddGroupNode(sort: Sorter, kids: seq<Key>, ss: seq<Section>, s: Section)
    requires GroupKeys(ss + [s]) == GroupKeys(ss) + [Group(s)]
    ensures GroupNodes(sort, kids, ss + [s]) == GroupNodes(sort, kids, ss)[Group(s) := GroupCard(s, Members(sort, kids, s))]
  {
    var a := GroupNodes(sort, kids, ss + [s]);
    var b := GroupNodes(sort, kids, ss)[Group(s) := GroupCard(s, Members(sort, kids, s))];
    assert forall g :: g in GroupKeys(ss + [s]) <==> g in GroupKeys(ss) || g == Group(s);
    assert a.Keys == b.Keys;
  }

  /** The "collapsed" value of lines 226-235 for a node with children:
      open at the root; a section node open only when it is the expanded
      one; any other node open exactly when it is a leader. */
  function CollapsedFlag(c: Card, isRoot: bool, expanded: Option<string>): bool {
    if isRoot then false
    else if c.isGroup then !(expanded.Some? && c.id == expanded.value)
    else !c.isLeader
  }

  /** A node after the pass has reached it: a node with children gets
      its flag, a leaf stays as it was. */
  function Flagged(c: Card, isRoot: bool, expanded: Option<string>): (r: Card)
    ensures r.children == c.children
    ensures c.children == [] ==> r == c
    ensures c.children != [] ==> r == c.(collapsed := Some(CollapsedFlag(c, isRoot, expanded)))
  {
    if c.children == [] then c else c.(collapsed := Some(CollapsedFlag(c, isRoot, expanded)))
  }

  /** The child lists of a heap. */
  function Kids(h: map<Key, Card>): map<Key, seq<Key>> {
    map k | k in h :: h[k].children
  }

  /** `p` walks from node to child. */
  ghost predicate PathIn(g: map<Key, seq<Key>>, p: seq<Key>) {
    |p| >= 1 && forall i :: 0 <= i < |p| - 1 ==> p[i] in g && p[i + 1] in g[p[i]]
  }

  /** `b` is `a` or lies below it. */
  ghost predicate Reaches(g: map<Key, seq<Key>>, a: Key, b: Key) {
    exists p :: PathIn(g, p) && p[0] == a && p[|p| - 1] == b
  }

  /** A node reaches itself. */
  lemma ReachesSelf(g: map<Key, seq<Key>>, a: Key)
    ensures Reaches(g, a, a)
  {
    assert PathIn(g, [a]);
  }

  /** What a node's child reaches, the node reaches. */
  lemma ReachesDown(g: map<Key, seq<Key>>, a: Key, c: Key, b: Key)
    requires a in g && c in g[a] && Reaches(g, c, b)
    ensures Reaches(g, a, b)
  {
    var p :| PathIn(g, p) && p[0] == c && p[|p| - 1] == b;
    var q := [a] + p;
    assert forall i :: 1 <= i < |q| ==> q[i] == p[i - 1];
    assert PathIn(g, q);
  }

  /** Two heaps with the same nodes and the same children. */
  ghost predicate SameShape(a: map<Key, Card>, b: map<Key, Card>) {
    a.Keys == b.Keys && forall k :: k in a ==> a[k].children == b[k].children
  }

  lemma SameShapeKids(a: map<Key, Card>, b: map<Key, Card>)
    requires SameShape(a, b)
    ensures Kids(a) == Kids(b)
  {
  }

  /** The outcome of `apply_collapse_flags(node k, is_root, expanded)` on
      the heap `h`, with `stack` the nodes whose calls are still running:
      `visited` holds `k` and every node below it, none of them running;
      each of them got its flag (root only for `k` itself) and no other
      node changed. */
  ghost predicate FlagsSet(h: map<Key, Card>, k: Key, isRoot: bool, expanded: Option<string>,
                           stack: set<Key>, visited: set<Key>, out: map<Key, Card>) {
    && SameShape(out, h)
    && k in visited && visited <= h.Keys && visited !! stack
    && (forall j :: j in h && j !in visited ==> out[j] == h[j])
    && (forall j :: j in visited ==> out[j] == Flagged(h[j], isRoot && j == k, expanded))
    && (forall j, c :: j in visited && c in h[j].children ==> c in visited)
    && (forall j :: j in visited ==> Reaches(Kids(h), k, j))
  }

  /** `apply_collapse_flags` (lines 223-238): a node with children gets
      its flag and the pass recurses into each child in order; a leaf is
      left alone. A child whose call is still running on the stack makes
      Python recurse without end, which ends in a RecursionError: the
      model returns None there. */
  method ApplyCollapseFlags(h: map<Key, Card>, k: Key, isRoot: bool, expanded: Option<string>, stack: set<Key>)
    returns (out: Option<map<Key, Card>>, ghost visited: set<Key>)
    requires Linked(h) && k in h && stack <= h.Keys && k !in stack
    ensures out.Some? ==> FlagsSet(h, k, isRoot, expanded, stack, visited, out.value)
    ensures out.None? <==> Stuck(Kids(h), k, stack)
    decreases h.Keys - stack, 1
  {
    var node := h[k];
    var children := node.children;
    if children == [] {
      ReachesSelf(Kids(h), k);
      assert EndsBelow(h, k, stack, children);
      NotStuck(h, k, stack);
      return Some(h), {k};
    }
    var cur := h[k := Flagged(node, isRoot, expanded)];
    visited := {k};
    FlagLoopStart(h, k, isRoot, expanded, stack);
    var i := 0;
    while i < |children|
      invariant FlagLoop(h, k, isRoot, expanded, stack, i, visited, cur)
      invariant EndsBelow(h, k, stack, children[..i])
    {
      var next, subVisited := FlagChild(h, k, isRoot, expanded, stack, i, visited, cur);
      if next.None? {
        return None, {};
      }
      cur := next.value;
      visited := visited + subVisited;
      i := i + 1;
    }
    FlagLoopDone(h, k, isRoot, expanded, stack, visited, cur);
    assert children[..i] == children;
    NotStuck(h, k, stack);
    out := Some(cur);
  }

  /** One turn of the loop of `apply_collapse_flags`: the call on the
      `i`-th child of `k`, over the heap `cur` the earlier calls left. A
      child that is running or is `k` itself, or whose own call never
      ends, makes the call on `k` never end. */
  method FlagChild(h: map<Key, Card>, k: Key, isRoot: bool, expanded: Option<string>, stack: set<Key>,
                   i: int, ghost visited: set<Key>, cur: map<Key, Card>)
    returns (next: Option<map<Key, Card>>, ghost subVisited: set<Key>)
    requires FlagLoop(h, k, isRoot, expanded, stack, i, visited, cur) && i < |h[k].children|
    requires stack <= h.Keys && EndsBelow(h, k, stack, h[k].children[..i])
    ensures next.None? ==> Stuck(Kids(h), k, stack)
    ensures next.Some? ==> && FlagLoop(h, k, isRoot, expanded, stack, i + 1, visited + subVisited, next.value)
                           && EndsBelow(h, k, stack, h[k].children[..i + 1])
    decreases h.Keys - stack, 0
  {
    var child := h[k].children[i];
    if child in stack || child == k {
      StuckHere(h, k, child, stack);
      return None, {};
    }
    SameShapeLinked(cur, h);
    assert cur.Keys == h.Keys && k in h.Keys - stack;
    assert cur.Keys - (stack + {k}) < h.Keys - stack;
    var sub;
    sub, subVisited := ApplyCollapseFlags(cur, child, false, expanded, stack + {k});
    SameShapeKids(cur, h);
    if sub.None? {
      StuckBelow(h, k, child, stack);
      return None, {};
    }
    EndsBelowStep(h, k, stack, h[k].children, i);
    FlagLoopStep(h, k, isRoot, expanded, stack, i, visited, cur, subVisited, sub.value);
    next := sub;
  }

  /** The loop of `apply_collapse_flags` after the first `i` children of `k`. */
  ghost predicate FlagLoop(h: map<Key, Card>, k: Key, isRoot: bool, expanded: Option<string>,
                           stack: set<Key>, i: int, visited: set<Key>, cur: map<Key, Card>) {
    && Linked(h) && k in h && 0 <= i <= |h[k].children|
    && SameShape(cur, h)
    && k in visited && visited <= h.Keys && visited !! stack
    && FlagsOk(h, k, isRoot, expanded, visited, cur)
    && ClosedBelow(h, k, visited)
    && (forall c :: c in h[k].children[..i] ==> c in visited)
    && AllReached(h, k, visited)
  }

  /** The visited nodes are flagged, the others unchanged. */
  ghost predicate FlagsOk(h: map<Key, Card>, k: Key, isRoot: bool, expanded: Option<string>,
                          visited: set<Key>, cur: map<Key, Card>) {
    && (forall j :: j in h && j !in visited ==> j in cur && cur[j] == h[j])
    && (forall j :: j in visited ==> j in h && j in cur && cur[j] == Flagged(h[j], isRoot && j == k, expanded))
  }

  /** The children of every visited node but `k` are visited. */
  ghost predicate ClosedBelow(h: map<Key, Card>, k: Key, visited: set<Key>) {
    forall j, c :: j in visited && j in h && j != k && c in h[j].children ==> c in visited
  }

  /** Every visited node lies below `k`. */
  ghost predicate AllReached(h: map<Key, Card>, k: Key, visited: set<Key>) {
    forall j :: j in visited ==> Reaches(Kids(h), k, j)
  }

  /** A second visit sets the same flag again. */
  lemma FlaggedTwice(c: Card, expanded: Option<string>)
    ensures Flagged(Flagged(c, false, expanded), false, expanded) == Flagged(c, false, expanded)
  {
  }

  /** A heap shaped like a linked heap is linked. */
  lemma SameShapeLinked(a: map<Key, Card>, b: map<Key, Card>)
    requires SameShape(a, b) && Linked(b)
    ensures Linked(a)
  {
  }

  /** The loop starts with `k` flagged and nothing else visited. */
  lemma FlagLoopStart(h: map<Key, Card>, k: Key, isRoot: bool, expanded: Option<string>, stack: set<Key>)
    requires Linked(h) && k in h && stack <= h.Keys && k !in stack
    ensures FlagLoop(h, k, isRoot, expanded, stack, 0, {k}, h[k := Flagged(h[k], isRoot, expanded)])
  {
    var cur := h[k := Flagged(h[k], isRoot, expanded)];
    ReachesSelf(Kids(h), k);
    assert SameShape(cur, h);
    assert FlagsOk(h, k, isRoot, expanded, {k}, cur);
    assert h[k].children[..0] == [];
  }

  /** After the last child the loop has done what the call promises. */
  lemma FlagLoopDone(h: map<Key, Card>, k: Key, isRoot: bool, expanded: Option<string>,
                     stack: set<Key>, visited: set<Key>, cur: map<Key, Card>)
    requires k in h && FlagLoop(h, k, isRoot, expanded, stack, |h[k].children|, visited, cur)
    ensures FlagsSet(h, k, isRoot, expanded, stack, visited, cur)
  {
    assert h[k].children[..|h[k].children|] == h[k].children;
  }

  /** One child handled: its call visited `subVisited`, all of it below
      `k`, and flagged it over the current heap. */
  lemma FlagLoopStep(h: map<Key, Card>, k: Key, isRoot: bool, expanded: Option<string>,
                     stack: set<Key>, i: int, visited: set<Key>, cur: map<Key, Card>,
                     subVisited: set<Key>, next: map<Key, Card>)
    requires FlagLoop(h, k, isRoot, expanded, stack, i, visited, cur) && i < |h[k].children|
    requires h[k].children[i] !in stack && h[k].children[i] != k
    requires FlagsSet(cur, h[k].children[i], false, expanded, stack + {k}, subVisited, next)
    ensures FlagLoop(h, k, isRoot, expanded, stack, i + 1, visited + subVisited, next)
  {
    var c := h[k].children[i];
    StepFlags(h, k, isRoot, expanded, visited, cur, c, subVisited, next);
    StepClosed(h, k, i, visited, cur, subVisited);
    SameShapeKids(cur, h);
    StepReached(h, k, c, visited, subVisited);
    StepShape(h, cur, next);
  }

  lemma StepShape(h: map<Key, Card>, cur: map<Key, Card>, next: map<Key, Card>)
    requires SameShape(cur, h) && SameShape(next, cur)
    ensures SameShape(next, h)
  {
  }

  lemma StepFlags(h: map<Key, Card>, k: Key, isRoot: bool, expanded: Option<string>,
                  visited: set<Key>, cur: map<Key, Card>, c: Key, subVisited: set<Key>, next: map<Key, Card>)
    requires cur.Keys == h.Keys && next.Keys == h.Keys
    requires FlagsOk(h, k, isRoot, expanded, visited, cur) && k !in subVisited
    requires forall j :: j in cur && j !in subVisited ==> next[j] == cur[j]
    requires forall j :: j in subVisited ==> j in cur && next[j] == Flagged(cur[j], false, expanded)
    ensures FlagsOk(h, k, isRoot, expanded, visited + subVisited, next)
  {
    forall j | j in subVisited
      ensures next[j] == Flagged(h[j], isRoot && j == k, expanded)
    {
      FlaggedTwice(h[j], expanded);
    }
  }

  lemma StepClosed(h: map<Key, Card>, k: Key, i: int, visited: set<Key>, cur: map<Key, Card>, subVisited: set<Key>)
    requires k in h && 0 <= i < |h[k].children|
    requires SameShape(cur, h)
    requires ClosedBelow(h, k, visited) && k !in subVisited && h[k].children[i] in subVisited
    requires forall c :: c in h[k].children[..i] ==> c in visited
    requires subVisited <= cur.Keys
    requires forall j, c :: j in subVisited && c in cur[j].children ==> c in subVisited
    ensures ClosedBelow(h, k, visited + subVisited)
    ensures forall c :: c in h[k].children[..i + 1] ==> c in visited + subVisited
  {
    Seqs.TakeSnoc(h[k].children, i);
  }

  lemma StepReached(h: map<Key, Card>, k: Key, c: Key, visited: set<Key>, subVisited: set<Key>)
    requires k in h && c in h[k].children
    requires AllReached(h, k, visited)
    requires forall j :: j in subVisited ==> Reaches(Kids(h), c, j)
    ensures AllReached(h, k, visited + subVisited)
  {
    forall j | j in subVisited
      ensures Reaches(Kids(h), k, j)
    {
      ReachesDown(Kids(h), k, c, j);
    }
  }

  /** Below `k` some node has a child whose call is still running (on
      `stack`) or that leads back up to it: following the children from
      `k` never ends. */
  ghost predicate Stuck(g: map<Key, seq<Key>>, k: Key, stack: set<Key>) {
    exists a, c :: Reaches(g, k, a) && a in g && c in g[a] && (c in stack || Reaches(g, c, a))
  }

  lemma StuckHere(h: map<Key, Card>, k: Key, c: Key, stack: set<Key>)
    requires k in h && c in h[k].children && (c in stack || c == k)
    ensures Stuck(Kids(h), k, stack)
  {
    ReachesSelf(Kids(h), k);
  }

  lemma StuckBelow(h: map<Key, Card>, k: Key, c: Key, stack: set<Key>)
    requires k in h && c in h[k].children && Stuck(Kids(h), c, stack + {k})
    ensures Stuck(Kids(h), k, stack)
  {
    var g := Kids(h);
    var a, d :| Reaches(g, c, a) && a in g && d in g[a] && (d in stack + {k} || Reaches(g, d, a));
    ReachesDown(g, k, c, a);
  }

  /** When no child of `k` is running, is `k` itself, or leads to an
      endless recursion, nothing below `k` does: the recursion from `k`
      ends. */
  lemma NotStuck(h: map<Key, Card>, k: Key, stack: set<Key>)
    requires k in h && EndsBelow(h, k, stack, h[k].children)
    ensures !Stuck(Kids(h), k, stack)
  {
    var g := Kids(h);
    forall a, c | Reaches(g, k, a) && a in g && c in g[a]
      ensures c !in stack && !Reaches(g, c, a)
    {
      if a == k {
        NoWayBack(g, c, k);
      } else {
        var c0 := FirstStep(g, k, a);
        assert !Stuck(g, c0, stack + {k});
      }
    }
  }

  /** None of the children `cs` of `k` is running or is `k`, and the
      recursion from each of them ends. */
  ghost predicate EndsBelow(h: map<Key, Card>, k: Key, stack: set<Key>, cs: seq<Key>) {
    forall c :: c in cs ==> c !in stack && c != k && !Stuck(Kids(h), c, stack + {k})
  }

  lemma EndsBelowStep(h: map<Key, Card>, k: Key, stack: set<Key>, cs: seq<Key>, i: int)
    requires 0 <= i < |cs| && EndsBelow(h, k, stack, cs[..i])
    requires cs[i] !in stack && cs[i] != k && !Stuck(Kids(h), cs[i], stack + {k})
    ensures EndsBelow(h, k, stack, cs[..i + 1])
  {
    assert cs[..i + 1] == cs[..i] + [cs[i]];
  }

  /** A path from `k` to another node starts with a child of `k`. */
  lemma FirstStep(g: map<Key, seq<Key>>, k: Key, a: Key) returns (c: Key)
    requires Reaches(g, k, a) && a != k
    ensures k in g && c in g[k] && Reaches(g, c, a)
  {
    var p :| PathIn(g, p) && p[0] == k && p[|p| - 1] == a;
    c := p[1];
    assert PathIn(g, p[1..]);
  }

  /** When no node below `c` has `k` as a child, `c` does not lead to
      `k`. */
  lemma NoWayBack(g: map<Key, seq<Key>>, c: Key, k: Key)
    requires c != k
    requires forall b :: Reaches(g, c, b) && b in g ==> k !in g[b]
    ensures !Reaches(g, c, k)
  {
    forall p | PathIn(g, p) && p[0] == c
      ensures p[|p| - 1] != k
    {
      if |p| >= 2 {
        var q := p[..|p| - 1];
        assert PathIn(g, q) && q[0] == c && q[|q| - 1] == p[|p| - 2];
      }
    }
  }

  /** Regrouping keeps the heap linked, changes only the root, and adds
      a node for each section with members, holding those members; the
      root's children are replaced exactly when it has any. */
  lemma RegroupShape(h: map<Key, Card>, r: Key, sort: Sorter)
    requires Linked(h) && r in h && forall k :: k in h ==> k.Emp?
    ensures var g := Regroup(h, r, sort);
            var kids := h[r].children;
            var kept := Kept(sort, kids);
            && Linked(g)
            && (forall k :: k in h && k != r ==> k in g && g[k] == h[k])
            && (kept == [] <==> kids == [])
            && (kids != [] ==> r in g && g[r] == h[r].(children := GroupKeys(kept)))
            && (forall s :: s in kept ==> Group(s) in g && g[Group(s)] == GroupCard(s, Members(sort, kids, s)))
  {
    KeptIff(sort, h[r].children);
    RegroupOthers(h, r, sort);
    RegroupGroups(h, r, sort);
    RegroupLinked(h, r, sort);
  }

  lemma RegroupOthers(h: map<Key, Card>, r: Key, sort: Sorter)
    requires r in h && forall k :: k in h ==> k.Emp?
    ensures var g := Regroup(h, r, sort);
            forall k :: k in h && k != r ==> k in g && g[k] == h[k]
  {
    GroupNodesAreGroups(sort, h[r].children, Kept(sort, h[r].children));
  }

  lemma RegroupGroups(h: map<Key, Card>, r: Key, sort: Sorter)
    requires r in h && r.Emp?
    ensures var g := Regroup(h, r, sort);
            var kids := h[r].children;
            forall s :: s in Kept(sort, kids) ==> Group(s) in g && g[Group(s)] == GroupCard(s, Members(sort, kids, s))
  {
    var kids := h[r].children;
    var kept := Kept(sort, kids);
    var nodes := GroupNodes(sort, kids, kept);
    forall s | s in kept
      ensures Group(s) in nodes && nodes[Group(s)] == GroupCard(s, Members(sort, kids, s))
    {
      GroupNodeOf(sort, kids, kept, s);
    }
  }

  /** A section of `ss` has its node among the section nodes. */
  lemma GroupNodeOf(sort: Sorter, kids: seq<Key>, ss: seq<Section>, s: Section)
    requires s in ss
    ensures Group(s) in GroupNodes(sort, kids, ss)
    ensures GroupNodes(sort, kids, ss)[Group(s)] == GroupCard(s, Members(sort, kids, s))
  {
    var i :| 0 <= i < |ss| && ss[i] == s;
    assert GroupKeys(ss)[i] == Group(s);
  }

  /** The children of a section node are children of the root. */
  lemma GroupNodeKids(sort: Sorter, kids: seq<Key>, ss: seq<Section>, g: Key)
    requires g in GroupNodes(sort, kids, ss)
    ensures forall c :: c in GroupNodes(sort, kids, ss)[g].children ==> c in kids
  {
  }

  lemma RegroupLinked(h: map<Key, Card>, r: Key, sort: Sorter)
    requires Linked(h) && r in h && r.Emp?
    ensures Linked(Regroup(h, r, sort))
  {
    var kids := h[r].children;
    var kept := Kept(sort, kids);
    if kept != [] {
      var g := Regroup(h, r, sort);
      var nodes := GroupNodes(sort, kids, kept);
      GroupNodesAreGroups(sort, kids, kept);
      forall k, c | k in g && c in g[k].children
        ensures c in g
      {
        if k == r {
          assert c in GroupKeys(kept);
        } else if k in nodes {
          GroupNodeKids(sort, kids, kept, k);
        }
      }
    }
  }

  /** Some section has members exactly when there are children. */
  lemma KeptIff(sort: Sorter, kids: seq<Key>)
    ensures Kept(sort, kids) == [] <==> kids == []
  {
    if kids != [] {
      SectionsPartition(sort, kids);
      var s := sort(kids[0]);
      assert kids[0] in Members(sort, kids, s);
      assert s in Order;
    }
  }

  /** The pass touches exactly the nodes below `k`: the visited set is
      closed under children, so every node a path from `k` leads to is in
      it. */
  lemma VisitedIsBelow(h: map<Key, Card>, k: Key, isRoot: bool, expanded: Option<string>,
                       stack: set<Key>, visited: set<Key>, out: map<Key, Card>)
    requires FlagsSet(h, k, isRoot, expanded, stack, visited, out)
    ensures forall j :: j in visited <==> Reaches(Kids(h), k, j)
  {
    var g := Kids(h);
    forall j | Reaches(g, k, j)
      ensures j in visited
    {
      var p :| PathIn(g, p) && p[0] == k && p[|p| - 1] == j;
      PathStaysIn(h, visited, p, |p| - 1);
    }
  }

  lemma {:induction false} PathStaysIn(h: map<Key, Card>, visited: set<Key>, p: seq<Key>, n: nat)
    requires visited <= h.Keys && PathIn(Kids(h), p) && p[0] in visited && n < |p|
    requires forall j, c :: j in visited && c in h[j].children ==> c in visited
    ensures p[n] in visited
    decreases n
  {
    if n > 0 {
      PathStaysIn(h, visited, p, n - 1);
      assert p[n] in Kids(h)[p[n - 1]];
    }
  }

  /** The node over several roots (lines 141-152): a leader group node
      with no "compact" or "collapsed" entry, holding the roots in
      order. */
  function VirtualCard(roots: seq<string>): Card {
    Card("VIRTUAL_ROOT", "Organization", "", "", Some(""), true, true, None, None, EmpKeys(roots))
  }

  /** The message of the RuntimeError raised when no root is found. */
  const NoRoots := "No root nodes detected – cannot build org chart."

  /** The message of the RecursionError raised by a cycle below the
      root. */
  const TooDeep := "maximum recursion depth exceeded"

  /** The chart root's key and the heap the collapse pass starts from
      (lines 137-215): one root gets its children sorted into sections,
      several roots hang under the virtual node. */
  function Layout(df: seq<Row>): (Key, map<Key, Card>)
    requires Roots(df) != []
  {
    var roots := Roots(df);
    var h := Heap(Tree(df));
    RootsInHeap(df);
    assert roots[0] in roots;
    if |roots| == 1 then (Emp(roots[0]), Grouped(h, Emp(roots[0])))
    else (VirtualRoot, h[VirtualRoot := VirtualCard(roots)])
  }

  /** Every root has an employee node. */
  lemma RootsInHeap(df: seq<Row>)
    ensures forall u :: u in Roots(df) ==> Emp(u) in Heap(Tree(df))
  {
    RootsIff(df);
    TreeNodes(df);
  }

  /** `default_expanded_group_id`: the leaders' section when it was
      created, else None. */
  function DefaultExpanded(df: seq<Row>): Option<string>
    requires Roots(df) != []
  {
    var roots := Roots(df);
    var h := Heap(Tree(df));
    RootsInHeap(df);
    assert roots[0] in roots;
    if |roots| == 1 && Leaders in Kept(ByTitle(h), h[Emp(roots[0])].children) then Some(GroupId(Leaders))
    else None
  }

  /** The layout is a linked heap holding its root. A single root keeps
      its node, with its children replaced by their sections when it has
      any; several roots get the virtual node, every other node being the
      employee node of the roster. */
  lemma LayoutShape(df: seq<Row>)
    requires Roots(df) != []
    ensures var (root, g) := Layout(df);
            var h := Heap(Tree(df));
            var roots := Roots(df);
            && root in g && Linked(g)
            && (|roots| == 1 ==> root == Emp(roots[0]) && g == Grouped(h, root))
            && (|roots| > 1 ==> root == VirtualRoot && g == h[root := VirtualCard(roots)]
                                && g[root].children == EmpKeys(roots))
  {
    var roots := Roots(df);
    var h := Heap(Tree(df));
    RootsInHeap(df);
    TreeLinked(df);
    assert roots[0] in roots;
    if |roots| == 1 {
      RegroupShape(h, Emp(roots[0]), ByTitle(h));
    } else {
      VirtualLinked(h, roots);
    }
  }

  /** Adding the virtual node over roots that have nodes keeps a heap
      linked. */
  lemma VirtualLinked(h: map<Key, Card>, roots: seq<string>)
    requires Linked(h) && forall u :: u in roots ==> Emp(u) in h
    ensures Linked(h[VirtualRoot := VirtualCard(roots)])
  {
    var g := h[VirtualRoot := VirtualCard(roots)];
    forall k, c | k in g && c in g[k].children
      ensures c in g
    {
      if k == VirtualRoot {
        var i :| 0 <= i < |roots| && EmpKeys(roots)[i] == c;
        assert roots[i] in roots;
      }
    }
  }

  /** "GROUP_LEADERS" is among the ids of created sections exactly when
      the leaders' section is. */
  lemma LeadersId(ss: seq<Section>)
    ensures GroupId(Leaders) in GroupIds(ss) <==> Leaders in ss
  {
    if Leaders in ss {
      var i :| 0 <= i < |ss| && ss[i] == Leaders;
      assert GroupIds(ss)[i] == GroupId(Leaders);
    }
  }

  /** The chart: every node by key, and the root's key. */
  datatype Chart = Chart(nodes: map<Key, Card>, root: Key)

  /** The script from loading to the hierarchy it serialises. It fails
      with the "no root" error exactly when no id's last row has a null
      manager; otherwise it either flags every node below the layout's
      root, leaving the rest alone, or fails with a RecursionError because
      a cycle lies below the root. */
  method Jan22Chart(df: seq<Row>) returns (r: Result<Chart, string>, ghost visited: set<Key>)
    ensures r == Err(NoRoots) <==> Roots(df) == []
    ensures r.Ok? ==> Roots(df) != [] && r.value.root == Layout(df).0 &&
                      FlagsSet(Layout(df).1, Layout(df).0, true, DefaultExpanded(df), {}, visited, r.value.nodes)
    ensures r.Err? && Roots(df) != [] ==> r.error == TooDeep && Stuck(Kids(Layout(df).1), Layout(df).0, {})
    ensures Roots(df) != [] && Stuck(Kids(Layout(df).1), Layout(df).0, {}) ==> r == Err(TooDeep)
  {
    var nodes := BuildNodes(df, NewCard);
    var keys, parent, children := ScanParents(df);
    nodes := AttachChildren(nodes, children, WithKids);
    var roots := RootsOf(keys, parent);
    if |roots| == 0 {
      return Err(NoRoots), {};
    }
    var rootKey, heap, expanded := LayOut(df, nodes, roots);
    LayoutShape(df);
    var flagged;
    flagged, visited := ApplyCollapseFlags(heap, rootKey, true, expanded, {});
    if flagged.None? {
      return Err(TooDeep), visited;
    }
    r := Ok(Chart(flagged.value, rootKey));
  }

  /** Lines 137-215 and 220: the root's key, the heap before the collapse
      pass and the section left open, as `Layout` and `DefaultExpanded`
      describe them. */
  method LayOut(df: seq<Row>, nodes: map<string, Card>, roots: seq<string>)
    returns (rootKey: Key, heap: map<Key, Card>, expanded: Option<string>)
    requires nodes == Tree(df) && roots == Roots(df) && roots != []
    ensures rootKey == Layout(df).0 && heap == Layout(df).1
    ensures expanded == DefaultExpanded(df)
  {
    RootsInHeap(df);
    assert roots[0] in roots;
    heap := Heap(nodes);
    var groupIds: seq<string> := [];
    if |roots| == 1 {
      rootKey := Emp(roots[0]);
      heap, groupIds := GroupUnderRoot(heap, rootKey);
      LeadersId(Kept(ByTitle(Heap(nodes)), Heap(nodes)[rootKey].children));
    } else {
      rootKey := VirtualRoot;
      heap := heap[VirtualRoot := VirtualCard(roots)];
    }
    expanded := if GroupId(Leaders) in groupIds then Some(GroupId(Leaders)) else None;
  }
}
