/** The roster row every script reads, the pandas conversions they apply to
    its columns, and the helpers the scripts repeat: `is_null`,
    `build_label` and the id-keyed row dictionary. */
module Roster {

  import opened Options
  import opened Strings
  import Seqs

  /** A spreadsheet cell: None when the cell is empty (pandas NaN). */
  type Cell = Option<string>

  /** One roster row: "Unique Identifier", "Name", "Reports To",
      "Line Detail 1" (the title) and "Organization Name". */
  datatype Row = Row(id: Cell, name: Cell, reportsTo: Cell, title: Cell, org: Cell)

  /** `Series.astype(str)`: an empty cell becomes the text "nan". */
  function AsStr(c: Cell): (r: string)
    ensures c.Some? ==> r == c.value
    ensures c.None? ==> r == "nan"
  {
    c.GetOr("nan")
  }

  /** `.astype(str).replace({"nan": None})`, which the chart scripts apply
      to "Reports To": the empty cell and the literal text "nan" become
      None, every other text stays. */
  function ManagerCell(c: Cell): (r: Cell)
    ensures r.None? <==> c.None? || c.value == "nan"
    ensures r.Some? ==> r == c
  {
    if AsStr(c) == "nan" then None else Some(AsStr(c))
  }

  /** `Name.astype(str).str.strip()`. */
  function NameText(c: Cell): string {
    Strip(AsStr(c))
  }

  /** `is_null` of convert_to_json.py, department.py, v2.py,
      build_org_chart.py and v3.py on the values it is given: a missing
      value or a text that strips to nothing. */
  predicate IsNull(x: Cell) {
    x.None? || Blank(x.value)
  }

  /** `is_null` holds exactly for a missing value or a text whose
      `strip()` is empty. */
  lemma IsNullIff(x: Cell)
    ensures IsNull(x) <==> x.None? || Strip(x.value) == ""
  {
    if x.Some? {
      BlankIff(x.value);
    }
  }

  /** The text "nan" is not blank, so `is_null` rejects it. */
  lemma NanNotNull()
    ensures !IsNull(Some("nan"))
  {
    assert !IsSpace("nan"[0]);
  }

  /** `is_null` of jan_22_2.py (and of jan_21.py on the text or None it is
      given): what the shared `is_null` says null to, and also the three
      letters n, a, n in any mix of cases with blanks around them. */
  predicate IsNullOrNan(x: Cell): (r: bool)
    ensures r <==> IsNull(x) || (x.Some? && SpellsNan(Strip(x.value)))
  {
    IsNullIff(x);
    if x.None? then true
    else
      LowerIsNan(Strip(x.value));
      Strip(x.value) == "" || Lower(Strip(x.value)) == "nan"
  }

  /** `t` is "nan" whatever the case of each letter. */
  predicate SpellsNan(t: string) {
    |t| == 3 && t[0] in "nN" && t[1] in "aA" && t[2] in "nN"
  }

  /** `t.lower() == "nan"` exactly when `t` spells "nan" in any case. */
  lemma LowerIsNan(t: string)
    ensures Lower(t) == "nan" <==> SpellsNan(t)
  {
    var l := Lower(t);
    if |t| == 3 {
      assert l == [LowerChar(t[0]), LowerChar(t[1]), LowerChar(t[2])];
    }
    assert l == "nan" ==> |t| == 3;
  }

  /** `build_label`: the name alone, or the name and the stripped title on
      a second line when the title is a text that is not blank. The same
      label comes out of the `"\n".join` form and the f-string form. */
  function BuildLabel(name: string, title: Cell): (r: string)
    ensures |r| >= |name| && r[..|name|] == name
    ensures |r| > |name| <==> title.Some? && Strip(title.value) != ""
    ensures |r| > |name| ==> r[|name|] == '\n' && r[|name| + 1..] == Strip(title.value)
  {
    if title.Some? && Strip(title.value) != "" then name + "\n" + Strip(title.value)
    else name
  }

  /** The second line of a label is its title with no whitespace around
      it and never empty: the label is name and title, or the name alone. */
  lemma BuildLabelTitleLine(name: string, title: Cell)
    requires |BuildLabel(name, title)| > |name|
    ensures var t := BuildLabel(name, title)[|name| + 1..];
            t != "" && Strip(t) == t
  {
    StripByIdempotent(title.value, IsSpace);
  }

  /** The "Unique Identifier" column after `astype(str)`. */
  function IdColumn(rows: seq<Row>): (ids: seq<string>)
    ensures |ids| == |rows|
    ensures forall i :: 0 <= i < |rows| ==> ids[i] == AsStr(rows[i].id)
  {
    seq(|rows|, i requires 0 <= i < |rows| => AsStr(rows[i].id))
  }

  /** The keys of `{row["Unique Identifier"]: row for _, row in df.iterrows()}`
      in the dictionary's order: each id once, where it first occurs. */
  function IdKeys(rows: seq<Row>): (keys: seq<string>)
    ensures Seqs.Distinct(keys)
    ensures forall id :: id in keys <==> id in IdColumn(rows)
  {
    Seqs.Dedup(IdColumn(rows))
  }

  /** The row stored under `id` in that dictionary: the last row with it. */
  function RowById(rows: seq<Row>, id: string): (r: Row)
    requires id in IdColumn(rows)
    ensures AsStr(r.id) == id
    ensures exists k :: 0 <= k < |rows| && rows[k] == r
                        && forall j :: k < j < |rows| ==> AsStr(rows[j].id) != id
  {
    rows[Seqs.LastIndexOf(IdColumn(rows), id)]
  }

  /** Looking an id up after one more row: that row when it has the id,
      the earlier answer otherwise. */
  lemma RowByIdSnoc(df: seq<Row>, id: string)
    requires df != [] && id in IdColumn(df)
    ensures var init := df[..|df| - 1];
            var last := df[|df| - 1];
            && (id != AsStr(last.id) ==> id in IdColumn(init))
            && RowById(df, id) == if id == AsStr(last.id) then last else RowById(init, id)
  {
    var init := df[..|df| - 1];
    assert IdColumn(df) == IdColumn(init) + [AsStr(df[|df| - 1].id)];
    assert IdColumn(df)[..|df| - 1] == IdColumn(init);
  }

  /** A dictionary filled from a row scan, keyed by id: its keys in
      insertion order and the row stored under each. */
  datatype RowDict = RowDict(keys: seq<string>, rows: map<string, Row>) {

    /** Every key once, and exactly the keys of the map. */
    ghost predicate Valid() {
      Seqs.Distinct(keys) && forall k :: k in rows <==> k in keys
    }
  }

  /** `{row["Unique Identifier"]: row for _, row in df.iterrows()}` over
      the `astype(str)` ids: each id once, in the order it first occurs,
      holding the last row with that id. */
  function RowsById(df: seq<Row>): (d: RowDict)
    ensures d.Valid()
    ensures d.keys == IdKeys(df)
    ensures forall id :: id in d.rows <==> id in IdColumn(df)
    ensures forall id :: id in d.rows ==> d.rows[id] == RowById(df, id)
  {
    RowDict(IdKeys(df), map id | id in IdColumn(df) :: RowById(df, id))
  }
}
