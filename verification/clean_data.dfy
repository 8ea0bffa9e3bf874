/** clean_data.py: the canonicaliser. It drops placeholder rows, trims
    names, keeps one row per name under that name's canonical id, decodes
    the encoded manager references into canonical ids and breaks
    self-references. Each pandas step is a function on the row sequence;
    `Canonicalize` runs them in the script's order. */
module CleanData {

  import opened Options
  import opened Strings
  import opened Seqs
  import opened Roster

  // ---------------------------------------------------------------------
  // Step 2: remove unfilled positions and ids with six or more digits
  // ---------------------------------------------------------------------

  /** The id text contains "unfilled" in any case or a run of six
      digits (`str.contains("unfilled", case=False)` or `\d{6,}`). */
  predicate IsPlaceholderId(id: string)
    ensures IsPlaceholderId(id) <==>
              || Occurs(Lower(id), "unfilled")
              || HasDigitRun(id, 6)
  {
    Contains(Lower(id), "unfilled") || ContainsDigitRun(id, 6)
  }

  /** A row is a placeholder by its id as `astype(str)` renders it. */
  predicate KeepRow(r: Row) {
    !IsPlaceholderId(AsStr(r.id))
  }

  /** The boolean mask of lines 18-21: the rows whose id is no placeholder,
      in their order. */
  function DropPlaceholders(df: seq<Row>): (r: seq<Row>)
    ensures |r| <= |df|
    ensures forall x :: x in r <==> x in df && !IsPlaceholderId(AsStr(x.id))
  {
    Filter(df, KeepRow)
  }

  /** The mask keeps the survivors in their original order: what survives
      of an earlier block of rows precedes what survives of a later one. */
  lemma DropPlaceholdersKeepsOrder(a: seq<Row>, b: seq<Row>)
    ensures DropPlaceholders(a + b) == DropPlaceholders(a) + DropPlaceholders(b)
  {
    FilterAppend(a, b, KeepRow);
  }

  // ---------------------------------------------------------------------
  // Step 3: standardise the name field
  // ---------------------------------------------------------------------

  /** `df["Name"] = df["Name"].astype(str).str.strip()`. */
  function TrimNames(df: seq<Row>): (r: seq<Row>)
    ensures |r| == |df|
    ensures forall i :: 0 <= i < |df| ==>
              && r[i].(name := df[i].name) == df[i]
              && r[i].name == Some(Strip(AsStr(df[i].name)))
              && Strip(r[i].name.value) == r[i].name.value
  {
    forall i | 0 <= i < |df| ensures Strip(Strip(AsStr(df[i].name))) == Strip(AsStr(df[i].name)) {
      StripByIdempotent(AsStr(df[i].name), IsSpace);
    }
    seq(|df|, i requires 0 <= i < |df| => df[i].(name := Some(Strip(AsStr(df[i].name)))))
  }

  /** Every name is present and has no surrounding whitespace. */
  ghost predicate NamesTrimmed(df: seq<Row>) {
    forall i :: 0 <= i < |df| ==> df[i].name.Some? && Strip(df[i].name.value) == df[i].name.value
  }

  // ---------------------------------------------------------------------
  // Step 4: the canonical id of each name
  // ---------------------------------------------------------------------

  /** The "Name" column. */
  function NameCol(df: seq<Row>): (r: seq<Cell>)
    ensures |r| == |df|
    ensures forall i :: 0 <= i < |df| ==> r[i] == df[i].name
  {
    seq(|df|, i requires 0 <= i < |df| => df[i].name)
  }

  /** The groups of `groupby("Name")`: the names present in the frame. */
  function Names(df: seq<Row>): set<string> {
    set i | 0 <= i < |df| && df[i].name.Some? :: df[i].name.value
  }

  /** `groupby(...)["Unique Identifier"].first()` for the group `n`: the
      first id of that group that is not missing, or missing when all are. */
  function FirstId(df: seq<Row>, n: string): (r: Cell)
    ensures r.Some? ==> exists k :: 0 <= k < |df| && df[k].name == Some(n) && df[k].id == r
    ensures r.None? <==> forall k :: 0 <= k < |df| && df[k].name == Some(n) ==> df[k].id.None?
  {
    if df == [] then None
    else if df[0].name == Some(n) && df[0].id.Some? then df[0].id
    else
      var r := FirstId(df[1..], n);
      assert forall k :: 1 <= k < |df| ==> df[k] == df[1..][k - 1];
      r
  }

  /** `name_to_canonical_id` (line 34). */
  function NameToCanonicalId(df: seq<Row>): (m: map<string, Cell>)
    ensures m.Keys == Names(df)
  {
    map n | n in Names(df) :: FirstId(df, n)
  }

  /** Row `k` is the first row named `n` whose id is present. */
  ghost predicate FirstPresentIdAt(df: seq<Row>, n: string, k: int) {
    && 0 <= k < |df| && df[k].name == Some(n) && df[k].id.Some?
    && forall j :: 0 <= j < k ==> !(df[j].name == Some(n) && df[j].id.Some?)
  }

  /** The canonical id of a name is the id of its first row that has one. */
  lemma {:induction false} CanonicalIdIsFirstPresent(df: seq<Row>, n: string, k: int)
    requires FirstPresentIdAt(df, n, k)
    ensures n in NameToCanonicalId(df) && NameToCanonicalId(df)[n] == df[k].id
  {
    assert n in Names(df);
    FirstIdAt(df, n, k);
  }

  lemma {:induction false} FirstIdAt(df: seq<Row>, n: string, k: int)
    requires FirstPresentIdAt(df, n, k)
    ensures FirstId(df, n) == df[k].id
    decreases k
  {
    if k > 0 {
      assert FirstPresentIdAt(df[1..], n, k - 1);
      FirstIdAt(df[1..], n, k - 1);
    }
  }

  /** A name none of whose rows has an id gets a missing canonical id. */
  lemma CanonicalIdMissing(df: seq<Row>, n: string)
    requires n in Names(df)
    requires forall k :: 0 <= k < |df| && df[k].name == Some(n) ==> df[k].id.None?
    ensures NameToCanonicalId(df)[n].None?
  {
  }

  // ---------------------------------------------------------------------
  // Step 5: one row per person
  // ---------------------------------------------------------------------

  /** Row `k` is the first row carrying its name. */
  predicate FirstOfItsName(df: seq<Row>, k: int) {
    0 <= k < |df| && forall j :: 0 <= j < k ==> df[j].name != df[k].name
  }

  /** The positions from `k` on of the rows that are first of their name,
      in increasing order. */
  function FirstRowIndices(df: seq<Row>, k: nat): (ks: seq<int>)
    ensures |ks| <= |df| - k || (k > |df| && ks == [])
    ensures forall i :: 0 <= i < |ks| ==> k <= ks[i] < |df|
    ensures forall x :: x in ks <==> k <= x && FirstOfItsName(df, x)
    ensures forall i, j :: 0 <= i < j < |ks| ==> ks[i] < ks[j]
    decreases |df| - k
  {
    if k >= |df| then []
    else (if FirstOfItsName(df, k) then [k] else []) + FirstRowIndices(df, k + 1)
  }

  /** The first row of a name is where the name column first shows it. */
  lemma FirstOfItsNameIff(df: seq<Row>, k: int)
    requires 0 <= k < |df|
    ensures FirstOfItsName(df, k) <==> FirstIndexOf(NameCol(df), df[k].name) == k
  {
  }

  /** `drop_duplicates(subset=["Name"], keep="first")`: the first row of
      each name, in row order. */
  function DropDuplicateNames(df: seq<Row>): (r: seq<Row>)
    ensures |r| <= |df|
    ensures forall x :: x in NameCol(r) <==> x in NameCol(df)
    ensures Distinct(NameCol(r))
    ensures forall i :: 0 <= i < |r| ==>
              r[i].name in NameCol(df) && r[i] == df[FirstIndexOf(NameCol(df), r[i].name)]
    ensures forall i, j :: 0 <= i < j < |r| ==>
              FirstIndexOf(NameCol(df), r[i].name) < FirstIndexOf(NameCol(df), r[j].name)
  {
    var ks := FirstRowIndices(df, 0);
    var r := seq(|ks|, i requires 0 <= i < |ks| => df[ks[i]]);
    DropDuplicateNamesShape(df, ks, r);
    r
  }

  lemma DropDuplicateNamesShape(df: seq<Row>, ks: seq<int>, r: seq<Row>)
    requires ks == FirstRowIndices(df, 0)
    requires |r| == |ks| && forall i :: 0 <= i < |ks| ==> r[i] == df[ks[i]]
    ensures forall x :: x in NameCol(r) <==> x in NameCol(df)
    ensures Distinct(NameCol(r))
    ensures forall i :: 0 <= i < |r| ==>
              r[i].name in NameCol(df) && r[i] == df[FirstIndexOf(NameCol(df), r[i].name)]
    ensures forall i, j :: 0 <= i < j < |r| ==>
              FirstIndexOf(NameCol(df), r[i].name) < FirstIndexOf(NameCol(df), r[j].name)
  {
    forall i | 0 <= i < |r|
      ensures r[i].name in NameCol(df) && FirstIndexOf(NameCol(df), r[i].name) == ks[i]
    {
      assert ks[i] in ks;
      assert NameCol(df)[ks[i]] == r[i].name;
      FirstOfItsNameIff(df, ks[i]);
    }
    forall x | x in NameCol(df) ensures x in NameCol(r) {
      var k := FirstIndexOf(NameCol(df), x);
      FirstOfItsNameIff(df, k);
      var i :| 0 <= i < |ks| && ks[i] == k;
      assert NameCol(r)[i] == x;
    }
  }

  /** `df_unique["Unique Identifier"] = df_unique["Name"].map(name_to_canonical_id)`
      (line 42); a name the mapping lacks maps to a missing value. */
  function RewriteIds(df: seq<Row>, m: map<string, Cell>): (r: seq<Row>)
    ensures |r| == |df|
    ensures forall i :: 0 <= i < |df| ==>
              && r[i].(id := df[i].id) == df[i]
              && r[i].id == (if df[i].name.Some? && df[i].name.value in m then m[df[i].name.value] else None)
  {
    seq(|df|, i requires 0 <= i < |df| =>
      df[i].(id := if df[i].name.Some? && df[i].name.value in m then m[df[i].name.value] else None))
  }

  /** The rewrite of line 42 keeps the id of a kept row whenever that id is
      present (the kept row is the first of its name); a kept row with a
      missing id takes the first present id of its name instead. */
  lemma RewriteIdsKeepsPresentIds(df: seq<Row>, i: int)
    requires NamesTrimmed(df)
    requires 0 <= i < |DropDuplicateNames(df)|
    ensures var u := DropDuplicateNames(df);
            var r := RewriteIds(u, NameToCanonicalId(df));
            && (u[i].id.Some? ==> r[i].id == u[i].id)
            && (u[i].id.None? ==> r[i].id == FirstId(df, u[i].name.value))
  {
    var u := DropDuplicateNames(df);
    var k := FirstIndexOf(NameCol(df), u[i].name);
    var n := u[i].name.value;
    assert df[k] == u[i];
    assert n in Names(df);
    if u[i].id.Some? {
      assert FirstPresentIdAt(df, n, k);
      CanonicalIdIsFirstPresent(df, n, k);
    }
  }

  // ---------------------------------------------------------------------
  // Step 6: decode manager references into canonical ids
  // ---------------------------------------------------------------------

  /** `extract_name_from_id`: the text after the first underscore, with
      the remaining underscores read as spaces. */
  function ExtractNameFromId(uid: Cell): (r: Option<string>)
    ensures uid.None? ==> r.None?
    ensures uid.Some? ==> (r.None? <==> '_' !in uid.value)
    ensures r.Some? ==> '_' !in r.value
    ensures r.Some? ==> exists i :: 0 <= i < |uid.value| && uid.value[i] == '_' && '_' !in uid.value[..i]
                                   && r.value == ReplaceChar(uid.value[i + 1..], '_', ' ')
  {
    if uid.None? then None
    else
      match AfterFirst(uid.value, '_')
      case None => None
      case Some(name) => Some(ReplaceChar(name, '_', ' '))
  }

  /** The encoding the manager references use: a prefix without
      underscores, an underscore, then the name with its spaces written as
      underscores. */
  function EncodeReference(prefix: string, name: string): string {
    prefix + "_" + ReplaceChar(name, ' ', '_')
  }

  /** Decoding an encoded reference gives back the name, as long as neither
      the prefix nor the name holds an underscore. */
  lemma ExtractNameRoundTrip(prefix: string, name: string)
    requires '_' !in prefix && '_' !in name
    ensures ExtractNameFromId(Some(EncodeReference(prefix, name))) == Some(name)
  {
    var rest := ReplaceChar(name, ' ', '_');
    AfterPrefix(prefix, rest);
    SpacesBack(name);
  }

  /** The text after the first underscore of `prefix + "_" + rest`, for a
      prefix without one, is `rest`. */
  lemma AfterPrefix(prefix: string, rest: string)
    requires '_' !in prefix
    ensures AfterFirst(prefix + "_" + rest, '_') == Some(rest)
  {
    var e := prefix + "_" + rest;
    var k := FirstIndexOf(e, '_');
    assert e[|prefix|] == '_';
    assert forall j :: 0 <= j < |prefix| ==> e[j] == prefix[j];
    assert k == |prefix|;
    assert e[k + 1..] == rest;
  }

  /** Writing spaces as underscores and reading them back restores a name
      without underscores. */
  lemma SpacesBack(name: string)
    requires '_' !in name
    ensures ReplaceChar(ReplaceChar(name, ' ', '_'), '_', ' ') == name
  {
    var r := ReplaceChar(ReplaceChar(name, ' ', '_'), '_', ' ');
    forall i | 0 <= i < |name| ensures r[i] == name[i] {
      assert name[i] != '_';
    }
  }

  /** `normalize_reports_to`: the canonical id of the name the reference
      encodes, or None when the cell is empty, holds no underscore or names
      nobody known. */
  function NormalizeReportsTo(uid: Cell, m: map<string, Cell>): (r: Cell)
    ensures r.Some? ==> r in m.Values
    ensures r.Some? ==> ExtractNameFromId(uid).Some? && ExtractNameFromId(uid).value in m
  {
    if uid.None? then None
    else
      var name := ExtractNameFromId(uid);
      if name.Some? && name.value in m then m[name.value] else None
  }

  /** A reference encoding a known name resolves to that name's canonical
      id. */
  lemma NormalizeEncodedReference(prefix: string, name: string, m: map<string, Cell>)
    requires '_' !in prefix && '_' !in name && name in m
    ensures NormalizeReportsTo(Some(EncodeReference(prefix, name)), m) == m[name]
  {
    ExtractNameRoundTrip(prefix, name);
  }

  /** `df_unique["Reports To"].apply(normalize_reports_to)` (line 66). */
  function NormalizeColumn(df: seq<Row>, m: map<string, Cell>): (r: seq<Row>)
    ensures |r| == |df|
    ensures forall i :: 0 <= i < |df| ==>
              && r[i].(reportsTo := df[i].reportsTo) == df[i]
              && r[i].reportsTo == NormalizeReportsTo(df[i].reportsTo, m)
  {
    seq(|df|, i requires 0 <= i < |df| => df[i].(reportsTo := NormalizeReportsTo(df[i].reportsTo, m)))
  }

  // ---------------------------------------------------------------------
  // Step 7: remove self-references
  // ---------------------------------------------------------------------

  /** The masked assignment of line 71. */
  function BreakSelfLoops(df: seq<Row>): (r: seq<Row>)
    ensures |r| == |df|
    ensures forall i :: 0 <= i < |df| ==>
              && r[i].(reportsTo := df[i].reportsTo) == df[i]
              && (r[i].reportsTo.Some? ==> r[i].reportsTo != r[i].id)
              && (r[i].reportsTo != df[i].reportsTo ==> df[i].reportsTo == df[i].id && r[i].reportsTo.None?)
  {
    seq(|df|, i requires 0 <= i < |df| =>
      if df[i].reportsTo.Some? && df[i].reportsTo == df[i].id then df[i].(reportsTo := None) else df[i])
  }

  // ---------------------------------------------------------------------
  // The whole script
  // ---------------------------------------------------------------------

  /** `out` keeps one row per name of `df`: names trimmed and pairwise
      distinct, the same names as `df`, each row carrying its name's
      canonical id and the title and organisation of the name's first row. */
  ghost predicate OneRowPerNameOf(df: seq<Row>, out: seq<Row>) {
    && |out| <= |df|
    && NamesTrimmed(out)
    && Distinct(NameCol(out))
    && (forall x :: x in NameCol(out) <==> x in NameCol(df))
    && (forall i :: 0 <= i < |out| ==>
          && out[i].name in NameCol(df)
          && out[i].name.Some? && out[i].name.value in NameToCanonicalId(df)
          && out[i].id == NameToCanonicalId(df)[out[i].name.value]
          && var first := df[FirstIndexOf(NameCol(df), out[i].name)];
             out[i].title == first.title && out[i].org == first.org)
  }

  /** The kept rows come in the order in which their names first occur. */
  ghost predicate InNameOrder(df: seq<Row>, out: seq<Row>) {
    forall i, j :: 0 <= i < j < |out| && out[i].name in NameCol(df) && out[j].name in NameCol(df) ==>
      FirstIndexOf(NameCol(df), out[i].name) < FirstIndexOf(NameCol(df), out[j].name)
  }

  /** Each row's manager is the reference of its name's first row decoded
      to a canonical id, except that a manager equal to the row's own id
      is blanked. */
  ghost predicate ManagersDecoded(df: seq<Row>, out: seq<Row>) {
    forall i :: 0 <= i < |out| && out[i].name in NameCol(df) ==>
      var v := NormalizeReportsTo(df[FirstIndexOf(NameCol(df), out[i].name)].reportsTo, NameToCanonicalId(df));
      out[i].reportsTo == if v == out[i].id then None else v
  }

  /** A row whose name's first row reports to `prefix_First_Last`, a
      known name other than the row's own person by id, reports to that
      name's canonical id in the output. */
  lemma EncodedManagerDecoded(df: seq<Row>, out: seq<Row>, i: int, prefix: string, boss: string)
    requires ManagersDecoded(df, out) && 0 <= i < |out| && out[i].name in NameCol(df)
    requires '_' !in prefix && '_' !in boss && boss in NameToCanonicalId(df)
    requires df[FirstIndexOf(NameCol(df), out[i].name)].reportsTo == Some(EncodeReference(prefix, boss))
    requires NameToCanonicalId(df)[boss] != out[i].id
    ensures out[i].reportsTo == NameToCanonicalId(df)[boss]
  {
    NormalizeEncodedReference(prefix, boss, NameToCanonicalId(df));
  }

  /** No row reports to itself. */
  ghost predicate NoSelfReports(out: seq<Row>) {
    forall i :: 0 <= i < |out| && out[i].reportsTo.Some? ==> out[i].reportsTo != out[i].id
  }

  /** Every manager reference is the id of some row. */
  ghost predicate ReferencesKnown(out: seq<Row>) {
    forall i :: 0 <= i < |out| && out[i].reportsTo.Some? ==>
      exists j :: 0 <= j < |out| && out[j].id == out[i].reportsTo
  }

  /** Steps 2 to 7 in order, each reassigning the frame (or a column of
      it) as the script does. */
  method Canonicalize(raw: seq<Row>) returns (out: seq<Row>)
    ensures |out| <= |raw|
    ensures OneRowPerNameOf(TrimNames(DropPlaceholders(raw)), out)
    ensures InNameOrder(TrimNames(DropPlaceholders(raw)), out)
    ensures ManagersDecoded(TrimNames(DropPlaceholders(raw)), out)
    ensures NoSelfReports(out)
    ensures ReferencesKnown(out)
  {
    var df := DropPlaceholders(raw);
    df := TrimNames(df);
    var nameToCanonicalId := NameToCanonicalId(df);
    var dfUnique := DropDuplicateNames(df);
    dfUnique := RewriteIds(dfUnique, nameToCanonicalId);
    dfUnique := NormalizeColumn(dfUnique, nameToCanonicalId);
    dfUnique := BreakSelfLoops(dfUnique);
    out := dfUnique;
    OneRowPerName(df, out);
    ManagersAndOrder(df, out);
    ReferencesResolve(df, out);
  }

  /** After steps 5 to 7 the rows keep the order of their names' first
      rows, and each manager is the first row's reference, decoded, unless
      it names the row itself. */
  lemma ManagersAndOrder(df: seq<Row>, out: seq<Row>)
    requires var m := NameToCanonicalId(df);
      out == BreakSelfLoops(NormalizeColumn(RewriteIds(DropDuplicateNames(df), m), m))
    ensures InNameOrder(df, out)
    ensures ManagersDecoded(df, out)
  {
    var m := NameToCanonicalId(df);
    var kept := DropDuplicateNames(df);
    var rewritten := RewriteIds(kept, m);
    var normalized := NormalizeColumn(rewritten, m);
    assert forall i :: 0 <= i < |out| ==> out[i].name == kept[i].name;
    forall i | 0 <= i < |out| && out[i].name in NameCol(df)
      ensures var v := NormalizeReportsTo(df[FirstIndexOf(NameCol(df), out[i].name)].reportsTo, m);
              out[i].reportsTo == if v == out[i].id then None else v
    {
      assert kept[i] == df[FirstIndexOf(NameCol(df), kept[i].name)];
      assert rewritten[i].reportsTo == kept[i].reportsTo;
      assert normalized[i].id == out[i].id;
    }
  }

  /** After steps 5 to 7 each name of the trimmed frame has exactly one
      row: its first row, carrying the name's canonical id. */
  lemma OneRowPerName(df: seq<Row>, out: seq<Row>)
    requires NamesTrimmed(df)
    requires var m := NameToCanonicalId(df);
      out == BreakSelfLoops(NormalizeColumn(RewriteIds(DropDuplicateNames(df), m), m))
    ensures OneRowPerNameOf(df, out)
  {
    var m := NameToCanonicalId(df);
    var kept := DropDuplicateNames(df);
    assert NameCol(out) == NameCol(kept);
    forall i | 0 <= i < |out|
      ensures var first := df[FirstIndexOf(NameCol(df), out[i].name)];
              && out[i].name.Some? && Strip(out[i].name.value) == out[i].name.value
              && out[i].id == m[out[i].name.value]
              && out[i].title == first.title && out[i].org == first.org
    {
      var k := FirstIndexOf(NameCol(df), kept[i].name);
      assert kept[i] == df[k];
      assert kept[i].name.value in Names(df);
    }
  }

  /** Every manager reference left after step 7 is the id of a row of the
      output. */
  lemma ReferencesResolve(df: seq<Row>, out: seq<Row>)
    requires NamesTrimmed(df)
    requires var m := NameToCanonicalId(df);
      out == BreakSelfLoops(NormalizeColumn(RewriteIds(DropDuplicateNames(df), m), m))
    ensures ReferencesKnown(out)
  {
    forall i | 0 <= i < |out| && out[i].reportsTo.Some?
      ensures exists j :: 0 <= j < |out| && out[j].id == out[i].reportsTo
    {
      ReferenceResolves(df, out, i);
    }
  }

  /** A manager reference left after step 7 is the canonical id of some
      name, and the kept row of that name carries exactly that id. */
  lemma ReferenceResolves(df: seq<Row>, out: seq<Row>, i: int)
    requires NamesTrimmed(df)
    requires var m := NameToCanonicalId(df);
      out == BreakSelfLoops(NormalizeColumn(RewriteIds(DropDuplicateNames(df), m), m))
    requires 0 <= i < |out| && out[i].reportsTo.Some?
    ensures exists j :: 0 <= j < |out| && out[j].id == out[i].reportsTo
  {
    var m := NameToCanonicalId(df);
    var kept := DropDuplicateNames(df);
    var rewritten := RewriteIds(kept, m);
    var normalized := NormalizeColumn(rewritten, m);
    var v := out[i].reportsTo;
    assert normalized[i].reportsTo == v;
    var n := ExtractNameFromId(rewritten[i].reportsTo).value;
    assert n in m && m[n] == v;
    var k :| 0 <= k < |df| && df[k].name == Some(n) && df[k].id == v;
    assert NameCol(df)[k] == Some(n);
    assert Some(n) in NameCol(kept);
    var j :| 0 <= j < |kept| && NameCol(kept)[j] == Some(n);
    assert rewritten[j].id == v;
    assert out[j].id == v;
  }

  /** Two people, Ann and Bob, whose rows share the id "P1_A". */
  const SharedIdRows: seq<Row> := [Row(Some("P1_A"), Some("Ann"), None, None, None),
                                   Row(Some("P1_A"), Some("Bob"), None, None, None)]

  /** Canonical ids need not be unique: two people whose rows share an id
      keep it both, so the output holds that id twice. */
  lemma SharedIdSurvives()
    ensures var out := RewriteIds(DropDuplicateNames(SharedIdRows), NameToCanonicalId(SharedIdRows));
            |out| == 2 && out[0].id == out[1].id == Some("P1_A")
  {
    SharedIdKept();
    SharedIdCanonical();
  }

  lemma SharedIdKept()
    ensures NameCol(DropDuplicateNames(SharedIdRows)) == [Some("Ann"), Some("Bob")]
  {
    var df := SharedIdRows;
    assert NameCol(df) == [Some("Ann"), Some("Bob")];
    assert NameCol(df[..1]) == [Some("Ann")];
    assert DropDuplicateNames(df[..1]) == [df[0]];
  }

  lemma SharedIdCanonical()
    ensures var m := NameToCanonicalId(SharedIdRows);
            "Ann" in m && "Bob" in m && m["Ann"] == m["Bob"] == Some("P1_A")
  {
    var df := SharedIdRows;
    assert FirstPresentIdAt(df, "Ann", 0);
    CanonicalIdIsFirstPresent(df, "Ann", 0);
    assert FirstPresentIdAt(df, "Bob", 1);
    CanonicalIdIsFirstPresent(df, "Bob", 1);
  }
}
