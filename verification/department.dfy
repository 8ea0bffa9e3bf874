/** org_chart/department.py: the department-name helpers, the roster's
    manager-to-reports map and the stack walk that collects one manager's
    whole team. */
module Department {

  import opened Options
  import opened Strings
  import opened Roster
  import opened Reports
  import Seqs

  /** `extract_dept_name`: None for a missing cell; otherwise the text
      before the first '(' of the stripped cell, stripped again. */
  function ExtractDeptName(org: Cell): (r: Option<string>)
    ensures r.None? <==> org.None?
  {
    if org.None? then None
    else
      var s := Strip(org.value);
      if '(' in s then Some(Strip(BeforeFirst(s, '('))) else Some(s)
  }

  /** The department name is the stripped text before the first '(' of
      the stripped cell; it holds no '(' and no surrounding whitespace. */
  lemma ExtractDeptNameCut(org: Cell)
    requires org.Some?
    ensures var r := ExtractDeptName(org).value;
            && '(' !in r && Strip(r) == r
            && exists k :: FirstCut(Strip(org.value), '(', k) && r == Strip(Strip(org.value)[..k])
  {
    var s := Strip(org.value);
    var b := BeforeFirst(s, '(');
    assert FirstCut(s, '(', |b|) && b == s[..|b|];
    CutIsWhole(s, b);
    StripByIdempotent(org.value, IsSpace);
    assert ExtractDeptName(org).value == Strip(b);
    StripByIdempotent(b, IsSpace);
    StripInside(b);
  }

  lemma CutIsWhole(s: string, b: string)
    requires b == BeforeFirst(s, '(')
    ensures '(' !in b
    ensures '(' !in s ==> b == s
  {
    assert FirstCut(s, '(', |b|) && b == s[..|b|];
  }

  /** The stripped text is a piece of the text. */
  lemma StripInside(s: string)
    ensures forall ch :: ch in Strip(s) ==> ch in s
  {
    assert Strip(s) == s[StripStart(s, IsSpace)..StripEnd(s, IsSpace)];
  }

  /** A department name goes through `extract_dept_name` unchanged. */
  lemma ExtractDeptNameIdempotent(org: Cell)
    requires org.Some?
    ensures ExtractDeptName(ExtractDeptName(org)) == ExtractDeptName(org)
  {
    ExtractDeptNameCut(org);
    var r := ExtractDeptName(org).value;
    assert '(' !in Strip(r);
  }

  /** `safe_filename`: "Unknown" stands for None and the empty text; the
      result is a non-empty text of letters, digits and single
      underscores, with no underscore at either end, keeping every letter
      and digit of the name in order. */
  function SafeFilename(s: Option<string>): (r: string)
    ensures IsSlug(r)
    ensures s.Some? && Alnums(s.value) != [] ==> Alnums(r) == Alnums(s.value)
    ensures s.Some? && Alnums(s.value) != [] ==> r == Join(Words(s.value))
    ensures s.None? || Alnums(s.value) == [] ==> r == "Unknown"
  {
    assert IsSlug("Unknown");
    SlugOfWord("Unknown");
    var t := if s.None? || s.value == "" then "Unknown" else s.value;
    Slug(t, "Unknown")
  }

  /** `get_subtree_nodes`: pops the stack, skips an id already seen,
      otherwise marks it seen and pushes its reports that are not yet
      seen. The result is the least closed set holding `root` (so it holds
      `root` even when no row has that id), and the ghost `expanded`
      lists the ids in the order they were expanded, each once. */
  method SubtreeNodes(m: map<string, seq<string>>, root: string)
    returns (seen: set<string>, ghost expanded: seq<string>)
    ensures LeastClosed(m, root, seen)
    ensures Seqs.Distinct(expanded) && forall x :: x in expanded <==> x in seen
  {
    ghost var u := Universe(m, root);
    seen := {};
    expanded := [];
    var stack := [root];
    while stack != []
      invariant WalkInv(m, root, u, seen, stack, expanded)
      decreases |u - seen|, |stack|
    {
      var current := stack[|stack| - 1];
      ghost var full := stack;
      stack := stack[..|stack| - 1];
      if current in seen {
        WalkSkip(m, root, u, seen, full, expanded);
      } else {
        stack := PushUnseen(stack, Get(m, current), seen + {current});
        assert forall y :: y in full[..|full| - 1] ==> y in stack;
        WalkVisit(m, root, u, seen, full, expanded, stack);
        seen := seen + {current};
        expanded := expanded + [current];
      }
    }
    WalkDone(m, root, u, seen, expanded);
  }

  /** The test of the inner loop: not seen yet. */
  function Unseen(seen: set<string>): string -> bool {
    (c: string) => c !in seen
  }

  /** The inner loop of `get_subtree_nodes`: each report not yet seen is
      pushed, in list order. */
  method PushUnseen(stack: seq<string>, reports: seq<string>, seen: set<string>)
    returns (out: seq<string>)
    ensures out == stack + Seqs.Filter(reports, Unseen(seen))
  {
    out := stack;
    var j := 0;
    while j < |reports|
      invariant 0 <= j <= |reports|
      invariant out == stack + Seqs.Filter(reports[..j], Unseen(seen))
    {
      PushStep(stack, reports, j, seen);
      if reports[j] !in seen {
        out := out + [reports[j]];
      }
      j := j + 1;
    }
    assert reports[..j] == reports;
  }

  /** One more report is pushed exactly when it is not seen yet. */
  lemma PushStep(stack: seq<string>, reports: seq<string>, j: int, seen: set<string>)
    requires 0 <= j < |reports|
    ensures stack + Seqs.Filter(reports[..j + 1], Unseen(seen)) ==
            (stack + Seqs.Filter(reports[..j], Unseen(seen))) + (if reports[j] !in seen then [reports[j]] else [])
  {
    Seqs.TakeSnoc(reports, j);
    Seqs.FilterSnoc(reports[..j], reports[j], Unseen(seen));
  }
}
