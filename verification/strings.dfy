/** The string operations the scripts rely on, written out character by
    character: `str.strip`, `str.rstrip`, `str.lower`, the `in` substring
    test, `str.replace`, `str.split(sep, 1)` and the regular expressions
    `\d{6,}` and `[^A-Za-z0-9]+`. */
module Strings {

  import Options
  import Seqs

  /** The characters Python's `str.strip()` removes (those for which
      `str.isspace()` holds). */
  predicate IsSpace(c: char) {
    c == ' ' || ('\U{9}' <= c <= '\U{D}') || ('\U{1C}' <= c <= '\U{1F}')
    || c == '\U{85}' || c == '\U{A0}' || c == '\U{1680}'
    || ('\U{2000}' <= c <= '\U{200A}') || c == '\U{2028}' || c == '\U{2029}'
    || c == '\U{202F}' || c == '\U{205F}' || c == '\U{3000}'
  }

  predicate IsUnderscore(c: char) {
    c == '_'
  }

  predicate IsDigit(c: char) {
    '0' <= c <= '9'
  }

  /** A character the class `[A-Za-z0-9]` matches. */
  predicate IsAlnum(c: char) {
    ('A' <= c <= 'Z') || ('a' <= c <= 'z') || IsDigit(c)
  }

  /** The first position from `i` on whose character `drop` keeps, or
      the end of `s`. */
  function SkipFrom(s: string, drop: char -> bool, i: nat): (k: nat)
    requires i <= |s|
    ensures i <= k <= |s|
    ensures forall j :: i <= j < k ==> drop(s[j])
    ensures k < |s| ==> !drop(s[k])
    decreases |s| - i
  {
    if i < |s| && drop(s[i]) then SkipFrom(s, drop, i + 1) else i
  }

  /** The end of `s[lo..e]` once the trailing characters `drop` holds
      for are cut off. */
  function CutBack(s: string, drop: char -> bool, lo: nat, e: nat): (k: nat)
    requires lo <= e <= |s|
    ensures lo <= k <= e
    ensures forall j :: k <= j < e ==> drop(s[j])
    ensures k > lo ==> !drop(s[k - 1])
    decreases e
  {
    if e > lo && drop(s[e - 1]) then CutBack(s, drop, lo, e - 1) else e
  }

  /** Where `s.strip(chars)` starts. */
  function StripStart(s: string, drop: char -> bool): nat
  {
    SkipFrom(s, drop, 0)
  }

  /** Where `s.strip(chars)` ends. */
  function StripEnd(s: string, drop: char -> bool): nat
  {
    CutBack(s, drop, StripStart(s, drop), |s|)
  }

  /** `s.strip(chars)`: the piece of `s` left once the leading and the
      trailing characters that satisfy `drop` are dropped; it neither
      starts nor ends with such a character. */
  function StripBy(s: string, drop: char -> bool): (r: string)
    ensures r == [] || (!drop(r[0]) && !drop(r[|r| - 1]))
  {
    s[StripStart(s, drop)..StripEnd(s, drop)]
  }

  /** `s.rstrip(chars)`. */
  function RStripBy(s: string, drop: char -> bool): (r: string)
    ensures r == [] || !drop(r[|r| - 1])
  {
    s[..CutBack(s, drop, 0, |s|)]
  }

  /** `s.strip()`. */
  function Strip(s: string): string {
    StripBy(s, IsSpace)
  }

  /** `s.rstrip()`. */
  function RStrip(s: string): string {
    RStripBy(s, IsSpace)
  }

  /** `s.strip()` is empty exactly when every character is whitespace. */
  lemma StripEmptyIff(s: string)
    ensures Strip(s) == "" <==> forall i :: 0 <= i < |s| ==> IsSpace(s[i])
  {
    var i := StripStart(s, IsSpace);
    if Strip(s) != "" {
      assert Strip(s)[0] == s[i];
    }
  }

  /** Every character is whitespace: `s.strip() == ""`, as `BlankIff`
      shows. */
  predicate Blank(s: string) {
    s == [] || (IsSpace(s[0]) && Blank(s[1..]))
  }

  lemma {:induction false} BlankAll(s: string)
    ensures Blank(s) <==> forall i :: 0 <= i < |s| ==> IsSpace(s[i])
  {
    if s != [] {
      BlankAll(s[1..]);
      assert forall i :: 1 <= i < |s| ==> s[i] == s[1..][i - 1];
    }
  }

  /** A text is blank exactly when stripping leaves nothing. */
  lemma BlankIff(s: string)
    ensures Blank(s) <==> Strip(s) == ""
  {
    BlankAll(s);
    StripEmptyIff(s);
  }

  /** Stripping twice strips nothing more. */
  lemma {:induction false} StripByIdempotent(s: string, drop: char -> bool)
    ensures StripBy(StripBy(s, drop), drop) == StripBy(s, drop)
  {
    var t := StripBy(s, drop);
    assert StripStart(t, drop) == 0;
    assert StripEnd(t, drop) == |t|;
  }

  function LowerChar(c: char): char {
    if 'A' <= c <= 'Z' then (c as int + 32) as char else c
  }

  /** `s.lower()` on the ASCII letters. */
  function Lower(s: string): (r: string)
    ensures |r| == |s|
    ensures forall i :: 0 <= i < |s| ==> r[i] == LowerChar(s[i])
  {
    if s == [] then [] else [LowerChar(s[0])] + Lower(s[1..])
  }

  /** `t` starts at position `i` of `s`. */
  ghost predicate OccursAt(s: string, t: string, i: int) {
    0 <= i <= |s| - |t| && s[i..i + |t|] == t
  }

  /** `t` occurs in `s` as a contiguous piece. */
  ghost predicate Occurs(s: string, t: string) {
    exists i :: OccursAt(s, t, i)
  }

  /** `t in s`. */
  function Contains(s: string, t: string): (r: bool)
    ensures r <==> Occurs(s, t)
    decreases |s|
  {
    if t <= s then
      assert OccursAt(s, t, 0);
      true
    else if s == [] then false
    else
      OccursInTail(s, t);
      Contains(s[1..], t)
  }

  /** Past the first position, the occurrences in `s` are those in its tail. */
  lemma OccursInTail(s: string, t: string)
    requires s != [] && !(t <= s)
    ensures (exists i :: OccursAt(s, t, i)) <==> exists i :: OccursAt(s[1..], t, i)
  {
    if i :| OccursAt(s, t, i) {
      assert i != 0 && s[1..][i - 1..i - 1 + |t|] == s[i..i + |t|];
      assert OccursAt(s[1..], t, i - 1);
    }
    if i :| OccursAt(s[1..], t, i) {
      assert s[1..][i..i + |t|] == s[i + 1..i + 1 + |t|];
      assert OccursAt(s, t, i + 1);
    }
  }

  /** `s.replace(a, b)` for one-character `a` and `b`. */
  function ReplaceChar(s: string, a: char, b: char): (r: string)
    ensures |r| == |s|
    ensures forall i :: 0 <= i < |s| ==> r[i] == if s[i] == a then b else s[i]
  {
    if s == [] then [] else [if s[0] == a then b else s[0]] + ReplaceChar(s[1..], a, b)
  }

  /** The text after the first `c` (`s.split(c, 1)[1]`), or None when `s`
      holds no `c` and the split yields a single part. */
  function AfterFirst(s: string, c: char): (r: Options.Option<string>)
    ensures r.None? <==> c !in s
    ensures r.Some? ==> exists i :: 0 <= i < |s| && s[i] == c && c !in s[..i] && r.value == s[i + 1..]
  {
    if c !in s then Options.None
    else
      var i := Seqs.FirstIndexOf(s, c);
      assert c !in s[..i];
      Options.Some(s[i + 1..])
  }

  /** The number of digits `s` starts with. */
  function LeadingDigits(s: string): (n: nat)
    ensures n <= |s|
    ensures forall j :: 0 <= j < n ==> IsDigit(s[j])
    ensures n < |s| ==> !IsDigit(s[n])
  {
    if s != [] && IsDigit(s[0]) then 1 + LeadingDigits(s[1..]) else 0
  }

  /** The `k` characters from position `i` on are all digits. */
  ghost predicate DigitsAt(s: string, i: int, k: nat) {
    0 <= i <= |s| - k && forall j :: i <= j < i + k ==> IsDigit(s[j])
  }

  /** The search `re.search(r"\d{k,}", s)` succeeds: some window of `k`
      consecutive characters holds only digits. */
  ghost predicate HasDigitRun(s: string, k: nat) {
    exists i :: DigitsAt(s, i, k)
  }

  /** The left-to-right scan a regular-expression engine runs for
      `\d{k,}`: `run` digits were seen right before `s`. */
  function ScanDigitRun(s: string, k: nat, run: nat): bool
    decreases |s|
  {
    if run >= k then true
    else if s == [] then false
    else if IsDigit(s[0]) then ScanDigitRun(s[1..], k, run + 1)
    else ScanDigitRun(s[1..], k, 0)
  }

  /** Whether `s` holds `k` consecutive digits. */
  function ContainsDigitRun(s: string, k: nat): (r: bool)
    requires k >= 1
    ensures r <==> HasDigitRun(s, k)
  {
    ScanDigitRunCorrect(s, k, 0);
    assert LeadingDigits(s) >= k ==> DigitsAt(s, 0, k);
    ScanDigitRun(s, k, 0)
  }

  /** A window at the front exists exactly when the leading digits are
      long enough; any other window is a window of the tail. */
  lemma HasDigitRunCons(s: string, k: nat)
    requires k >= 1 && s != []
    ensures HasDigitRun(s, k) <==> LeadingDigits(s) >= k || HasDigitRun(s[1..], k)
  {
    if HasDigitRun(s, k) {
      var i :| DigitsAt(s, i, k);
      if i != 0 {
        forall j | i - 1 <= j < i - 1 + k ensures IsDigit(s[1..][j]) {
          assert s[1..][j] == s[j + 1];
        }
        assert DigitsAt(s[1..], i - 1, k);
      }
    }
    if LeadingDigits(s) >= k {
      assert DigitsAt(s, 0, k);
    }
    if HasDigitRun(s[1..], k) {
      var i :| DigitsAt(s[1..], i, k);
      forall j | i + 1 <= j < i + 1 + k ensures IsDigit(s[j]) {
        assert s[j] == s[1..][j - 1];
      }
      assert DigitsAt(s, i + 1, k);
    }
  }

  lemma {:induction false} ScanDigitRunCorrect(s: string, k: nat, run: nat)
    requires k >= 1
    ensures ScanDigitRun(s, k, run) <==> HasDigitRun(s, k) || run + LeadingDigits(s) >= k
    decreases |s|
  {
    if run >= k {
    } else if s == [] {
    } else {
      HasDigitRunCons(s, k);
      if IsDigit(s[0]) {
        ScanDigitRunCorrect(s[1..], k, run + 1);
      } else {
        ScanDigitRunCorrect(s[1..], k, 0);
        if LeadingDigits(s[1..]) >= k {
          assert DigitsAt(s[1..], 0, k);
        }
      }
    }
  }

  /** Drops the leading characters outside `[A-Za-z0-9]`. */
  function DropNonAlnum(s: string): (r: string)
    ensures |r| <= |s| && r == s[|s| - |r|..]
    ensures r == [] || IsAlnum(r[0])
    ensures forall i :: 0 <= i < |s| - |r| ==> !IsAlnum(s[i])
    ensures forall c :: c in r ==> c in s
    decreases |s|
  {
    if s != [] && !IsAlnum(s[0]) then
      var r := DropNonAlnum(s[1..]);
      assert s[1..][|s| - 1 - |r|..] == s[|s| - |r|..];
      assert forall i :: 1 <= i < |s| - |r| ==> s[i] == s[1..][i - 1];
      r
    else s
  }

  /** `re.sub(r"[^A-Za-z0-9]+", "_", s)`: every maximal run of characters
      outside `[A-Za-z0-9]` becomes one underscore. */
  function CollapseNonAlnum(s: string): (r: string)
    ensures forall i :: 0 <= i < |r| ==> IsAlnum(r[i]) || r[i] == '_'
    ensures forall i :: 0 <= i < |r| - 1 ==> r[i] == '_' ==> IsAlnum(r[i + 1])
    ensures (forall c :: c in s ==> IsAlnum(c)) ==> r == s
    ensures r == [] <==> s == []
    ensures s != [] && IsAlnum(s[0]) ==> r[0] == s[0]
    decreases |s|
  {
    if s == [] then []
    else if IsAlnum(s[0]) then
      var t := CollapseNonAlnum(s[1..]);
      assert forall c :: c in s[1..] ==> c in s;
      [s[0]] + t
    else
      var rest := DropNonAlnum(s[1..]);
      var t := CollapseNonAlnum(rest);
      assert rest != [] ==> t != [] && t[0] == rest[0];
      "_" + t
  }

  /** The characters of `s` that `[A-Za-z0-9]` matches, in order. */
  function Alnums(s: string): string {
    Seqs.Filter(s, IsAlnum)
  }

  lemma AlnumsAppend(a: string, b: string)
    ensures Alnums(a + b) == Alnums(a) + Alnums(b)
  {
    Seqs.FilterAppend(a, b, IsAlnum);
  }

  lemma {:induction false} AlnumsNone(s: string)
    requires forall i :: 0 <= i < |s| ==> !IsAlnum(s[i])
    ensures Alnums(s) == []
  {
    if s != [] {
      AlnumsNone(s[1..]);
    }
  }

  lemma {:induction false} AlnumsDropNonAlnum(s: string)
    ensures Alnums(DropNonAlnum(s)) == Alnums(s)
  {
    if s != [] && !IsAlnum(s[0]) {
      AlnumsDropNonAlnum(s[1..]);
    }
  }

  /** Collapsing the runs outside `[A-Za-z0-9]` keeps every alphanumeric
      character, in order. */
  lemma {:induction false} AlnumsCollapse(s: string)
    ensures Alnums(CollapseNonAlnum(s)) == Alnums(s)
    decreases |s|
  {
    if s == [] {
    } else if IsAlnum(s[0]) {
      var t := CollapseNonAlnum(s[1..]);
      AlnumsCollapse(s[1..]);
      assert ([s[0]] + t)[1..] == t;
    } else {
      var rest := DropNonAlnum(s[1..]);
      var t := CollapseNonAlnum(rest);
      AlnumsCollapse(rest);
      AlnumsDropNonAlnum(s[1..]);
      assert ("_" + t)[1..] == t;
    }
  }

  /** Stripping underscores from both ends keeps every alphanumeric
      character, in order. */
  lemma AlnumsStripUnderscores(s: string)
    ensures Alnums(StripBy(s, IsUnderscore)) == Alnums(s)
  {
    var r := StripBy(s, IsUnderscore);
    AlnumsOfPiece(s, r, StripStart(s, IsUnderscore), StripEnd(s, IsUnderscore));
  }

  /** Cutting off ends with no alphanumeric character keeps them all. */
  lemma AlnumsOfPiece(s: string, r: string, i: int, e: int)
    requires 0 <= i <= e <= |s| && r == s[i..e]
    requires forall j :: 0 <= j < i ==> !IsAlnum(s[j])
    requires forall j :: e <= j < |s| ==> !IsAlnum(s[j])
    ensures Alnums(s[i..e]) == Alnums(s)
  {
    var head, tail := s[..i], s[e..];
    assert s == head + (r + tail);
    AlnumsAppend(head, r + tail);
    AlnumsAppend(r, tail);
    AlnumsNone(head);
    AlnumsNone(tail);
  }

  /** `re.sub(r"[^A-Za-z0-9]+", "_", s).strip("_")`. */
  function Underscored(s: string): string {
    StripBy(CollapseNonAlnum(s), IsUnderscore)
  }

  /** Stripping underscores off a text of alphanumerics and single
      underscores leaves such a text, with an alphanumeric at each end. */
  lemma StripUnderscoresShape(c: string)
    requires forall i :: 0 <= i < |c| ==> IsAlnum(c[i]) || c[i] == '_'
    requires forall i :: 0 <= i < |c| - 1 ==> c[i] == '_' ==> IsAlnum(c[i + 1])
    ensures var t := StripBy(c, IsUnderscore);
            && (t != [] ==> IsAlnum(t[0]) && IsAlnum(t[|t| - 1]))
            && (forall i :: 0 <= i < |t| ==> IsAlnum(t[i]) || t[i] == '_')
            && (forall i :: 0 <= i < |t| - 1 ==> t[i] == '_' ==> t[i + 1] != '_')
  {
    var t := StripBy(c, IsUnderscore);
    var k, e := StripStart(c, IsUnderscore), StripEnd(c, IsUnderscore);
    PieceShape(c, k, e);
    if t != [] {
      assert t[0] in c[k..e] && t[|t| - 1] in c[k..e];
    }
  }

  /** A piece of a text of alphanumerics and single underscores is such a
      text. */
  lemma PieceShape(c: string, k: int, e: int)
    requires 0 <= k <= e <= |c|
    requires forall i :: 0 <= i < |c| ==> IsAlnum(c[i]) || c[i] == '_'
    requires forall i :: 0 <= i < |c| - 1 ==> c[i] == '_' ==> IsAlnum(c[i + 1])
    ensures var t := c[k..e];
            && (forall i :: 0 <= i < |t| ==> IsAlnum(t[i]) || t[i] == '_')
            && (forall i :: 0 <= i < |t| - 1 ==> t[i] == '_' ==> t[i + 1] != '_')
  {
    var t := c[k..e];
    forall i | 0 <= i < |t| - 1 && t[i] == '_'
      ensures t[i + 1] != '_'
    {
      assert c[k + i] == '_' && k + i < |c| - 1;
      assert IsAlnum(c[k + i + 1]);
    }
  }

  /** What `Underscored` leaves: the alphanumeric characters in order, one
      underscore in each gap between them, none at either end. */
  lemma UnderscoredShape(s: string)
    ensures var t := Underscored(s);
            && Alnums(t) == Alnums(s)
            && (t == [] <==> Alnums(s) == [])
            && (t != [] ==> t[0] != '_' && t[|t| - 1] != '_')
            && (forall i :: 0 <= i < |t| ==> IsAlnum(t[i]) || t[i] == '_')
            && (forall i :: 0 <= i < |t| - 1 ==> t[i] == '_' ==> t[i + 1] != '_')
  {
    var c := CollapseNonAlnum(s);
    var t := StripBy(c, IsUnderscore);
    AlnumsCollapse(s);
    AlnumsStripUnderscores(c);
    StripUnderscoresShape(c);
    if t != [] {
      assert Alnums(t) != [];
    }
  }

  /** A safe identifier: non-empty, letters, digits and single
      underscores only, no underscore at either end. */
  predicate IsSlug(r: string) {
    && r != [] && r[0] != '_' && r[|r| - 1] != '_'
    && (forall i :: 0 <= i < |r| ==> IsAlnum(r[i]) || r[i] == '_')
    && (forall i :: 0 <= i < |r| - 1 ==> r[i] == '_' ==> r[i + 1] != '_')
  }

  /** `re.sub(r"[^A-Za-z0-9]+", "_", s).strip("_") or fallback`: the
      alphanumeric characters of `s` in order, each gap between them one
      underscore, nothing at either end; `fallback` when `s` has no
      alphanumeric character at all. */
  function Slug(s: string, fallback: string): (r: string)
    ensures Alnums(s) == [] ==> r == fallback
    ensures Alnums(s) != [] ==> IsSlug(r) && Alnums(r) == Alnums(s) && r == Join(Words(s))
    ensures IsSlug(fallback) ==> IsSlug(r)
  {
    UnderscoredShape(s);
    UnderscoredWords(s);
    var t := Underscored(s);
    if t == [] then fallback else t
  }

  /** `re.split(r"[^A-Za-z0-9]", s)`: the pieces of `s` between its
      characters outside `[A-Za-z0-9]`, empty pieces included; every
      piece is made of letters and digits. */
  function Pieces(s: string): (ps: seq<string>)
    ensures ps != []
    ensures ps[0] == [] <==> s == [] || !IsAlnum(s[0])
    ensures forall k, i :: 0 <= k < |ps| && 0 <= i < |ps[k]| ==> IsAlnum(ps[k][i])
    decreases |s|
  {
    if s == [] then [[]]
    else
      var ps := Pieces(s[1..]);
      if IsAlnum(s[0]) then
        var w := [s[0]] + ps[0];
        assert forall i :: 1 <= i < |w| ==> w[i] == ps[0][i - 1];
        [w] + ps[1..]
      else [[]] + ps
  }

  predicate NonEmpty(w: string) {
    w != []
  }

  /** The words of `s`: its maximal runs of letters and digits, in
      order. */
  function Words(s: string): seq<string> {
    Seqs.Filter(Pieces(s), NonEmpty)
  }

  /** `"_".join(ws)`. */
  function Join(ws: seq<string>): string {
    if ws == [] then [] else if |ws| == 1 then ws[0] else ws[0] + "_" + Join(ws[1..])
  }

  /** A leading character outside the class starts no word. */
  lemma WordsSkip(s: string)
    requires s != [] && !IsAlnum(s[0])
    ensures Words(s) == Words(s[1..])
  {
    var ps := Pieces(s[1..]);
    assert Pieces(s) == [[]] + ps;
    assert ([[]] + ps)[1..] == ps;
  }

  lemma {:induction false} WordsDrop(s: string)
    ensures Words(DropNonAlnum(s)) == Words(s)
    decreases |s|
  {
    if s != [] && !IsAlnum(s[0]) {
      WordsSkip(s);
      WordsDrop(s[1..]);
    }
  }

  /** A letter or digit in front of `t` starts a word of its own when `t`
      does not start with one, and otherwise joins `t`'s first word. */
  lemma WordsGrow(c: char, t: string)
    requires IsAlnum(c)
    ensures t == [] || !IsAlnum(t[0]) ==> Words([c] + t) == [[c]] + Words(t)
    ensures t != [] && IsAlnum(t[0]) ==> Words(t) != [] && Words([c] + t) == [[c] + Words(t)[0]] + Words(t)[1..]
  {
    var s := [c] + t;
    assert s[1..] == t;
    var ps := Pieces(t);
    assert Pieces(s) == [[c] + ps[0]] + ps[1..];
    if ps[0] == [] {
      assert [c] + ps[0] == [c];
      assert Seqs.Filter(ps, NonEmpty) == Seqs.Filter(ps[1..], NonEmpty);
    }
    assert ([[c] + ps[0]] + ps[1..])[1..] == ps[1..];
    assert Words(s) == [[c] + ps[0]] + Seqs.Filter(ps[1..], NonEmpty);
    assert Words(t) == (if ps[0] != [] then [ps[0]] else []) + Seqs.Filter(ps[1..], NonEmpty);
  }

  /** Putting a letter or digit in front of the first word puts it in
      front of the joined text. */
  lemma JoinCons(c: char, ws: seq<string>)
    requires ws != []
    ensures Join([[c] + ws[0]] + ws[1..]) == [c] + Join(ws)
  {
    var vs := [[c] + ws[0]] + ws[1..];
    assert vs[1..] == ws[1..];
  }

  /** The underscore `re.sub` leaves at the end of `s`, if any. */
  function TrailMark(s: string): string {
    if s != [] && !IsAlnum(s[|s| - 1]) then "_" else ""
  }

  lemma TrailMarkCons(c: char, t: string)
    requires t != []
    ensures TrailMark([c] + t) == TrailMark(t)
  {
    var s := [c] + t;
    assert s[|s| - 1] == t[|t| - 1];
  }

  /** Skipping a run outside the class keeps the text's last character,
      unless the run reached the end. */
  lemma TrailMarkGap(t: string)
    requires t != [] && !IsAlnum(t[0])
    ensures var d := DropNonAlnum(t[1..]);
            TrailMark(t) == if d == [] then "_" else TrailMark(d)
  {
    var u := t[1..];
    var d := DropNonAlnum(u);
    if d != [] {
      assert d == u[|u| - |d|..];
      assert d[|d| - 1] == u[|u| - 1] == t[|t| - 1];
    } else if u != [] {
      assert !IsAlnum(u[|u| - 1]);
      assert u[|u| - 1] == t[|t| - 1];
    }
  }

  /** On a text starting with a letter or digit, `re.sub` gives the words
      joined by underscores, plus one underscore when the text ends
      outside the class. */
  lemma {:induction false} CollapseWords(s: string)
    requires s == [] || IsAlnum(s[0])
    ensures CollapseNonAlnum(s) == Join(Words(s)) + TrailMark(s)
    decreases |s|
  {
    if s != [] {
      var c, t := s[0], s[1..];
      assert s == [c] + t;
      WordsGrow(c, t);
      assert CollapseNonAlnum(s) == [c] + CollapseNonAlnum(t);
      if t == [] {
        assert Words(t) == [];
      } else if IsAlnum(t[0]) {
        CollapseWords(t);
        CollapseWordsJoin(c, t);
      } else {
        var d := DropNonAlnum(t[1..]);
        CollapseWords(d);
        CollapseWordsGap(c, t, d);
      }
    }
  }

  lemma CollapseWordsJoin(c: char, t: string)
    requires IsAlnum(c) && t != [] && IsAlnum(t[0])
    requires CollapseNonAlnum(t) == Join(Words(t)) + TrailMark(t)
    ensures [c] + CollapseNonAlnum(t) == Join(Words([c] + t)) + TrailMark([c] + t)
  {
    var s := [c] + t;
    var ws, j, m := Words(t), Join(Words(t)), TrailMark(t);
    WordsGrow(c, t);
    JoinCons(c, ws);
    assert Join(Words(s)) == [c] + j;
    TrailMarkCons(c, t);
    Seqs.AppendAssoc([c], j, m);
  }

  lemma CollapseWordsGap(c: char, t: string, d: string)
    requires IsAlnum(c) && t != [] && !IsAlnum(t[0]) && d == DropNonAlnum(t[1..])
    requires CollapseNonAlnum(d) == Join(Words(d)) + TrailMark(d)
    ensures [c] + CollapseNonAlnum(t) == Join(Words([c] + t)) + TrailMark([c] + t)
  {
    WordsGap(c, t);
    CollapseGap(t);
    TrailMarkCons(c, t);
    TrailMarkGap(t);
    if d == [] {
      assert Words(d) == [];
    } else {
      WordsStart(d);
    }
    GapJoin(c, Words(d), TrailMark(d), CollapseNonAlnum(d), TrailMark([c] + t));
  }

  /** The underscore a run leaves after a one-letter word is the one
      `Join` puts there, or the trailing one when no word follows. */
  lemma GapJoin(c: char, ws: seq<string>, m: string, x: string, tm: string)
    requires x == Join(ws) + m
    requires ws == [] ==> m == [] && tm == "_"
    requires ws != [] ==> tm == m
    ensures [c] + ("_" + x) == Join([[c]] + ws) + tm
  {
    if ws == [] {
      assert [[c]] + ws == [[c]];
    } else {
      JoinFront(c, ws);
      Seqs.AppendAssoc([c], "_", x);
      Seqs.AppendAssoc([c] + "_", Join(ws), m);
    }
  }

  lemma CollapseGap(t: string)
    requires t != [] && !IsAlnum(t[0])
    ensures CollapseNonAlnum(t) == "_" + CollapseNonAlnum(DropNonAlnum(t[1..]))
  {
  }

  /** A letter or digit before a run outside the class is a word of its
      own. */
  lemma WordsGap(c: char, t: string)
    requires IsAlnum(c) && t != [] && !IsAlnum(t[0])
    ensures Words([c] + t) == [[c]] + Words(DropNonAlnum(t[1..]))
  {
    WordsGrow(c, t);
    WordsSkip(t);
    WordsDrop(t[1..]);
  }

  /** A text starting with a letter or digit has a first word. */
  lemma WordsStart(d: string)
    requires d != [] && IsAlnum(d[0])
    ensures Words(d) != []
  {
    assert Pieces(d)[0] != [];
  }

  /** A one-letter word in front of other words is followed by an
      underscore. */
  lemma JoinFront(c: char, ws: seq<string>)
    requires ws != []
    ensures Join([[c]] + ws) == ([c] + "_") + Join(ws)
  {
    assert ([[c]] + ws)[1..] == ws;
  }

  /** Stripping underscores from the joined words with an underscore
      or nothing at each end leaves the joined words. */
  lemma StripMarks(u: string, j: string, t: string)
    requires u == [] || u == "_"
    requires t == [] || t == "_"
    requires j == [] || (IsAlnum(j[0]) && IsAlnum(j[|j| - 1]))
    ensures StripBy(u + j + t, IsUnderscore) == j
  {
    var x := u + j + t;
    if j == [] {
      assert StripStart(x, IsUnderscore) == |x|;
    } else {
      assert x[|u|] == j[0];
      assert StripStart(x, IsUnderscore) == |u|;
      assert x[|u| + |j| - 1] == j[|j| - 1];
      assert StripEnd(x, IsUnderscore) == |u| + |j|;
      assert x[|u|..|u| + |j|] == j;
    }
  }

  /** The joined words start and end with a letter or digit. */
  lemma {:induction false} JoinEnds(ws: seq<string>)
    requires forall k :: 0 <= k < |ws| ==> ws[k] != [] && forall i :: 0 <= i < |ws[k]| ==> IsAlnum(ws[k][i])
    ensures var j := Join(ws);
            j == [] || (IsAlnum(j[0]) && IsAlnum(j[|j| - 1]))
  {
    if |ws| > 1 {
      JoinEnds(ws[1..]);
    }
  }

  /** The words are non-empty runs of letters and digits. */
  lemma WordsAlnum(s: string)
    ensures forall k :: 0 <= k < |Words(s)| ==>
              Words(s)[k] != [] && forall i :: 0 <= i < |Words(s)[k]| ==> IsAlnum(Words(s)[k][i])
  {
    var ws := Words(s);
    forall k | 0 <= k < |ws|
      ensures ws[k] != [] && forall i :: 0 <= i < |ws[k]| ==> IsAlnum(ws[k][i])
    {
      assert ws[k] in ws;
    }
  }

  /** `re.sub(r"[^A-Za-z0-9]+", "_", s).strip("_")` is
      `"_".join(re.split(r"[^A-Za-z0-9]", s)` without the empty pieces`)`:
      the words of `s` with one underscore between each two. */
  lemma UnderscoredWords(s: string)
    ensures Underscored(s) == Join(Words(s))
  {
    if s != [] && !IsAlnum(s[0]) {
      var d := DropNonAlnum(s[1..]);
      assert CollapseNonAlnum(s) == "_" + CollapseNonAlnum(d);
      WordsSkip(s);
      WordsDrop(s[1..]);
      UnderscoredFrom("_", d);
      assert Words(s) == Words(d);
    } else {
      UnderscoredFrom([], s);
      assert [] + CollapseNonAlnum(s) == CollapseNonAlnum(s);
    }
  }

  lemma UnderscoredFrom(u: string, d: string)
    requires u == [] || u == "_"
    requires d == [] || IsAlnum(d[0])
    ensures StripBy(u + CollapseNonAlnum(d), IsUnderscore) == Join(Words(d))
  {
    var j, m := Join(Words(d)), TrailMark(d);
    CollapseWords(d);
    JoinWordsEnds(d);
    StripMarks(u, j, m);
    Seqs.AppendAssoc(u, j, m);
  }

  /** The joined words of a text start and end with a letter or digit. */
  lemma JoinWordsEnds(s: string)
    ensures var j := Join(Words(s));
            j == [] || (IsAlnum(j[0]) && IsAlnum(j[|j| - 1]))
  {
    WordsAlnum(s);
    JoinEnds(Words(s));
  }

  /** A word of letters and digits is its own slug. */
  lemma SlugOfWord(w: string)
    requires w != [] && forall i :: 0 <= i < |w| ==> IsAlnum(w[i])
    ensures Underscored(w) == w
  {
    assert CollapseNonAlnum(w) == w;
    assert StripStart(w, IsUnderscore) == 0;
    assert StripEnd(w, IsUnderscore) == |w|;
  }

  /** `k` is where `s` meets its first `c`, or its end when there is none. */
  ghost predicate FirstCut(s: string, c: char, k: int) {
    0 <= k <= |s| && c !in s[..k] && (k < |s| ==> s[k] == c)
  }

  /** `s.split(c, 1)[0]`: the text before the first `c`. */
  function BeforeFirst(s: string, c: char): (r: string)
    ensures |r| <= |s| && r == s[..|r|] && FirstCut(s, c, |r|)
  {
    if s == [] || s[0] == c then []
    else
      var t := BeforeFirst(s[1..], c);
      assert s[..|t| + 1] == [s[0]] + t;
      [s[0]] + t
  }

  /** Python's `<=` on texts: character codes compared from the left, a
      proper prefix before any longer text. */
  predicate LessEq(a: string, b: string) {
    a == [] || (b != [] && (a[0] < b[0] || (a[0] == b[0] && LessEq(a[1..], b[1..]))))
  }

  lemma {:induction false} LessEqTotal(a: string, b: string)
    ensures LessEq(a, b) || LessEq(b, a)
  {
    if a != [] && b != [] && a[0] == b[0] {
      LessEqTotal(a[1..], b[1..]);
    }
  }

  lemma {:induction false} LessEqTrans(a: string, b: string, c: string)
    requires LessEq(a, b) && LessEq(b, c)
    ensures LessEq(a, c)
  {
    if a != [] && a[0] == b[0] && b[0] == c[0] {
      LessEqTrans(a[1..], b[1..], c[1..]);
    }
  }

  lemma {:induction false} LessEqAntisym(a: string, b: string)
    requires LessEq(a, b) && LessEq(b, a)
    ensures a == b
  {
    if a != [] {
      LessEqAntisym(a[1..], b[1..]);
      assert a == [a[0]] + a[1..] && b == [b[0]] + b[1..];
    }
  }

  /** A text with no whitespace at either end is its own `strip()`. */
  lemma StripKeeps(s: string)
    requires s != [] && !IsSpace(s[0]) && !IsSpace(s[|s| - 1])
    ensures Strip(s) == s
  {
    assert StripStart(s, IsSpace) == 0;
    assert StripEnd(s, IsSpace) == |s|;
  }
}
