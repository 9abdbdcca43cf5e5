/**
  Field extraction for one requirement block: the requirement ID found by the
  pattern `keyword-?\d+`, the title that follows it, and the label lines
  (rationale, trace, allocation, priority or verification) with their label
  word dropped.
 */
module Fields {
  import opened Wrappers
  import opened Text

  /** The marker words of a block; they double as column names. */
  const ColRationale := "Rationale"
  const ColTrace := "Trace"
  const ColAllocation := "Allocation"
  const ColPriority := "Priority"
  const ColVerification := "Verification"

  predicate AllDigits(d: string) {
    forall j :: 0 <= j < |d| ==> IsDigit(d[j])
  }

  /** `t` matches `keyword-?\d+` in full, the keyword read as literal text. */
  predicate IdShape(t: string, keyword: string) {
    && keyword <= t
    && var rest := t[|keyword|..];
       (rest != [] && AllDigits(rest)) || (|rest| >= 2 && rest[0] == '-' && AllDigits(rest[1..]))
  }

  /** Some substring of `s` that starts at `p` matches the pattern. */
  ghost predicate MatchesAt(s: string, keyword: string, p: nat) {
    exists e :: p <= e <= |s| && IdShape(s[p..e], keyword)
  }

  /** Length of the run of digits that starts at `p` (the greedy `\d+`). */
  function DigitRun(s: string, p: nat): (n: nat)
    requires p <= |s|
    ensures p + n <= |s|
    decreases |s| - p
  {
    if p < |s| && IsDigit(s[p]) then 1 + DigitRun(s, p + 1) else 0
  }

  /** The run holds only digits and cannot be extended. */
  lemma {:induction false} DigitRunCorrect(s: string, p: nat)
    requires p <= |s|
    ensures var n := DigitRun(s, p);
      (forall j :: p <= j < p + n ==> IsDigit(s[j])) && (p + n == |s| || !IsDigit(s[p + n]))
    decreases |s| - p
  {
    if p < |s| && IsDigit(s[p]) {
      DigitRunCorrect(s, p + 1);
    }
  }

  /** Where the backtracking match of `keyword-?\d+` that starts at `p` ends:
      `-?` first tries the dash, and `\d+` takes all the digits it can. */
  function MatchEnd(s: string, keyword: string, p: nat): (r: Option<nat>)
    requires p <= |s|
    ensures r.Some? ==> p <= r.value <= |s|
  {
    if !(keyword <= s[p..]) then None
    else
      var q := p + |keyword|;
      if q + 1 < |s| && s[q] == '-' && IsDigit(s[q + 1]) then Some(q + 1 + DigitRun(s, q + 1))
      else if q < |s| && IsDigit(s[q]) then Some(q + DigitRun(s, q))
      else None
  }

  /** The match that `MatchEnd` finds has the pattern's shape and is the
      longest one. */
  lemma MatchEndSound(s: string, keyword: string, p: nat)
    requires p <= |s|
    requires MatchEnd(s, keyword, p).Some?
    ensures var e := MatchEnd(s, keyword, p).value;
      IdShape(s[p..e], keyword) && (e == |s| || !IsDigit(s[e]))
  {
    var q := p + |keyword|;
    if q + 1 < |s| && s[q] == '-' && IsDigit(s[q + 1]) {
      var e := q + 1 + DigitRun(s, q + 1);
      assert MatchEnd(s, keyword, p) == Some(e);
      DigitRunCorrect(s, q + 1);
      assert e == |s| || !IsDigit(s[e]);
      KeywordSlice(s, keyword, p, e);
      DigitsSlice(s, q + 1, e);
      var rest := s[p..e][|keyword|..];
      assert rest[1..] == s[q + 1..e];
      assert |rest| >= 2 && rest[0] == '-' && AllDigits(rest[1..]);
    } else {
      var e := q + DigitRun(s, q);
      assert MatchEnd(s, keyword, p) == Some(e);
      DigitRunCorrect(s, q);
      assert e == |s| || !IsDigit(s[e]);
      KeywordSlice(s, keyword, p, e);
      DigitsSlice(s, q, e);
    }
  }

  lemma DigitsSlice(s: string, p: nat, e: nat)
    requires p <= e <= |s|
    requires forall j :: p <= j < e ==> IsDigit(s[j])
    ensures AllDigits(s[p..e])
  {
    assert forall j :: 0 <= j < e - p ==> s[p..e][j] == s[p + j];
  }

  /** A slice that starts with the keyword: what follows the keyword in it. */
  lemma KeywordSlice(s: string, keyword: string, p: nat, e: nat)
    requires p + |keyword| <= e <= |s| && keyword <= s[p..]
    ensures keyword <= s[p..e] && s[p..e][|keyword|..] == s[p + |keyword|..e]
  {
    assert s[p..e][..|keyword|] == s[p..][..|keyword|];
  }

  /** Whenever the pattern matches some `s[p..e]`, `MatchEnd` finds a match
      at `p`. */
  lemma MatchEndComplete(s: string, keyword: string, p: nat, e: nat)
    requires p <= e <= |s| && IdShape(s[p..e], keyword)
    ensures MatchEnd(s, keyword, p).Some?
  {
    var t := s[p..e];
    var q := p + |keyword|;
    assert t[..|keyword|] == s[p..][..|keyword|];
    var rest := t[|keyword|..];
    assert rest[0] == s[q];
    if |rest| >= 2 {
      assert rest[1] == s[q + 1];
    }
  }

  /** A span `s[start..end]` of the line. */
  datatype Span = Span(start: nat, end: nat)

  /** The leftmost match at or after `p`. */
  function SearchFrom(s: string, keyword: string, p: nat): (r: Option<Span>)
    requires p <= |s|
    ensures r.Some? ==> p <= r.value.start <= r.value.end <= |s|
    decreases |s| - p
  {
    match MatchEnd(s, keyword, p)
    case Some(e) => Some(Span(p, e))
    case None => if p == |s| then None else SearchFrom(s, keyword, p + 1)
  }

  /** The span found matches the pattern, is the longest match at its start,
      and no match starts between `p` and it; when none is found, the pattern
      matches nowhere from `p` on. */
  lemma {:induction false} SearchFromCorrect(s: string, keyword: string, p: nat)
    requires p <= |s|
    ensures var r := SearchFrom(s, keyword, p);
      r.Some? ==>
        IdShape(s[r.value.start..r.value.end], keyword) &&
        (r.value.end == |s| || !IsDigit(s[r.value.end])) &&
        (forall j :: p <= j < r.value.start ==> !MatchesAt(s, keyword, j))
    ensures SearchFrom(s, keyword, p).None? ==> forall j :: p <= j <= |s| ==> !MatchesAt(s, keyword, j)
    decreases |s| - p
  {
    if MatchEnd(s, keyword, p).Some? {
      MatchEndSound(s, keyword, p);
    } else {
      forall e | p <= e <= |s| && IdShape(s[p..e], keyword)
        ensures false
      {
        MatchEndComplete(s, keyword, p, e);
      }
      if p < |s| {
        SearchFromCorrect(s, keyword, p + 1);
      }
    }
  }

  /** `re.findall(keyword + '-?\d+', s)[0]` (line 67-68), the keyword read as
      literal text: the leftmost, longest match, or nothing when the pattern
      occurs nowhere in `s`. */
  function FindId(s: string, keyword: string): (r: Option<Span>)
    ensures r.Some? ==> r.value.start <= r.value.end <= |s|
  {
    SearchFrom(s, keyword, 0)
  }

  /** The requirement ID of a block's first line, taken from the line after
      the ASCII filter and strip. */
  function RequirementId(line: string, keyword: string): (r: Option<string>) {
    var data1 := Normalize(line);
    match FindId(data1, keyword)
    case None => None
    case Some(m) => Some(data1[m.start..m.end])
  }

  /** A match of the pattern ends in a digit. */
  lemma IdShapeEndsInDigit(t: string, keyword: string)
    requires IdShape(t, keyword)
    ensures |t| > |keyword| && IsDigit(t[|t| - 1])
  {
    var rest := t[|keyword|..];
    assert rest[|rest| - 1] == t[|t| - 1];
    if rest[0] == '-' && |rest| >= 2 && AllDigits(rest[1..]) {
      assert rest[1..][|rest| - 2] == rest[|rest| - 1];
    }
  }

  /** `id` occurs at `k` in `s`, is not followed by a digit, and no match of
      the pattern starts before `k`. */
  ghost predicate LeftmostMatchAt(s: string, keyword: string, id: string, k: nat) {
    k + |id| <= |s| && s[k..k + |id|] == id &&
    (k + |id| == |s| || !IsDigit(s[k + |id|])) &&
    forall j :: 0 <= j < k ==> !MatchesAt(s, keyword, j)
  }

  /** The ID is a match of `keyword-?\d+` in the normalised line: it starts
      with the keyword and ends in a digit, it is the leftmost match, and the
      digits run to its end. There is none exactly when the pattern occurs
      nowhere in the line. */
  lemma RequirementIdCorrect(line: string, keyword: string)
    ensures var r := RequirementId(line, keyword); var data1 := Normalize(line);
      r.Some? ==>
        IdShape(r.value, keyword) && keyword <= r.value && IsDigit(r.value[|r.value| - 1]) &&
        Contains(data1, r.value) &&
        exists k :: LeftmostMatchAt(data1, keyword, r.value, k)
    ensures RequirementId(line, keyword).None? <==>
      forall j :: 0 <= j <= |Normalize(line)| ==> !MatchesAt(Normalize(line), keyword, j)
  {
    FindIdCorrect(Normalize(line), keyword);
  }

  /** `FindId` on any string: the span is the leftmost match and ends where
      the digits do; there is none exactly when nothing matches. */
  lemma FindIdCorrect(s: string, keyword: string)
    ensures var r := FindId(s, keyword);
      r.Some? ==>
        var id := s[r.value.start..r.value.end];
        IdShape(id, keyword) && keyword <= id && IsDigit(id[|id| - 1]) &&
        Contains(s, id) &&
        exists k :: LeftmostMatchAt(s, keyword, id, k)
    ensures FindId(s, keyword).None? <==> forall j :: 0 <= j <= |s| ==> !MatchesAt(s, keyword, j)
  {
    SearchFromCorrect(s, keyword, 0);
    match FindId(s, keyword)
    case None =>
    case Some(m) =>
      var id := s[m.start..m.end];
      assert id <= s[m.start..];
      ContainsAt(s, id, m.start);
      assert MatchesAt(s, keyword, m.start) by { assert IdShape(s[m.start..m.end], keyword); }
      IdShapeEndsInDigit(id, keyword);
      assert LeftmostMatchAt(s, keyword, id, m.start);
  }

  /** Lines 71-75: the words of the title line after the word that holds the
      ID, where only the first and the second word are looked at. `None` is
      the case in which the source leaves `col2` as it was. */
  function Title(data1: string, id: string): (r: Option<string>) {
    var ws := Split(data1);
    if |ws| > 0 && Contains(ws[0], id) then Some(Join(ws[1..]))
    else if |ws| > 1 && Contains(ws[1], id) then Some(Join(ws[2..]))
    else None
  }

  /** A title is found exactly when the first or the second word holds the
      ID, and it consists of the words after the first word that does. */
  lemma TitleCorrect(data1: string, id: string)
    ensures var ws := Split(data1);
      Title(data1, id).Some? <==> (|ws| > 0 && Contains(ws[0], id)) || (|ws| > 1 && Contains(ws[1], id))
    ensures var ws := Split(data1);
      Title(data1, id).Some? ==> Split(Title(data1, id).value) == if Contains(ws[0], id) then ws[1..] else ws[2..]
    ensures var ws := Split(data1);
      Title(data1, id).Some? ==> Title(data1, id).value == Join(if Contains(ws[0], id) then ws[1..] else ws[2..])
  {
    var ws := Split(data1);
    SplitCorrect(data1);
    if |ws| > 0 && Contains(ws[0], id) {
      SplitJoin(ws[1..]);
    } else if |ws| > 1 && Contains(ws[1], id) {
      SplitJoin(ws[2..]);
    }
  }

  /** When the ID is found, the lookups `data2[0]` and `data2[1]` on lines 72
      and 74 stay in range: the title line has a word, and a one-word title
      line is its word, so it holds the ID. */
  lemma TitleLookupsInRange(line: string, keyword: string)
    requires RequirementId(line, keyword).Some?
    ensures var ws := Split(Normalize(line));
      |ws| > 0 && (|ws| == 1 ==> Contains(ws[0], RequirementId(line, keyword).value))
  {
    var id := RequirementId(line, keyword).value;
    RequirementIdCorrect(line, keyword);
    IdShapeEndsInDigit(id, keyword);
    NormalizeCorrect(line);
    WordsHold(Normalize(line), id);
  }

  /** A line without whitespace at either end that holds `id`, which ends in
      a character other than whitespace, has a word, and if it has only one,
      that word holds `id`. */
  lemma WordsHold(data1: string, id: string)
    requires data1 == [] || (!IsSpace(data1[0]) && !IsSpace(data1[|data1| - 1]))
    requires Contains(data1, id) && id != [] && !IsSpace(id[|id| - 1])
    ensures var ws := Split(data1);
      |ws| > 0 && (|ws| == 1 ==> Contains(ws[0], id))
  {
    var k := ContainsIndex(data1, id);
    assert data1[k + |id| - 1] == id[|id| - 1];
    NonSpaceHasWord(data1, k + |id| - 1);
    if |Split(data1)| == 1 {
      SplitSingle(data1);
    }
  }

  /** A line with a character other than whitespace has a word. */
  lemma NonSpaceHasWord(s: string, k: nat)
    requires k < |s| && !IsSpace(s[k])
    ensures Split(s) != []
  {
    SplitCorrect(s);
  }

  /** The words of a label line after the ASCII filter, `strip()`,
      `strip('[')` and `strip(']')` (lines 81, 85, 89, 94). */
  function LabelWords(line: string): (ws: seq<string>) {
    Split(Trim(Trim(Normalize(line), Only('[')), Only(']')))
  }

  /** A label line's value: its words without the first (the label itself),
      joined by single spaces. */
  function LabelField(line: string): (r: string) {
    var ws := LabelWords(line);
    Join(if ws == [] then [] else ws[1..])
  }

  /** The value consists of the label line's words after the first, in order. */
  lemma LabelFieldWords(line: string)
    ensures var ws := LabelWords(line); Split(LabelField(line)) == if ws == [] then [] else ws[1..]
    ensures var ws := LabelWords(line); LabelField(line) == Join(if ws == [] then [] else ws[1..])
  {
    var ws := LabelWords(line);
    SplitCorrect(Trim(Trim(Normalize(line), Only('[')), Only(']')));
    SplitJoin(if ws == [] then [] else ws[1..]);
  }

  /** Column 7 (lines 93-97): the value of line i+5 when it carries a
      "Priority" or "Verification" marker, and the empty string otherwise. */
  function PriorityField(line: string): (r: string) {
    if Contains(line, ColPriority) || Contains(line, ColVerification) then LabelField(line) else ""
  }

  /** Column 7 holds the words after the label of a marked line, and nothing
      at all for an unmarked one. */
  lemma PriorityFieldWords(line: string)
    ensures var ws := LabelWords(line);
      Split(PriorityField(line)) ==
        if (Contains(line, ColPriority) || Contains(line, ColVerification)) && ws != [] then ws[1..] else []
    ensures !(Contains(line, ColPriority) || Contains(line, ColVerification)) ==> PriorityField(line) == ""
    ensures var ws := LabelWords(line);
      (Contains(line, ColPriority) || Contains(line, ColVerification)) ==>
        PriorityField(line) == Join(if ws == [] then [] else ws[1..])
  {
    LabelFieldWords(line);
  }
}
