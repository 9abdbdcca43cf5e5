/**
  The Python string operations the miner relies on, restricted to the ASCII
  text they are applied to: `ord(c) < 128` filtering, `str.strip()` with and
  without an argument, `str.split()`, `' '.join(...)`, the `in` operator on
  strings and `str.lower()`.

  The functions carry only the bounds their callers need to be well formed;
  what they compute is stated by the lemmas that follow each of them.
 */
module Text {

  /** Python's `str.isspace()` on ASCII: tab, line feed, vertical tab, form
      feed, carriage return, the separators 0x1C-0x1F, and space. */
  predicate IsSpace(c: char) {
    var n := c as int;
    n == 32 || 9 <= n <= 13 || 28 <= n <= 31
  }

  /** `str.isnumeric()` and the regular expression class `\d` on an ASCII
      character. */
  predicate IsDigit(c: char) {
    '0' <= c <= '9'
  }

  predicate IsAscii(c: char) {
    (c as int) < 128
  }

  predicate AllAscii(s: string) {
    forall k :: 0 <= k < |s| ==> IsAscii(s[k])
  }

  predicate NoSpace(s: string) {
    forall k :: 0 <= k < |s| ==> !IsSpace(s[k])
  }

  predicate AllSpace(s: string) {
    forall k :: 0 <= k < |s| ==> IsSpace(s[k])
  }

  /** A word as `split()` produces it: non-empty, without whitespace. */
  predicate IsWord(s: string) {
    s != [] && NoSpace(s)
  }

  /** `a` is obtained from `b` by deleting zero or more characters. */
  predicate IsSubsequence(a: string, b: string)
    decreases |b|
  {
    a == [] ||
    (b != [] && ((a[0] == b[0] && IsSubsequence(a[1..], b[1..])) || IsSubsequence(a, b[1..])))
  }

  // ---------------------------------------------------------------------
  // The ASCII filter

  /** `''.join([c if ord(c) < 128 else '' for c in s])`. */
  function AsciiOnly(s: string): (r: string) {
    if s == [] then []
    else if IsAscii(s[0]) then [s[0]] + AsciiOnly(s[1..])
    else AsciiOnly(s[1..])
  }

  /** The filter keeps only ASCII characters, in their order. */
  lemma {:induction false} AsciiOnlyCorrect(s: string)
    ensures AllAscii(AsciiOnly(s))
    ensures IsSubsequence(AsciiOnly(s), s)
  {
    if s != [] {
      AsciiOnlyCorrect(s[1..]);
      if IsAscii(s[0]) {
        assert AsciiOnly(s)[1..] == AsciiOnly(s[1..]);
      }
    }
  }

  /** The filter drops no ASCII character: each occurs as often as in `s`. */
  lemma {:induction false} AsciiOnlyKeepsAscii(s: string)
    ensures forall c :: multiset(AsciiOnly(s))[c] == if IsAscii(c) then multiset(s)[c] else 0
  {
    if s != [] {
      assert s == [s[0]] + s[1..];
      AsciiOnlyKeepsAscii(s[1..]);
    }
  }

  // ---------------------------------------------------------------------
  // strip

  /** The characters a strip removes: whitespace (`strip()`) or one given
      character (`strip('[')`). */
  datatype CharClass = Whitespace | Only(c: char)

  predicate InClass(c: char, k: CharClass) {
    match k
    case Whitespace => IsSpace(c)
    case Only(d) => c == d
  }

  /** Python's `lstrip` over a character class. */
  function TrimStart(s: string, k: CharClass): (r: string)
    ensures |r| <= |s|
  {
    if s != [] && InClass(s[0], k) then TrimStart(s[1..], k) else s
  }

  /** `lstrip` drops the longest leading run of the class. */
  lemma {:induction false} TrimStartCorrect(s: string, k: CharClass)
    ensures var r := TrimStart(s, k);
      r == s[|s| - |r|..] &&
      (forall j :: 0 <= j < |s| - |r| ==> InClass(s[j], k)) &&
      (r == [] || !InClass(r[0], k))
  {
    if s != [] && InClass(s[0], k) {
      TrimStartCorrect(s[1..], k);
    }
  }

  /** Python's `rstrip` over a character class. */
  function TrimEnd(s: string, k: CharClass): (r: string)
    ensures |r| <= |s|
  {
    if s != [] && InClass(s[|s| - 1], k) then TrimEnd(s[..|s| - 1], k) else s
  }

  /** `rstrip` drops the longest trailing run of the class. */
  lemma {:induction false} TrimEndCorrect(s: string, k: CharClass)
    ensures var r := TrimEnd(s, k);
      r == s[..|r|] &&
      (forall j :: |r| <= j < |s| ==> InClass(s[j], k)) &&
      (r == [] || !InClass(r[|r| - 1], k))
  {
    if s != [] && InClass(s[|s| - 1], k) {
      TrimEndCorrect(s[..|s| - 1], k);
    }
  }

  /** Python's `strip` over a character class. */
  function Trim(s: string, k: CharClass): (r: string) {
    TrimEnd(TrimStart(s, k), k)
  }

  /** `strip` removes a leading and a trailing run of the class and keeps
      everything in between, which starts and ends outside the class. */
  lemma TrimCorrect(s: string, k: CharClass)
    ensures var r := Trim(s, k); var p := |s| - |TrimStart(s, k)|;
      (r == [] || (!InClass(r[0], k) && !InClass(r[|r| - 1], k))) &&
      p + |r| <= |s| && r == s[p..p + |r|] &&
      (forall j :: 0 <= j < p ==> InClass(s[j], k)) &&
      (forall j :: p + |r| <= j < |s| ==> InClass(s[j], k))
  {
    TrimStartCorrect(s, k);
    TrimKeeps(s, k);
    TrimEnds(s, k);
  }

  /** What `strip` keeps is a slice of the input, and what it drops from
      the end is in the class. */
  lemma TrimKeeps(s: string, k: CharClass)
    ensures var r := Trim(s, k); var p := |s| - |TrimStart(s, k)|;
      p + |r| <= |s| && r == s[p..p + |r|] &&
      (forall j :: p + |r| <= j < |s| ==> InClass(s[j], k))
  {
    var t := TrimStart(s, k);
    TrimStartCorrect(s, k);
    TrimEndCorrect(t, k);
    var r := TrimEnd(t, k);
    var p := |s| - |t|;
    assert t == s[p..];
    assert r == t[..|r|];
    assert s[p..][..|r|] == s[p..p + |r|];
    forall j | p + |r| <= j < |s|
      ensures InClass(s[j], k)
    {
      assert s[j] == t[j - p];
    }
  }

  /** What `strip` keeps starts and ends outside the class. */
  lemma TrimEnds(s: string, k: CharClass)
    ensures var r := Trim(s, k); r == [] || (!InClass(r[0], k) && !InClass(r[|r| - 1], k))
  {
    var t := TrimStart(s, k);
    TrimStartCorrect(s, k);
    TrimEndCorrect(t, k);
    var r := TrimEnd(t, k);
    if r != [] {
      assert r[0] == t[|t| - |t|..][0];
    }
  }

  /** The ASCII filter followed by `.strip()`, which every line read goes
      through (lines 66, 78, 81, 85, 89 and 94). */
  function Normalize(s: string): (r: string) {
    Trim(AsciiOnly(s), Whitespace)
  }

  /** The normalised line holds only ASCII characters, keeps the order of
      the input's characters and has no whitespace at either end. */
  lemma NormalizeCorrect(s: string)
    ensures var r := Normalize(s);
      AllAscii(r) && IsSubsequence(r, s) && (r == [] || (!IsSpace(r[0]) && !IsSpace(r[|r| - 1])))
  {
    var a := AsciiOnly(s);
    AsciiOnlyCorrect(s);
    TrimCorrect(a, Whitespace);
    var r := Trim(a, Whitespace);
    var p := |a| - |TrimStart(a, Whitespace)|;
    SliceIsSubsequence(a, p, p + |r|);
    SubsequenceTransitive(r, a, s);
  }

  lemma {:induction false} SliceIsSubsequence(s: string, p: nat, q: nat)
    requires p <= q <= |s|
    ensures IsSubsequence(s[p..q], s)
    decreases q - p, p
  {
    if p == q {
    } else if p == 0 {
      assert s[p..q][1..] == s[1..][0..q - 1];
      SliceIsSubsequence(s[1..], 0, q - 1);
    } else {
      assert s[p..q] == s[1..][p - 1..q - 1];
      SliceIsSubsequence(s[1..], p - 1, q - 1);
    }
  }

  lemma {:induction false} SubsequenceTransitive(a: string, b: string, c: string)
    requires IsSubsequence(a, b) && IsSubsequence(b, c)
    ensures IsSubsequence(a, c)
    decreases |c|
  {
    if a == [] {
    } else if b[0] == c[0] && IsSubsequence(b[1..], c[1..]) {
      if a[0] == b[0] && IsSubsequence(a[1..], b[1..]) {
        SubsequenceTransitive(a[1..], b[1..], c[1..]);
      } else {
        SubsequenceTransitive(a, b[1..], c[1..]);
      }
    } else {
      SubsequenceTransitive(a, b, c[1..]);
    }
  }

  // ---------------------------------------------------------------------
  // split and join

  /** The longest prefix of `s` that holds no whitespace. */
  function TakeWord(s: string): (w: string)
    ensures |w| <= |s|
    ensures s != [] && !IsSpace(s[0]) ==> w != []
  {
    if s == [] || IsSpace(s[0]) then [] else [s[0]] + TakeWord(s[1..])
  }

  lemma {:induction false} TakeWordCorrect(s: string)
    ensures var w := TakeWord(s); w <= s && NoSpace(w) && (|w| == |s| || IsSpace(s[|w|]))
  {
    if s != [] && !IsSpace(s[0]) {
      TakeWordCorrect(s[1..]);
    }
  }

  /** Python's `str.split()` with no argument. */
  function Split(s: string): (ws: seq<string>)
    decreases |s|
  {
    if s == [] then []
    else if IsSpace(s[0]) then Split(s[1..])
    else
      var w := TakeWord(s);
      [w] + Split(s[|w|..])
  }

  /** `split()` yields words, and yields none exactly for a line that is
      all whitespace. */
  lemma {:induction false} SplitCorrect(s: string)
    ensures forall j :: 0 <= j < |Split(s)| ==> IsWord(Split(s)[j])
    ensures Split(s) == [] <==> AllSpace(s)
    decreases |s|
  {
    if s == [] {
    } else if IsSpace(s[0]) {
      SplitCorrect(s[1..]);
      assert forall k :: 1 <= k < |s| ==> s[k] == s[1..][k - 1];
    } else {
      var w := TakeWord(s);
      TakeWordCorrect(s);
      SplitCorrect(s[|w|..]);
    }
  }

  /** `' '.join(ts)`. */
  function Join(ts: seq<string>): (r: string) {
    if ts == [] then []
    else if |ts| == 1 then ts[0]
    else ts[0] + " " + Join(ts[1..])
  }

  /** A line whose first character is not whitespace splits into its first
      word followed by the words of the rest. */
  lemma SplitWord(w: string, rest: string)
    requires IsWord(w)
    requires rest == [] || IsSpace(rest[0])
    ensures Split(w + rest) == [w] + Split(rest)
  {
    var s := w + rest;
    TakeWordPrefix(w, rest);
    assert s[|w|..] == rest;
  }

  lemma {:induction false} TakeWordPrefix(w: string, rest: string)
    requires NoSpace(w)
    requires rest == [] || IsSpace(rest[0])
    ensures TakeWord(w + rest) == w
  {
    if w == [] {
    } else {
      assert (w + rest)[1..] == w[1..] + rest;
      TakeWordPrefix(w[1..], rest);
    }
  }

  /** Splitting undoes joining with single spaces, for words as `split()`
      produces them. */
  lemma {:induction false} SplitJoin(ts: seq<string>)
    requires forall j :: 0 <= j < |ts| ==> IsWord(ts[j])
    ensures Split(Join(ts)) == ts
  {
    if ts == [] {
    } else if |ts| == 1 {
      SplitWord(ts[0], []);
      assert ts[0] + [] == ts[0];
    } else {
      var rest := " " + Join(ts[1..]);
      assert ts[0] + " " + Join(ts[1..]) == ts[0] + rest;
      SplitWord(ts[0], rest);
      assert rest[1..] == Join(ts[1..]);
      SplitJoin(ts[1..]);
      assert ts == [ts[0]] + ts[1..];
    }
  }

  /** A line with no whitespace at either end that splits into one word is
      that word. */
  lemma SplitSingle(s: string)
    requires s == [] || (!IsSpace(s[0]) && !IsSpace(s[|s| - 1]))
    requires |Split(s)| == 1
    ensures Split(s)[0] == s
  {
    var w := TakeWord(s);
    TakeWordCorrect(s);
    var rest := s[|w|..];
    SplitCorrect(rest);
  }

  /** The words `ws` with the gaps `gaps` around and between them:
      `gaps[0] + ws[0] + gaps[1] + ... + ws[n-1] + gaps[n]`. */
  function Interleave(gaps: seq<string>, ws: seq<string>): (r: string)
    requires |gaps| == |ws| + 1
  {
    if ws == [] then gaps[0] else gaps[0] + ws[0] + Interleave(gaps[1..], ws[1..])
  }

  /** Gaps as `split()` leaves them between words: all whitespace, and
      non-empty except before the first word and after the last. */
  predicate SplitGaps(gaps: seq<string>) {
    && (forall j :: 0 <= j < |gaps| ==> AllSpace(gaps[j]))
    && (forall j :: 0 < j < |gaps| - 1 ==> gaps[j] != [])
  }

  /** What `split()` returns: the line is its words with runs of whitespace
      around and between them, so the words are exactly the maximal runs of
      non-whitespace, in order. */
  lemma {:induction false} SplitContent(s: string) returns (gaps: seq<string>)
    ensures |gaps| == |Split(s)| + 1
    ensures SplitGaps(gaps)
    ensures Interleave(gaps, Split(s)) == s
    ensures s != [] && IsSpace(s[0]) ==> gaps[0] != []
    decreases |s|
  {
    if s == [] {
      gaps := [[]];
    } else if IsSpace(s[0]) {
      var g := SplitContent(s[1..]);
      gaps := [[s[0]] + g[0]] + g[1..];
      InterleaveCons([s[0]], g, Split(s));
      assert [s[0]] + s[1..] == s;
      GapsExtend(s[0], g);
    } else {
      var w := TakeWord(s);
      TakeWordCorrect(s);
      var rest := s[|w|..];
      var g := SplitContent(rest);
      gaps := [[]] + g;
      InterleaveWord(w, g, Split(rest));
      assert w + rest == s;
      GapsOpen(g);
    }
  }

  /** The gaps of `' '.join` on `n` words: nothing before the first word and
      after the last, and a single space between neighbours. */
  function JoinGaps(n: nat): (gaps: seq<string>)
    requires n > 0
    ensures |gaps| == n + 1
    ensures gaps[0] == [] && gaps[n] == []
    ensures forall j :: 0 < j < n ==> gaps[j] == " "
  {
    [[]] + seq(n - 1, _ => " ") + [[]]
  }

  /** `' '.join(ts)` is the words of `ts` with nothing around them and one
      space between each pair. */
  lemma {:induction false} JoinInterleave(ts: seq<string>)
    requires ts != []
    ensures Join(ts) == Interleave(JoinGaps(|ts|), ts)
  {
    var gaps := JoinGaps(|ts|);
    if |ts| == 1 {
      assert gaps == [[], []];
      assert Interleave(gaps, ts) == [] + ts[0] + Interleave(gaps[1..], ts[1..]);
      assert Interleave(gaps[1..], ts[1..]) == [];
      assert [] + ts[0] + [] == ts[0];
    } else {
      JoinInterleave(ts[1..]);
      var rest := JoinGaps(|ts| - 1);
      assert gaps[1..] == [" " + rest[0]] + rest[1..] by {
        var x := [" " + rest[0]] + rest[1..];
        assert " " + [] == " ";
        assert |x| == |gaps[1..]|;
        assert forall j :: 0 <= j < |x| ==> x[j] == gaps[1..][j] by {
          assert forall j :: 1 <= j < |x| ==> x[j] == rest[j];
        }
      }
      InterleaveCons(" ", rest, ts[1..]);
      assert Interleave(gaps, ts) == [] + ts[0] + Interleave(gaps[1..], ts[1..]);
      assert [] + ts[0] + (" " + Join(ts[1..])) == ts[0] + " " + Join(ts[1..]);
    }
  }

  /** A whitespace character added to the leading gap keeps the gaps as
      `split()` leaves them. */
  lemma GapsExtend(c: char, g: seq<string>)
    requires IsSpace(c) && |g| >= 1 && SplitGaps(g)
    ensures SplitGaps([[c] + g[0]] + g[1..])
    ensures [[c] + g[0]] + g[1..] != [] && ([[c] + g[0]] + g[1..])[0] != []
  {
    var g' := [[c] + g[0]] + g[1..];
    assert forall j :: 0 < j < |g'| ==> g'[j] == g[j];
    assert forall k :: 0 <= k < |g[0]| ==> ([c] + g[0])[k + 1] == g[0][k];
  }

  /** An empty gap before a word followed by a non-empty gap keeps the gaps
      as `split()` leaves them. */
  lemma GapsOpen(g: seq<string>)
    requires |g| >= 1 && SplitGaps(g) && (|g| > 1 ==> g[0] != [])
    ensures SplitGaps([[]] + g)
  {
    assert forall j :: 0 < j < |[[]] + g| ==> ([[]] + g)[j] == g[j - 1];
  }

  /** A word after an empty leading gap starts the line. */
  lemma InterleaveWord(w: string, g: seq<string>, ws: seq<string>)
    requires |g| == |ws| + 1
    ensures Interleave([[]] + g, [w] + ws) == w + Interleave(g, ws)
  {
    var g', ws' := [[]] + g, [w] + ws;
    assert g'[0] == [] && g'[1..] == g;
    assert ws' != [] && ws'[0] == w && ws'[1..] == ws;
    assert Interleave(g', ws') == g'[0] + ws'[0] + Interleave(g'[1..], ws'[1..]);
    assert [] + w == w;
  }

  /** Prefixing the first gap prefixes the whole. */
  lemma InterleaveCons(c: string, gaps: seq<string>, ws: seq<string>)
    requires |gaps| == |ws| + 1
    ensures Interleave([c + gaps[0]] + gaps[1..], ws) == c + Interleave(gaps, ws)
  {
    var gaps' := [c + gaps[0]] + gaps[1..];
    assert gaps'[1..] == gaps[1..];
    if ws != [] {
      assert c + gaps[0] + ws[0] + Interleave(gaps[1..], ws[1..]) ==
        c + (gaps[0] + ws[0] + Interleave(gaps[1..], ws[1..]));
    }
  }

  // ---------------------------------------------------------------------
  // in, lower

  /** Python's `sub in s`: `sub` is a prefix of some suffix of `s`. */
  predicate Contains(s: string, sub: string)
    decreases |s|
  {
    sub <= s || (s != [] && Contains(s[1..], sub))
  }

  /** An occurrence at `k` makes `sub in s` true. */
  lemma {:induction false} ContainsAt(s: string, sub: string, k: nat)
    requires k <= |s| && sub <= s[k..]
    ensures Contains(s, sub)
    decreases k
  {
    if k > 0 {
      assert s[1..][k - 1..] == s[k..];
      ContainsAt(s[1..], sub, k - 1);
    }
  }

  /** Where `sub in s` holds, `sub` occurs at some index `k`. */
  lemma {:induction false} ContainsIndex(s: string, sub: string) returns (k: nat)
    requires Contains(s, sub)
    ensures k + |sub| <= |s| && s[k..k + |sub|] == sub
    decreases |s|
  {
    if sub <= s {
      k := 0;
    } else {
      var j := ContainsIndex(s[1..], sub);
      assert s[1..][j..j + |sub|] == s[j + 1..j + 1 + |sub|];
      k := j + 1;
    }
  }

  /** `str.lower()` on ASCII letters. */
  function LowerChar(c: char): (r: char) {
    if 'A' <= c <= 'Z' then (c as int + 32) as char else c
  }

  function Lower(s: string): (r: string) {
    seq(|s|, k requires 0 <= k < |s| => LowerChar(s[k]))
  }

  /** `lower()` turns each upper-case ASCII letter into the lower-case letter
      at the same place in the alphabet, changes nothing else and is
      idempotent. */
  lemma LowerCorrect(s: string)
    ensures |Lower(s)| == |s|
    ensures forall k :: 0 <= k < |s| && 'A' <= s[k] <= 'Z' ==>
      Lower(s)[k] == "abcdefghijklmnopqrstuvwxyz"[s[k] as int - 'A' as int]
    ensures forall k :: 0 <= k < |s| ==> !('A' <= Lower(s)[k] <= 'Z')
    ensures forall k :: 0 <= k < |s| && !('A' <= s[k] <= 'Z') ==> Lower(s)[k] == s[k]
    ensures Lower(Lower(s)) == Lower(s)
  {
  }
}
