/**
 * The string operations the search box relies on: lower-casing, trimming,
 * splitting at runs of white space, and substring search.
 */
module SearchText {
  import opened Options

  /** The white space and line terminators that `trim` removes and that the
      regular-expression class `\s` matches. */
  predicate IsSpace(c: char) {
    || c == '\t' || c == '\n' || c == '\U{000B}' || c == '\U{000C}' || c == '\r' || c == ' '
    || c == '\U{00A0}' || c == '\U{1680}' || ('\U{2000}' <= c <= '\U{200A}')
    || c == '\U{2028}' || c == '\U{2029}' || c == '\U{202F}' || c == '\U{205F}'
    || c == '\U{3000}' || c == '\U{FEFF}'
  }

  predicate AllSpace(s: string) {
    forall i | 0 <= i < |s| :: IsSpace(s[i])
  }

  /** Lower-casing of one character (ASCII letters only). */
  function Lower(c: char): (r: char)
    ensures 'A' <= c <= 'Z' ==> r as int == c as int + 32 && 'a' <= r <= 'z'
    ensures !('A' <= c <= 'Z') ==> r == c
    ensures !('A' <= r <= 'Z')
    ensures IsSpace(r) == IsSpace(c)
  {
    if 'A' <= c <= 'Z' then (c as int + 32) as char else c
  }

  function LowerAll(s: string): (r: string)
    ensures |r| == |s| && forall i | 0 <= i < |s| :: r[i] == Lower(s[i])
  {
    seq(|s|, i requires 0 <= i < |s| => Lower(s[i]))
  }

  /** Lower-casing twice is lower-casing once. */
  lemma {:induction false} LowerAllIdempotent(s: string)
    ensures LowerAll(LowerAll(s)) == LowerAll(s)
  {
    forall i | 0 <= i < |s|
      ensures LowerAll(LowerAll(s))[i] == LowerAll(s)[i]
    {
      assert Lower(Lower(s[i])) == Lower(s[i]);
    }
  }

  /** Lower-casing works character by character, so it splits over a
      concatenation. */
  lemma {:induction false} LowerAllAppend(a: string, b: string)
    ensures LowerAll(a + b) == LowerAll(a) + LowerAll(b)
  {
    assert forall i | 0 <= i < |a + b| :: LowerAll(a + b)[i] == (LowerAll(a) + LowerAll(b))[i];
  }

  /** The end of the run of white space that starts at `i`, looking no
      further than `n`. */
  function SpaceEnd(s: string, i: nat, n: nat): (r: nat)
    requires i <= n <= |s|
    ensures i <= r <= n
    ensures forall j | i <= j < r :: IsSpace(s[j])
    ensures r < n ==> !IsSpace(s[r])
    decreases n - i
  {
    if i < n && IsSpace(s[i]) then SpaceEnd(s, i + 1, n) else i
  }

  /** The end of the run of non-white-space characters that starts at `i`,
      looking no further than `n`. */
  function WordEnd(s: string, i: nat, n: nat): (r: nat)
    requires i <= n <= |s|
    ensures i <= r <= n
    ensures forall j | i <= j < r :: !IsSpace(s[j])
    ensures r < n ==> IsSpace(s[r])
    decreases n - i
  {
    if i < n && !IsSpace(s[i]) then WordEnd(s, i + 1, n) else i
  }

  /** Where trailing white space begins, searching down from `n` to `lo`. */
  function TrailStart(s: string, lo: nat, n: nat): (r: nat)
    requires lo <= n <= |s|
    ensures lo <= r <= n
    ensures forall j | r <= j < n :: IsSpace(s[j])
    ensures lo < r ==> !IsSpace(s[r - 1])
    decreases n
  {
    if lo < n && IsSpace(s[n - 1]) then TrailStart(s, lo, n - 1) else n
  }

  /** `String.prototype.trim`: white space removed from both ends. */
  function Trim(s: string): (r: string)
    ensures |r| > 0 ==> !IsSpace(r[0]) && !IsSpace(r[|r| - 1])
    ensures r == [] <==> AllSpace(s)
  {
    var a := SpaceEnd(s, 0, |s|);
    var e := TrailStart(s, a, |s|);
    assert a < |s| ==> a < e;
    s[a..e]
  }

  /** `(str || "").toLowerCase().trim()`: a missing string reads as empty. */
  function Normalize(s: Option<string>): (r: string)
    ensures s.None? ==> r == []
    ensures forall i | 0 <= i < |r| :: !('A' <= r[i] <= 'Z')
    ensures |r| > 0 ==> !IsSpace(r[0]) && !IsSpace(r[|r| - 1])
    ensures r == [] <==> AllSpace(s.GetOr(""))
  {
    var t := s.GetOr("");
    assert AllSpace(LowerAll(t)) <==> AllSpace(t) by {
      assert forall i | 0 <= i < |t| :: IsSpace(LowerAll(t)[i]) == IsSpace(t[i]);
    }
    Trim(LowerAll(t))
  }

  /** Lower-casing and trimming commute: `normalize` is the trimmed text,
      lower-cased. */
  lemma {:induction false} NormalizeLowersTrim(s: Option<string>)
    ensures Normalize(s) == LowerAll(Trim(s.GetOr("")))
  {
    var t := s.GetOr("");
    var l := LowerAll(t);
    SpaceEndLower(t, 0, |t|);
    var a := SpaceEnd(t, 0, |t|);
    TrailStartLower(t, a, |t|);
    assert l[a..TrailStart(t, a, |t|)] == LowerAll(t[a..TrailStart(t, a, |t|)]);
  }

  /** Lower-casing keeps every white-space run where it was. */
  lemma {:induction false} SpaceEndLower(t: string, i: nat, n: nat)
    requires i <= n <= |t|
    ensures SpaceEnd(LowerAll(t), i, n) == SpaceEnd(t, i, n)
    decreases n - i
  {
    if i < n && IsSpace(t[i]) {
      SpaceEndLower(t, i + 1, n);
    }
  }

  lemma {:induction false} TrailStartLower(t: string, lo: nat, n: nat)
    requires lo <= n <= |t|
    ensures TrailStart(LowerAll(t), lo, n) == TrailStart(t, lo, n)
    decreases n
  {
    if lo < n && IsSpace(t[n - 1]) {
      TrailStartLower(t, lo, n - 1);
    }
  }

  /** The normalized text stands inside the lower-cased text, with only
      white space around it. */
  lemma {:induction false} NormalizeStands(s: Option<string>)
    ensures var l := LowerAll(s.GetOr(""));
            && StandsAt(Normalize(s), l, SpaceEnd(l, 0, |l|))
            && forall k | 0 <= k < |l| && (k < SpaceEnd(l, 0, |l|) || SpaceEnd(l, 0, |l|) + |Normalize(s)| <= k) ::
                 IsSpace(l[k])
  {
    TrimStands(LowerAll(s.GetOr("")));
  }

  /** The characters of a piece are none of them white space. */
  predicate NoSpace(p: string) {
    forall k | 0 <= k < |p| :: !IsSpace(p[k])
  }

  /** `s.split(/\s+/)` on `s[i..n]`: the pieces between the runs of white
      space. White space at either end gives an empty first or last piece;
      every other piece is non-empty. */
  function SplitIn(s: string, i: nat, n: nat): (ps: seq<string>)
    requires i <= n <= |s|
    ensures |ps| >= 1
    ensures forall j | 0 <= j < |ps| :: NoSpace(ps[j])
    ensures ps[0] == [] <==> i == n || IsSpace(s[i])
    ensures ps[|ps| - 1] == [] <==> i == n || IsSpace(s[n - 1])
    ensures forall j | 0 < j < |ps| - 1 :: ps[j] != []
    decreases n - i
  {
    var k := WordEnd(s, i, n);
    if k == n then [s[i..n]]
    else [s[i..k]] + SplitIn(s, SpaceEnd(s, k, n), n)
  }

  function SplitWs(s: string): (ps: seq<string>)
    ensures |ps| >= 1 && forall j | 0 <= j < |ps| :: NoSpace(ps[j])
    ensures ps == [[]] <==> s == []
    ensures !AllSpace(s) && !IsSpace(s[0]) && !IsSpace(s[|s| - 1]) ==>
              forall j | 0 <= j < |ps| :: ps[j] != []
  {
    SplitIn(s, 0, |s|)
  }

  /** The query terms: `normalize(q).split(/\s+/)`. A blank query gives the
      one empty term; otherwise every term is a non-empty run of characters
      that are not white space. */
  function Terms(q: string): (ts: seq<string>)
    ensures AllSpace(q) ==> ts == [[]]
    ensures !AllSpace(q) ==> forall j | 0 <= j < |ts| :: ts[j] != [] && NoSpace(ts[j])
  {
    SplitWs(Normalize(Some(q)))
  }

  /** `s[a..b]` is a word of `s`: a maximal run of characters that are not
      white space. */
  ghost predicate IsWord(s: string, a: int, b: int) {
    && 0 <= a < b <= |s|
    && (a == 0 || IsSpace(s[a - 1]))
    && (b == |s| || IsSpace(s[b]))
    && forall k | a <= k < b :: !IsSpace(s[k])
  }

  /** Some character is not white space exactly when there is a word. */
  lemma {:induction false} SomeWord(s: string)
    ensures !AllSpace(s) <==> exists a, b :: IsWord(s, a, b)
  {
    if !AllSpace(s) {
      var k :| 0 <= k < |s| && !IsSpace(s[k]);
      var a := SpaceEnd(s, 0, |s|);
      assert IsWord(s, a, WordEnd(s, a, |s|));
    }
    if exists a, b :: IsWord(s, a, b) {
      var a, b :| IsWord(s, a, b);
      assert !IsSpace(s[a]);
    }
  }

  /** On a range that starts and ends outside white space, and that is
      preceded by white space or the start, splitting at white space gives
      exactly the words that start in the range: no empty pieces. */
  lemma {:induction false} SplitMembers(t: string, i: nat)
    requires i < |t| && !IsSpace(t[i]) && !IsSpace(t[|t| - 1])
    requires i == 0 || IsSpace(t[i - 1])
    ensures forall p | p in SplitIn(t, i, |t|) :: exists a, b :: i <= a && IsWord(t, a, b) && p == t[a..b]
    ensures forall a, b | i <= a && IsWord(t, a, b) :: t[a..b] in SplitIn(t, i, |t|)
    decreases |t| - i
  {
    var n := |t|;
    var k := WordEnd(t, i, n);
    assert IsWord(t, i, k);
    if k < n {
      var m := SpaceEnd(t, k, n);
      SplitMembers(t, m);
      forall a, b | i <= a && IsWord(t, a, b) && a < m ensures a == i && b == k {
        assert !IsSpace(t[a]);
        assert a < k;
      }
    }
  }

  /** `x` stands on its own inside `s` at `d`: it is followed and preceded
      by white space or an end of `s`. */
  ghost predicate StandsAt(x: string, s: string, d: nat) {
    && d + |x| <= |s|
    && s[d..d + |x|] == x
    && (d == 0 || IsSpace(s[d - 1]))
    && (d + |x| == |s| || IsSpace(s[d + |x|]))
  }

  /** Inside text that stands on its own, words are the same words. */
  lemma WordInside(x: string, s: string, d: nat, a: nat, b: nat)
    requires StandsAt(x, s, d) && a < b <= |x|
    ensures IsWord(s, a + d, b + d) <==> IsWord(x, a, b)
    ensures s[a + d..b + d] == x[a..b]
  {
    forall k | a <= k < b ensures s[k + d] == x[k] {
      assert s[d..d + |x|][k] == s[k + d];
    }
    if a > 0 {
      assert s[d..d + |x|][a - 1] == s[a - 1 + d];
    }
    if b < |x| {
      assert s[d..d + |x|][b] == s[b + d];
    }
    assert s[a + d..b + d] == s[d..d + |x|][a..b];
  }

  /** Text surrounded by white space has the words of the text, shifted by
      the length of what precedes it. */
  lemma {:induction false} WordsPadded(x: string, s: string, d: nat)
    requires StandsAt(x, s, d)
    requires forall k | 0 <= k < |s| && (k < d || d + |x| <= k) :: IsSpace(s[k])
    ensures forall a, b | IsWord(s, a, b) ::
              d <= a && b <= d + |x| && IsWord(x, a - d, b - d) && s[a..b] == x[a - d..b - d]
    ensures forall a, b | IsWord(x, a, b) :: IsWord(s, a + d, b + d) && s[a + d..b + d] == x[a..b]
    ensures AllSpace(s) <==> AllSpace(x)
  {
    forall a, b | IsWord(s, a, b)
      ensures d <= a && b <= d + |x| && IsWord(x, a - d, b - d) && s[a..b] == x[a - d..b - d]
    {
      assert !IsSpace(s[a]) && !IsSpace(s[b - 1]);
      WordInside(x, s, d, a - d, b - d);
    }
    WordsOfPiece(s, x, d);
    forall k | 0 <= k < |x| ensures s[k + d] == x[k] {
      assert s[d..d + |x|][k] == s[k + d];
    }
  }

  /** Two pieces that stand on their own on either side of position `m`
      hold all the words of `s` between them. */
  lemma {:induction false} WordsOfCut(s: string, m: nat, x: string, y: string)
    requires m < |s| && |x| == m && |s| == m + 1 + |y|
    requires StandsAt(x, s, 0) && StandsAt(y, s, m + 1)
    ensures forall a, b | IsWord(s, a, b) ::
              || (b <= m && IsWord(x, a, b) && s[a..b] == x[a..b])
              || (m < a && IsWord(y, a - m - 1, b - m - 1) && s[a..b] == y[a - m - 1..b - m - 1])
  {
    forall a, b | IsWord(s, a, b)
      ensures || (b <= m && IsWord(x, a, b) && s[a..b] == x[a..b])
              || (m < a && IsWord(y, a - m - 1, b - m - 1) && s[a..b] == y[a - m - 1..b - m - 1])
    {
      if b <= m {
        WordInside(x, s, 0, a, b);
      } else {
        WordInside(y, s, m + 1, a - m - 1, b - m - 1);
      }
    }
  }

  /** The words of a piece that stands on its own are words of the whole. */
  lemma {:induction false} WordsOfPiece(s: string, x: string, d: nat)
    requires StandsAt(x, s, d)
    ensures forall a, b | IsWord(x, a, b) :: IsWord(s, a + d, b + d) && s[a + d..b + d] == x[a..b]
  {
    forall a, b | IsWord(x, a, b) ensures IsWord(s, a + d, b + d) && s[a + d..b + d] == x[a..b] {
      WordInside(x, s, d, a, b);
    }
  }

  /** The words of a prefix that stands on its own are words of the whole,
      at the same place. */
  lemma {:induction false} WordsOfPrefix(s: string, x: string)
    requires StandsAt(x, s, 0)
    ensures forall a, b | IsWord(x, a, b) :: IsWord(s, a, b) && s[a..b] == x[a..b]
  {
    forall a, b | IsWord(x, a, b) ensures IsWord(s, a, b) && s[a..b] == x[a..b] {
      WordInside(x, s, 0, a, b);
      assert a + 0 == a && b + 0 == b;
    }
  }

  /** Both sides of a white-space character stand on their own. */
  lemma JoinStands(x: string, c: char, y: string)
    requires IsSpace(c)
    ensures StandsAt(x, x + [c] + y, 0) && StandsAt(y, x + [c] + y, |x| + 1)
  {
    var s := x + [c] + y;
    assert s[|x|] == c;
    assert s[0..|x|] == x;
    assert s[|x| + 1..|x| + 1 + |y|] == y;
  }

  /** Every word of two texts joined by a white-space character is a word
      of one of them. */
  lemma {:induction false} WordsOfJoin(x: string, c: char, y: string)
    requires IsSpace(c)
    ensures forall a, b | IsWord(x + [c] + y, a, b) ::
              || (b <= |x| && IsWord(x, a, b) && (x + [c] + y)[a..b] == x[a..b])
              || (|x| < a && IsWord(y, a - |x| - 1, b - |x| - 1)
                  && (x + [c] + y)[a..b] == y[a - |x| - 1..b - |x| - 1])
  {
    JoinStands(x, c, y);
    WordsOfCut(x + [c] + y, |x|, x, y);
  }

  /** The words of the left text stay words after a white-space character
      and more text are appended. */
  lemma {:induction false} WordsOfJoinLeft(x: string, c: char, y: string)
    requires IsSpace(c)
    ensures forall a, b | IsWord(x, a, b) :: IsWord(x + [c] + y, a, b) && (x + [c] + y)[a..b] == x[a..b]
  {
    JoinStands(x, c, y);
    WordsOfPrefix(x + [c] + y, x);
  }

  /** The words of the right text stay words, shifted, after text and a
      white-space character are prepended. */
  lemma {:induction false} WordsOfJoinRight(x: string, c: char, y: string)
    requires IsSpace(c)
    ensures forall a, b | IsWord(y, a, b) ::
              IsWord(x + [c] + y, a + |x| + 1, b + |x| + 1)
              && (x + [c] + y)[a + |x| + 1..b + |x| + 1] == y[a..b]
  {
    JoinStands(x, c, y);
    WordsOfPiece(x + [c] + y, y, |x| + 1);
  }

  /** Text between white space stands on its own, with only white space
      around it. */
  lemma PadStands(pre: string, x: string, post: string)
    requires AllSpace(pre) && AllSpace(post)
    ensures StandsAt(x, pre + x + post, |pre|)
    ensures forall k | 0 <= k < |pre + x + post| && (k < |pre| || |pre| + |x| <= k) ::
              IsSpace((pre + x + post)[k])
  {
    var s := pre + x + post;
    assert s[|pre|..|pre| + |x|] == x;
  }

  /** The trimmed text stands on its own inside the text, with only white
      space around it. */
  lemma TrimStands(s: string)
    ensures StandsAt(Trim(s), s, SpaceEnd(s, 0, |s|))
    ensures forall k | 0 <= k < |s| && (k < SpaceEnd(s, 0, |s|) || SpaceEnd(s, 0, |s|) + |Trim(s)| <= k) ::
              IsSpace(s[k])
  {
  }

  /** Once the query holds a character that is not white space, every
      term is a word of the lower-cased query. */
  lemma {:induction false} TermsAreWords(q: string)
    requires !AllSpace(q)
    ensures forall p | p in Terms(q) :: exists a, b :: IsWord(LowerAll(q), a, b) && p == LowerAll(q)[a..b]
  {
    var l := LowerAll(q);
    var t := Trim(l);
    var x := SpaceEnd(l, 0, |l|);
    assert Terms(q) == SplitIn(t, 0, |t|);
    TrimStands(l);
    WordsOfPiece(l, t, x);
    SplitMembers(t, 0);
    forall p | p in Terms(q) ensures exists a, b :: IsWord(l, a, b) && p == l[a..b] {
      var a, b :| 0 <= a && IsWord(t, a, b) && p == t[a..b];
      assert IsWord(l, a + x, b + x) && p == l[a + x..b + x];
    }
  }

  /** Once the query holds a character that is not white space, every word
      of the lower-cased query is a term. */
  lemma {:induction false} WordsAreTerms(q: string)
    requires !AllSpace(q)
    ensures forall a, b | IsWord(LowerAll(q), a, b) :: LowerAll(q)[a..b] in Terms(q)
  {
    var l := LowerAll(q);
    var t := Trim(l);
    assert Terms(q) == SplitIn(t, 0, |t|);
    TrimStands(l);
    WordsPadded(t, l, SpaceEnd(l, 0, |l|));
    SplitMembers(t, 0);
  }

  /** Every word of `s` occurs in `h`. */
  ghost predicate AllWordsIn(h: string, s: string) {
    forall a, b | IsWord(s, a, b) :: Contains(h, s[a..b])
  }

  /** Every term of a non-blank query occurs in `h` exactly when every word
      of the lower-cased query does. */
  lemma {:induction false} TermsContained(h: string, q: string)
    requires !AllSpace(q)
    ensures (forall t | t in Terms(q) :: Contains(h, t)) <==> AllWordsIn(h, LowerAll(q))
  {
    var l := LowerAll(q);
    TermsAreWords(q);
    WordsAreTerms(q);
    if forall t | t in Terms(q) :: Contains(h, t) {
      forall a, b | IsWord(l, a, b) ensures Contains(h, l[a..b]) {
        assert l[a..b] in Terms(q);
      }
    }
    if AllWordsIn(h, l) {
      forall t | t in Terms(q) ensures Contains(h, t) {
        var a, b :| IsWord(l, a, b) && t == l[a..b];
      }
    }
  }

  /** The words of two texts joined by a white-space character all occur in
      `h` exactly when those of each text do. */
  lemma {:induction false} AllWordsInJoin(h: string, x: string, c: char, y: string)
    requires IsSpace(c)
    ensures AllWordsIn(h, x + [c] + y) <==> AllWordsIn(h, x) && AllWordsIn(h, y)
  {
    var s := x + [c] + y;
    var m := |x|;
    WordsOfJoin(x, c, y);
    WordsOfJoinLeft(x, c, y);
    WordsOfJoinRight(x, c, y);
    if AllWordsIn(h, x) && AllWordsIn(h, y) {
      forall a, b | IsWord(s, a, b) ensures Contains(h, s[a..b]) {
        if b > m {
          assert IsWord(y, a - m - 1, b - m - 1);
        }
      }
    }
    if AllWordsIn(h, s) {
      forall a, b | IsWord(x, a, b) ensures Contains(h, x[a..b]) {
        assert IsWord(s, a, b);
      }
      forall a, b | IsWord(y, a, b) ensures Contains(h, y[a..b]) {
        assert IsWord(s, a + m + 1, b + m + 1);
      }
    }
  }

  /** White space around a text changes neither its blankness nor whether
      its words all occur in `h`. */
  lemma {:induction false} AllWordsInPadded(h: string, pre: string, x: string, post: string)
    requires AllSpace(pre) && AllSpace(post)
    ensures AllWordsIn(h, pre + x + post) <==> AllWordsIn(h, x)
    ensures AllSpace(pre + x + post) <==> AllSpace(x)
  {
    var s := pre + x + post;
    var d := |pre|;
    PadStands(pre, x, post);
    WordsPadded(x, s, d);
    if AllWordsIn(h, x) {
      forall a, b | IsWord(s, a, b) ensures Contains(h, s[a..b]) {
        assert IsWord(x, a - d, b - d);
      }
    }
    if AllWordsIn(h, s) {
      forall a, b | IsWord(x, a, b) ensures Contains(h, x[a..b]) {
        assert IsWord(s, a + d, b + d);
      }
    }
  }

  /** A string is blank exactly when its lower-cased form is. */
  lemma BlankLower(s: string)
    ensures AllSpace(LowerAll(s)) <==> AllSpace(s)
  {
    assert forall i | 0 <= i < |s| :: IsSpace(LowerAll(s)[i]) == IsSpace(s[i]);
  }

  /** `h` holds `t` starting at position `k`. */
  predicate OccursAt(h: string, t: string, k: int) {
    0 <= k && k + |t| <= |h| && h[k..k + |t|] == t
  }

  /** `h.indexOf(t, from)`: the first position at or after `from` where `t`
      occurs, or -1. */
  function IndexFrom(h: string, t: string, from: nat): (r: int)
    ensures r == -1 || (from <= r && OccursAt(h, t, r))
    ensures forall j | from <= j && (r == -1 || j < r) :: !OccursAt(h, t, j)
    decreases |h| - from
  {
    if from + |t| > |h| then -1
    else if h[from..from + |t|] == t then from
    else IndexFrom(h, t, from + 1)
  }

  /** `h.indexOf(t) !== -1`. */
  predicate Contains(h: string, t: string) {
    IndexFrom(h, t, 0) != -1
  }

  /** `Contains` is exactly "occurs somewhere". */
  lemma {:induction false} ContainsIff(h: string, t: string)
    ensures Contains(h, t) <==> exists k :: OccursAt(h, t, k)
  {
    if Contains(h, t) {
      assert OccursAt(h, t, IndexFrom(h, t, 0));
    }
  }
}
