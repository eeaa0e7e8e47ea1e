/**
 * The search box: which index entries a query matches, and what the
 * result list shows for them.
 */
module Search {
  import opened Options
  import opened Links
  import opened SearchText

  /** One entry of the search index. Every field but the number may be
      missing. */
  datatype Entry = Entry(number: string, name: Option<string>, problem: Option<string>,
                         tags: Option<seq<string>>, scale: Option<string>)

  /** `parts.join(sep)`. */
  function Join(parts: seq<string>, sep: string): (r: string)
    ensures |parts| == 1 ==> r == parts[0]
    ensures |parts| > 1 ==> |r| >= |parts[0]| + |sep|
    ensures |parts| > 1 ==> r[..|parts[0]|] == parts[0] && r[|parts[0]|..|parts[0]| + |sep|] == sep
    decreases |parts|
  {
    if |parts| == 0 then []
    else if |parts| == 1 then parts[0]
    else parts[0] + sep + Join(parts[1..], sep)
  }

  /** The normalized tags, in order. */
  function NormalizedTags(tags: Option<seq<string>>): (r: seq<string>)
    ensures |r| == |tags.GetOr([])|
    ensures forall i | 0 <= i < |r| :: r[i] == Normalize(Some(tags.GetOr([])[i]))
  {
    var ts := tags.GetOr([]);
    seq(|ts|, i requires 0 <= i < |ts| => Normalize(Some(ts[i])))
  }

  /** The text a query is searched in: the number, then the normalized
      name, problem, tags and scale, separated by single spaces. */
  function Haystack(e: Entry): (h: string)
    ensures |h| > |e.number| && h[|e.number|] == ' '
    ensures h[..|e.number|] == e.number
  {
    Join([e.number, Normalize(e.name), Normalize(e.problem),
          Join(NormalizedTags(e.tags), " "), Normalize(e.scale)], " ")
  }

  /** `matches`: a blank query matches nothing; otherwise every
      white-space-separated term of the normalized query must occur in the
      haystack. */
  function Matches(e: Entry, query: string): (r: bool)
    ensures AllSpace(query) ==> !r
  {
    var q := Normalize(Some(query));
    if q == [] then false
    else forall t | t in SplitWs(q) :: Contains(Haystack(e), t)
  }

  /** What `matches` decides, in terms of the words of the lower-cased
      query: the query is not blank, and each of its words occurs in the
      haystack. */
  lemma {:induction false} MatchesSpec(e: Entry, query: string)
    ensures Matches(e, query) <==> !AllSpace(query) && AllWordsIn(Haystack(e), LowerAll(query))
  {
    if !AllSpace(query) {
      TermsContained(Haystack(e), query);
    }
  }

  /** Upper and lower case in the query make no difference. */
  lemma {:induction false} MatchesCaseInsensitive(e: Entry, query: string)
    ensures Matches(e, LowerAll(query)) == Matches(e, query)
  {
    LowerAllIdempotent(query);
  }

  /** White space around the query makes no difference. */
  lemma {:induction false} MatchesPaddingInsensitive(e: Entry, query: string, pre: string, post: string)
    requires AllSpace(pre) && AllSpace(post)
    ensures Matches(e, pre + query + post) == Matches(e, query)
  {
    LowerAllAppend(pre + query, post);
    LowerAllAppend(pre, query);
    assert LowerAll(pre + query + post) == LowerAll(pre) + LowerAll(query) + LowerAll(post);
    BlankLower(pre);
    BlankLower(post);
    AllWordsInPadded(Haystack(e), LowerAll(pre), LowerAll(query), LowerAll(post));
    BlankLower(query);
    BlankLower(pre + query + post);
    MatchesSpec(e, query);
    MatchesSpec(e, pre + query + post);
  }

  /**
   * Terms are conjunctive: once the first part of a query is not blank,
   * joining a second part with a space matches exactly the entries that
   * both parts match (a blank second part changes nothing), so adding a
   * term only narrows the results.
   */
  lemma {:induction false} MatchesConjunctive(e: Entry, q1: string, q2: string)
    requires !AllSpace(q1)
    ensures Matches(e, q1 + " " + q2) <==> Matches(e, q1) && (AllSpace(q2) || Matches(e, q2))
  {
    LowerAllAppend(q1 + " ", q2);
    LowerAllAppend(q1, " ");
    assert LowerAll(" ") == " ";
    assert LowerAll(q1 + " " + q2) == LowerAll(q1) + [' '] + LowerAll(q2);
    AllWordsInJoin(Haystack(e), LowerAll(q1), ' ', LowerAll(q2));
    BlankLower(q2);
    SomeWord(LowerAll(q2));
    assert !AllSpace(q1 + " " + q2) by {
      var i :| 0 <= i < |q1| && !IsSpace(q1[i]);
      assert (q1 + " " + q2)[i] == q1[i];
    }
    MatchesSpec(e, q1);
    MatchesSpec(e, q2);
    MatchesSpec(e, q1 + " " + q2);
  }

  /** Searching for an entry's own number (in lower case, one word) finds
      that entry. */
  lemma {:induction false} NumberFindsEntry(e: Entry)
    requires |e.number| > 0 && LowerAll(e.number) == e.number
    requires forall i | 0 <= i < |e.number| :: !IsSpace(e.number[i])
    ensures Matches(e, e.number)
  {
    var n := e.number;
    var h := Haystack(e);
    assert OccursAt(h, n, 0);
    ContainsIff(h, n);
    forall a, b | IsWord(n, a, b) ensures Contains(h, n[a..b]) {
      assert a == 0 && b == |n|;
      assert n[a..b] == n;
    }
    assert !IsSpace(n[0]);
    MatchesSpec(e, n);
  }

  /** The normalized name follows the number and a space in the haystack. */
  lemma {:induction false} NameInHaystack(e: Entry)
    ensures var h := Haystack(e);
            var nm := Normalize(e.name);
            && |e.number| + 1 + |nm| <= |h|
            && h[|e.number| + 1..|e.number| + 1 + |nm|] == nm
  {
    var nm := Normalize(e.name);
    var rest := [nm, Normalize(e.problem), Join(NormalizedTags(e.tags), " "), Normalize(e.scale)];
    var parts := [e.number] + rest;
    assert parts[1..] == rest;
    var j := Join(rest, " ");
    assert Haystack(e) == e.number + " " + j;
    assert j[..|nm|] == nm;
  }

  /** Searching for one lower-case word that occurs anywhere in an entry's
      haystack finds that entry. */
  lemma {:induction false} HaystackWordFindsEntry(e: Entry, w: string, k: nat)
    requires |w| > 0 && LowerAll(w) == w && NoSpace(w)
    requires OccursAt(Haystack(e), w, k)
    ensures Matches(e, w)
  {
    var h := Haystack(e);
    ContainsIff(h, w);
    forall a, b | IsWord(w, a, b) ensures Contains(h, w[a..b]) {
      assert a == 0 && b == |w|;
      assert w[a..b] == w;
    }
    assert !IsSpace(w[0]);
    MatchesSpec(e, w);
  }

  /** Searching for one word that occurs in an entry's normalized name
      finds that entry. */
  lemma {:induction false} NameWordFindsEntry(e: Entry, w: string, k: nat)
    requires |w| > 0 && LowerAll(w) == w && NoSpace(w)
    requires OccursAt(Normalize(e.name), w, k)
    ensures Matches(e, w)
  {
    var h := Haystack(e);
    var nm := Normalize(e.name);
    var d := |e.number| + 1;
    NameInHaystack(e);
    assert h[d + k..d + k + |w|] == nm[k..k + |w|];
    HaystackWordFindsEntry(e, w, d + k);
  }

  /** A text found inside a part found inside `h` is found inside `h`. */
  lemma OccursInside(h: string, x: string, d: nat, w: string, k: nat)
    requires OccursAt(h, x, d) && OccursAt(x, w, k)
    ensures OccursAt(h, w, d + k)
  {
    forall j | 0 <= j < |w| ensures h[d + k + j] == w[j] {
      assert h[d + k + j] == h[d..d + |x|][k + j];
    }
  }

  /** Every part occurs in the joined text. */
  lemma {:induction false} JoinHasPart(parts: seq<string>, sep: string, i: nat)
    requires i < |parts|
    ensures exists d :: OccursAt(Join(parts, sep), parts[i], d)
    decreases |parts|
  {
    var r := Join(parts, sep);
    if i == 0 {
      assert OccursAt(r, parts[0], 0);
    } else {
      var rest := Join(parts[1..], sep);
      JoinHasPart(parts[1..], sep, i - 1);
      var d :| OccursAt(rest, parts[1..][i - 1], d);
      var pre := parts[0] + sep;
      assert r == pre + rest;
      assert r[|pre| + d..|pre| + d + |parts[i]|] == rest[d..d + |parts[i]|];
      assert OccursAt(r, parts[i], |pre| + d);
    }
  }

  /** Each normalized tag occurs in the haystack. */
  lemma {:induction false} TagInHaystack(e: Entry, i: nat)
    requires i < |NormalizedTags(e.tags)|
    ensures exists d :: OccursAt(Haystack(e), NormalizedTags(e.tags)[i], d)
  {
    var tags := NormalizedTags(e.tags);
    var joined := Join(tags, " ");
    var parts := [e.number, Normalize(e.name), Normalize(e.problem), joined, Normalize(e.scale)];
    JoinHasPart(tags, " ", i);
    var d1 :| OccursAt(joined, tags[i], d1);
    JoinHasPart(parts, " ", 3);
    var d2 :| OccursAt(Join(parts, " "), joined, d2);
    OccursInside(Join(parts, " "), joined, d2, tags[i], d1);
    assert Haystack(e) == Join(parts, " ");
  }

  /** Searching for one word that occurs in one of an entry's normalized
      tags finds that entry. */
  lemma {:induction false} TagWordFindsEntry(e: Entry, w: string, i: nat, k: nat)
    requires |w| > 0 && LowerAll(w) == w && NoSpace(w)
    requires i < |NormalizedTags(e.tags)| && OccursAt(NormalizedTags(e.tags)[i], w, k)
    ensures Matches(e, w)
  {
    var t := NormalizedTags(e.tags)[i];
    TagInHaystack(e, i);
    var d :| OccursAt(Haystack(e), t, d);
    OccursInside(Haystack(e), t, d, w, k);
    HaystackWordFindsEntry(e, w, d + k);
  }

  /** The elements of `xs` that `keep` accepts, in order
      (`Array.prototype.filter`). */
  function Keep<T>(xs: seq<T>, keep: T -> bool): (r: seq<T>)
    ensures |r| <= |xs|
  {
    if |xs| == 0 then []
    else
      var last := xs[|xs| - 1];
      Keep(xs[..|xs| - 1], keep) + if keep(last) then [last] else []
  }

  /** Exactly the accepted elements are kept. */
  lemma {:induction false} KeepMembers<T>(xs: seq<T>, keep: T -> bool)
    ensures forall x | x in Keep(xs, keep) :: x in xs && keep(x)
    ensures forall x | x in xs && keep(x) :: x in Keep(xs, keep)
  {
    if |xs| > 0 {
      var init := xs[..|xs| - 1];
      KeepMembers(init, keep);
      assert xs == init + [xs[|xs| - 1]];
    }
  }

  /** Filtering keeps the order: a split list filters piece by piece. */
  lemma {:induction false} KeepAppend<T>(xs: seq<T>, ys: seq<T>, keep: T -> bool)
    ensures Keep(xs + ys, keep) == Keep(xs, keep) + Keep(ys, keep)
    decreases |ys|
  {
    if |ys| == 0 {
      assert xs + ys == xs;
    } else {
      var zs := xs + ys;
      assert zs[..|zs| - 1] == xs + ys[..|ys| - 1];
      assert zs[|zs| - 1] == ys[|ys| - 1];
      KeepAppend(xs, ys[..|ys| - 1], keep);
    }
  }

  /** The entries of `index` that `query` matches, in index order. */
  function Filter(index: seq<Entry>, query: string): (r: seq<Entry>)
    ensures forall e | e in r :: e in index && Matches(e, query)
    ensures forall e | e in index && Matches(e, query) :: e in r
  {
    KeepMembers(index, e => Matches(e, query));
    Keep(index, e => Matches(e, query))
  }

  /** Filtering the index in two parts gives the parts' results in turn,
      so the results keep the index order. */
  lemma {:induction false} FilterAppend(xs: seq<Entry>, ys: seq<Entry>, query: string)
    ensures Filter(xs + ys, query) == Filter(xs, query) + Filter(ys, query)
  {
    KeepAppend(xs, ys, e => Matches(e, query));
  }

  const SnippetLen: nat := 100
  const MaxResults: nat := 20

  /**
   * The problem line shown under a result: the first 100 characters of the
   * problem, with "..." added when that cut is 100 characters long (so a
   * problem of exactly 100 characters also gets it). A missing or empty
   * problem shows no line.
   */
  function Snippet(problem: Option<string>): (r: Option<string>)
    ensures r.None? <==> problem.None? || problem.value == []
    ensures r.Some? && |problem.value| < SnippetLen ==> r.value == problem.value
    ensures r.Some? && |problem.value| >= SnippetLen ==>
              |r.value| == SnippetLen + 3 && r.value[..SnippetLen] <= problem.value
              && r.value[SnippetLen..] == "..."
  {
    if problem.None? || problem.value == [] then None
    else
      var p := problem.value;
      var cut := if |p| > SnippetLen then p[..SnippetLen] else p;
      Some(if |cut| == SnippetLen then cut + "..." else cut)
  }

  /** One rendered result: a link to the pattern page, with its number,
      name and snippet. */
  datatype Item = Item(href: string, number: string, name: Option<string>, snippet: Option<string>)

  function ItemOf(rootPrefix: string, e: Entry): (it: Item)
    ensures NumberOfHref(rootPrefix, it.href) == Some(e.number)
    ensures it.number == e.number && it.name == e.name && it.snippet == Snippet(e.problem)
  {
    HrefRoundTrip(rootPrefix, e.number);
    Item(PatternHref(rootPrefix, e.number), e.number, e.name, Snippet(e.problem))
  }

  datatype Rendered = NoResults | Results(items: seq<Item>)

  /** `render`: the "No patterns found" message for no results, otherwise
      the first 20 results in order. */
  function Render(results: seq<Entry>, rootPrefix: string): (r: Rendered)
    ensures r.NoResults? <==> results == []
    ensures r.Results? ==> 0 < |r.items| <= MaxResults && |r.items| <= |results|
    ensures r.Results? ==> |r.items| == MaxResults || |r.items| == |results|
    ensures r.Results? ==> forall i | 0 <= i < |r.items| ::
              r.items[i] == ItemOf(rootPrefix, results[i])
  {
    if |results| == 0 then NoResults
    else
      var shown := if |results| > MaxResults then results[..MaxResults] else results;
      Results(seq(|shown|, i requires 0 <= i < |shown| => ItemOf(rootPrefix, shown[i])))
  }

  datatype View = Hidden | Shown(rendered: Rendered)

  /**
   * The input handler: a blank query, or an index that has not loaded,
   * hides the results; otherwise the matching entries are rendered.
   */
  function OnInput(query: string, index: Option<seq<Entry>>, rootPrefix: string): (v: View)
    ensures v.Hidden? <==> AllSpace(query) || index.None?
    ensures v.Shown? ==> v.rendered == Render(Filter(index.value, query), rootPrefix)
  {
    if Trim(query) == [] || index.None? then Hidden
    else Shown(Render(Filter(index.value, query), rootPrefix))
  }

  /** Once shown, the list says "No patterns found" exactly when no entry
      of the index matches. */
  lemma {:induction false} OnInputNoResults(query: string, index: seq<Entry>, rootPrefix: string)
    requires !AllSpace(query)
    ensures var v := OnInput(query, Some(index), rootPrefix);
            && v.Shown?
            && (v.rendered.NoResults? <==> forall e | e in index :: !Matches(e, query))
  {
    var fs := Filter(index, query);
    if fs != [] {
      assert fs[0] in fs;
    }
  }

  /** Otherwise item `i` of the list links to the `i`-th entry of the index
      that the query matches. */
  lemma {:induction false} OnInputItems(query: string, index: seq<Entry>, rootPrefix: string, i: nat)
    requires !AllSpace(query)
    requires var v := OnInput(query, Some(index), rootPrefix);
             v.rendered.Results? && i < |v.rendered.items|
    ensures i < |Filter(index, query)|
    ensures var e := Filter(index, query)[i];
            && e in index && Matches(e, query)
            && OnInput(query, Some(index), rootPrefix).rendered.items[i] == ItemOf(rootPrefix, e)
  {
    var fs := Filter(index, query);
    assert fs[i] in fs;
  }
}
