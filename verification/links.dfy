/**
 * The link to a pattern's page. Both the graph (on a click) and the search
 * results build it the same way: the site's root prefix, then
 * `pattern/<number>.html`.
 */
module Links {
  import opened Options

  const PagePrefix: string := "pattern/"
  const PageSuffix: string := ".html"

  /** The page of pattern `number` below `rootPrefix`. */
  function PatternHref(rootPrefix: string, number: string): (r: string)
    ensures |r| == |rootPrefix| + |PagePrefix| + |number| + |PageSuffix|
    ensures r[..|rootPrefix|] == rootPrefix
    ensures r[|rootPrefix|..|rootPrefix| + |PagePrefix|] == PagePrefix
    ensures r[|rootPrefix| + |PagePrefix|..|r| - |PageSuffix|] == number
    ensures r[|r| - |PageSuffix|..] == PageSuffix
  {
    rootPrefix + PagePrefix + number + PageSuffix
  }

  /** Reads the pattern number back out of a link built under `rootPrefix`. */
  function NumberOfHref(rootPrefix: string, href: string): (r: Option<string>)
    ensures r.Some? ==> PatternHref(rootPrefix, r.value) == href
  {
    var lo := |rootPrefix| + |PagePrefix|;
    if |href| >= lo + |PageSuffix|
       && href[..|rootPrefix|] == rootPrefix
       && href[|rootPrefix|..lo] == PagePrefix
       && href[|href| - |PageSuffix|..] == PageSuffix
    then
      var number := href[lo..|href| - |PageSuffix|];
      assert href == rootPrefix + PagePrefix + number + PageSuffix by {
        assert href == href[..|rootPrefix|] + href[|rootPrefix|..lo] + href[lo..|href| - |PageSuffix|] + href[|href| - |PageSuffix|..];
      }
      Some(number)
    else None
  }

  /** Every link can be read back: the number is recovered exactly. */
  lemma HrefRoundTrip(rootPrefix: string, number: string)
    ensures NumberOfHref(rootPrefix, PatternHref(rootPrefix, number)) == Some(number)
  {
  }

  /** Under one root prefix, distinct patterns get distinct links. */
  lemma HrefInjective(rootPrefix: string, a: string, b: string)
    requires PatternHref(rootPrefix, a) == PatternHref(rootPrefix, b)
    ensures a == b
  {
    HrefRoundTrip(rootPrefix, a);
    HrefRoundTrip(rootPrefix, b);
  }
}
