/** The text drawn under a node: the pattern name, cut to fit. */
module GraphLabel {
  const MaxLabelLen: nat := 22
  const Ellipsis: char := '\U{2026}'

  /**
   * A name of at most 22 characters is drawn as is; a longer one is cut to
   * its first 21 characters followed by an ellipsis, so it still fills
   * exactly 22 characters.
   */
  function Label(name: string): (r: string)
    ensures |r| <= MaxLabelLen
    ensures |name| <= MaxLabelLen ==> r == name
    ensures |name| > MaxLabelLen ==> |r| == MaxLabelLen && r[|r| - 1] == Ellipsis
    ensures |name| > MaxLabelLen ==> r[..|r| - 1] <= name
  {
    if |name| > MaxLabelLen then name[..MaxLabelLen - 1] + [Ellipsis] else name
  }

  /** Names that differ only after their 21st character share a label
      once both are too long. */
  lemma {:induction false} LabelKeepsPrefix(a: string, b: string)
    requires |a| > MaxLabelLen && |b| > MaxLabelLen
    requires a[..MaxLabelLen - 1] == b[..MaxLabelLen - 1]
    ensures Label(a) == Label(b)
  {
  }

  /** A label is a fixed point: labelling it again changes nothing. */
  lemma {:induction false} LabelIdempotent(name: string)
    ensures Label(Label(name)) == Label(name)
  {
  }
}
