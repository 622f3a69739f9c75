/**
 * The JPEG quality parameter: the `-c` range check done by the command line
 * and the default applied when no usable value is given.
 */
module Quality {

  /** An optional value: `None` stands for Python's `None`. */
  datatype Option<T> = None | Some(value: T)

  /** The quality used when no compression value is given. */
  const DefaultQuality: int := 95

  /** The check in `main`: a `-c` value, when present, must lie in [1, 100]. */
  predicate CompressAccepted(compress: Option<int>)
  {
    compress.None? || 1 <= compress.value <= 100
  }

  /**
   * `compress_quality if compress_quality else 95`: Python treats both `None`
   * and `0` as false, so either gives the default.
   */
  function EffectiveQuality(compress: Option<int>): int
  {
    if compress.Some? && compress.value != 0 then compress.value else DefaultQuality
  }

  /**
   * Once the command-line check has passed, the effective quality is a valid
   * JPEG quality, and it is the value the user supplied whenever one was given.
   */
  lemma AcceptedQualityInRange(compress: Option<int>)
    requires CompressAccepted(compress)
    ensures 1 <= EffectiveQuality(compress) <= 100
    ensures compress.Some? ==> EffectiveQuality(compress) == compress.value
    ensures compress.None? ==> EffectiveQuality(compress) == DefaultQuality
  {
  }

  /** The boundaries of the accepted range: 1 and 100 pass, 0 and 101 fail. */
  lemma CompressBoundaries()
    ensures CompressAccepted(Some(1)) && CompressAccepted(Some(100))
    ensures !CompressAccepted(Some(0)) && !CompressAccepted(Some(101))
    ensures CompressAccepted(None) && EffectiveQuality(None) == 95
  {
  }

  /**
   * Called directly, the conversion function also maps an explicit 0 to the
   * default; any other value, in range or not, is used as given.
   */
  lemma EffectiveQualityCases(compress: Option<int>)
    ensures EffectiveQuality(compress) == DefaultQuality <==> (compress.None? || compress.value in {0, DefaultQuality})
    ensures compress.Some? && compress.value != 0 ==> EffectiveQuality(compress) == compress.value
  {
  }
}
