/**
 * The awesomeness classifier of the coding-standard sample module: an `int32`
 * score is sorted into one of three ordered levels by a single threshold, the
 * console variable `ouu.CodingStandard.MinAwesomeness`. The console variable is
 * process-wide mutable configuration; here its current value is passed in
 * explicitly as `minAwesomeness`.
 */
module Awesomeness {

  /** Values of a C++ `int32`. No arithmetic is done on them, so no wrap-around arises. */
  type Int32 = x: int | -0x8000_0000 <= x < 0x8000_0000

  /** `EAwesomenessLevel`; `NumOf` is the count sentinel, not a real level. */
  datatype AwesomenessLevel = NotAwesome | SemiAwesome | Awesome | NumOf

  /** The enumerator's underlying value: an enum class without explicit values counts from 0. */
  function LevelOrdinal(level: AwesomenessLevel): nat
  {
    match level
    case NotAwesome => 0
    case SemiAwesome => 1
    case Awesome => 2
    case NumOf => 3
  }

  /** The order NotAwesome < SemiAwesome < Awesome, taken from the enumerators' values. */
  predicate LevelAtMost(a: AwesomenessLevel, b: AwesomenessLevel)
  {
    LevelOrdinal(a) <= LevelOrdinal(b)
  }

  /** Value the threshold console variable `ouu.CodingStandard.MinAwesomeness` starts with. */
  const DefaultMinAwesomeness: Int32 := 100

  /**
   * `AwesomenessLevelFromIntValue`: negative scores are not awesome, scores from 0
   * up to (excluding) the threshold are semi-awesome, everything else is awesome.
   * The three levels partition all scores; `NumOf` is never produced.
   */
  function AwesomenessLevelFromIntValue(minAwesomeness: Int32, awesomeness: Int32): (level: AwesomenessLevel)
    ensures level != NumOf
    ensures level == NotAwesome <==> awesomeness < 0
    ensures level == SemiAwesome <==> 0 <= awesomeness < minAwesomeness
    ensures level == Awesome <==> 0 <= awesomeness && minAwesomeness <= awesomeness
  {
    if awesomeness < 0 then NotAwesome
    else if awesomeness < minAwesomeness then SemiAwesome
    else Awesome
  }

  /** For a fixed threshold, a higher score never gives a lower level. */
  lemma LevelMonotoneInScore(minAwesomeness: Int32, a: Int32, b: Int32)
    requires a <= b
    ensures LevelAtMost(AwesomenessLevelFromIntValue(minAwesomeness, a), AwesomenessLevelFromIntValue(minAwesomeness, b))
  {
  }

  /** For a fixed score, raising the threshold never gives a higher level. */
  lemma LevelAntitoneInThreshold(lower: Int32, higher: Int32, awesomeness: Int32)
    requires lower <= higher
    ensures LevelAtMost(AwesomenessLevelFromIntValue(higher, awesomeness), AwesomenessLevelFromIntValue(lower, awesomeness))
  {
  }

  /**
   * `GetAwesomenessThreshold` hands out the console variable's current value
   * unchanged; when it is not negative, it is the least score classified as awesome.
   */
  function GetAwesomenessThreshold(minAwesomeness: Int32): (threshold: Int32)
    ensures threshold == minAwesomeness
    ensures 0 <= threshold ==> AwesomenessLevelFromIntValue(minAwesomeness, threshold) == Awesome
    ensures 0 < threshold ==> AwesomenessLevelFromIntValue(minAwesomeness, threshold - 1) == SemiAwesome
  {
    minAwesomeness
  }

  /** With the default threshold of 100: -5, 0, 99 and 100 give NotAwesome, SemiAwesome, SemiAwesome, Awesome. */
  lemma DefaultThresholdExamples()
    ensures GetAwesomenessThreshold(DefaultMinAwesomeness) == 100
    ensures AwesomenessLevelFromIntValue(DefaultMinAwesomeness, -5) == NotAwesome
    ensures AwesomenessLevelFromIntValue(DefaultMinAwesomeness, 0) == SemiAwesome
    ensures AwesomenessLevelFromIntValue(DefaultMinAwesomeness, 99) == SemiAwesome
    ensures AwesomenessLevelFromIntValue(DefaultMinAwesomeness, 100) == Awesome
  {
  }

  /** `LexToString`: the display name of a level; anything that is not a real level is "<invalid>". */
  function LexToString(level: AwesomenessLevel): (name: string)
    ensures name == "<invalid>" <==> level == NumOf
  {
    match level
    case NotAwesome => "NotAwesome"
    case SemiAwesome => "SemiAwesome"
    case Awesome => "Awesome"
    case _ => "<invalid>"
  }

  /** Different levels have different display names. */
  lemma LexToStringInjective(a: AwesomenessLevel, b: AwesomenessLevel)
    requires LexToString(a) == LexToString(b)
    ensures a == b
  {
  }

  /** A level produced by the classifier always has a proper display name. */
  lemma ClassifiedLevelHasName(minAwesomeness: Int32, awesomeness: Int32)
    ensures LexToString(AwesomenessLevelFromIntValue(minAwesomeness, awesomeness)) in ["NotAwesome", "SemiAwesome", "Awesome"]
  {
  }

  /** Outcome of `TryLexFromString`: whether parsing succeeded, and the out-parameter afterwards. */
  datatype LexResult = LexResult(parsed: bool, outLevel: AwesomenessLevel)

  /**
   * `TryLexFromString` is a stub: it reports failure for every string and leaves
   * the out-parameter as the caller passed it.
   */
  function TryLexFromString(outLevel: AwesomenessLevel, text: string): (result: LexResult)
    ensures !result.parsed
    ensures result.outLevel == outLevel
  {
    LexResult(false, outLevel)
  }

  /** Display names do not parse back: the string conversion has no working inverse. */
  lemma LexRoundTripFails(outLevel: AwesomenessLevel, level: AwesomenessLevel)
    ensures TryLexFromString(outLevel, LexToString(level)) == LexResult(false, outLevel)
  {
  }
}
