/**
 * `FNumericAwesomeness`: the record a character keeps of how awesome it is. It
 * pairs a number with a reason; comparison looks at the number only, and the
 * level is derived from the number by the classifier. Both versions of the
 * header define this record with the same inline logic.
 */
module NumericAwesomenessRecord {
  import opened Awesomeness

  /** The two-argument constructor stores both values as given. */
  datatype NumericAwesomeness = NumericAwesomeness(awesomeness: Int32, awesomenessReason: string)

  /** Reason the one-argument constructor fills in. */
  const UnknownReason: string := "unknown reason"

  /** The defaulted constructor: both members keep their in-class initialisers. */
  function DefaultNumericAwesomeness(): (data: NumericAwesomeness)
    ensures data.awesomeness == 0 && data.awesomenessReason == ""
  {
    NumericAwesomeness(0, "")
  }

  /** The explicit one-argument constructor delegates with the reason "unknown reason". */
  function FromAwesomeness(awesomeness: Int32): (data: NumericAwesomeness)
    ensures data.awesomeness == awesomeness
    ensures data.awesomenessReason == UnknownReason
  {
    NumericAwesomeness(awesomeness, UnknownReason)
  }

  /**
   * `operator==`: compares the numbers only, so two records are equal exactly when
   * they agree once their reasons are replaced by the same one.
   */
  function Equal(lhs: NumericAwesomeness, rhs: NumericAwesomeness): (equal: bool)
    ensures equal <==> FromAwesomeness(lhs.awesomeness) == FromAwesomeness(rhs.awesomeness)
    ensures lhs == rhs ==> equal
  {
    lhs.awesomeness == rhs.awesomeness
  }

  /** `operator<`: compares the numbers only and never holds between equal records. */
  function Less(lhs: NumericAwesomeness, rhs: NumericAwesomeness): (less: bool)
    ensures less <==> lhs.awesomeness < rhs.awesomeness
    ensures less ==> !Equal(lhs, rhs)
  {
    lhs.awesomeness < rhs.awesomeness
  }

  /** `GetAwesomenessLevel`: the classifier applied to the number, under the current threshold. */
  function GetAwesomenessLevel(data: NumericAwesomeness, minAwesomeness: Int32): (level: AwesomenessLevel)
    ensures level == AwesomenessLevelFromIntValue(minAwesomeness, data.awesomeness)
    ensures level != NumOf
  {
    AwesomenessLevelFromIntValue(minAwesomeness, data.awesomeness)
  }

  /** Records with the same number are equal even when their reasons, and so the records themselves, differ. */
  lemma EqualIgnoresReason(awesomeness: Int32, reason: string, otherReason: string)
    ensures Equal(NumericAwesomeness(awesomeness, reason), NumericAwesomeness(awesomeness, otherReason))
    ensures reason != otherReason ==> NumericAwesomeness(awesomeness, reason) != NumericAwesomeness(awesomeness, otherReason)
  {
  }

  /** `==` is an equivalence relation. */
  lemma EqualIsEquivalence(a: NumericAwesomeness, b: NumericAwesomeness, c: NumericAwesomeness)
    ensures Equal(a, a)
    ensures Equal(a, b) ==> Equal(b, a)
    ensures Equal(a, b) && Equal(b, c) ==> Equal(a, c)
  {
  }

  /** `<` is a strict order: irreflexive and transitive. */
  lemma LessIsStrictOrder(a: NumericAwesomeness, b: NumericAwesomeness, c: NumericAwesomeness)
    ensures !Less(a, a)
    ensures Less(a, b) && Less(b, c) ==> Less(a, c)
  {
  }

  /** Exactly one of `a < b`, `a == b`, `b < a` holds. */
  lemma LessTrichotomy(a: NumericAwesomeness, b: NumericAwesomeness)
    ensures Less(a, b) || Equal(a, b) || Less(b, a)
    ensures !(Less(a, b) && Equal(a, b))
    ensures !(Less(a, b) && Less(b, a))
    ensures !(Equal(a, b) && Less(b, a))
  {
  }

  /** The level respects the record order: a smaller record never has a higher level, equal records share a level. */
  lemma LevelRespectsOrder(minAwesomeness: Int32, a: NumericAwesomeness, b: NumericAwesomeness)
    ensures Less(a, b) ==> LevelAtMost(GetAwesomenessLevel(a, minAwesomeness), GetAwesomenessLevel(b, minAwesomeness))
    ensures Equal(a, b) ==> GetAwesomenessLevel(a, minAwesomeness) == GetAwesomenessLevel(b, minAwesomeness)
  {
    if Less(a, b) {
      LevelMonotoneInScore(minAwesomeness, a.awesomeness, b.awesomeness);
    }
  }
}
