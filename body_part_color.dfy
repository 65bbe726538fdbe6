/**
 * `EOUUExampleBodyPartColor` and the enum range declared for it with
 * `ENUM_RANGE_BY_COUNT`, which iterates the enumerators whose value lies below
 * the value of `Count`.
 */
module BodyPartColors {

  /** The colour presets; `Count` is the hidden count sentinel. */
  datatype BodyPartColor = Red | Green | Blue | Count

  /** The enumerator's underlying `uint8` value, counting from 0. */
  function ColorOrdinal(color: BodyPartColor): nat
  {
    match color
    case Red => 0
    case Green => 1
    case Blue => 2
    case Count => 3
  }

  /** The enumerator with a given underlying value. */
  function ColorFromOrdinal(value: nat): (color: BodyPartColor)
    requires value <= ColorOrdinal(Count)
    ensures ColorOrdinal(color) == value
  {
    if value == 0 then Red
    else if value == 1 then Green
    else if value == 2 then Blue
    else Count
  }

  /** The enum range by count: every value from 0 up to (excluding) `Count`, in order. */
  function EnumRange(): (range: seq<BodyPartColor>)
    ensures |range| == ColorOrdinal(Count)
    ensures forall i :: 0 <= i < |range| ==> ColorOrdinal(range[i]) == i
  {
    seq(ColorOrdinal(Count), i requires 0 <= i < ColorOrdinal(Count) => ColorFromOrdinal(i))
  }

  /** The range is exactly Red, Green, Blue, in that order, and leaves out `Count`. */
  lemma EnumRangeIsRedGreenBlue()
    ensures EnumRange() == [Red, Green, Blue]
    ensures Count !in EnumRange()
  {
    var range := EnumRange();
    assert ColorOrdinal(range[0]) == 0 && ColorOrdinal(range[1]) == 1 && ColorOrdinal(range[2]) == 2;
  }

  /** Every colour of the range shows up in one of two body-part slots. */
  predicate CoversAllColors(head: BodyPartColor, torso: BodyPartColor)
  {
    forall color :: color in EnumRange() ==> color == head || color == torso
  }

  /** Two slots cannot hold the three colours of the range. */
  lemma TwoSlotsNeverCoverAllColors(head: BodyPartColor, torso: BodyPartColor)
    ensures !CoversAllColors(head, torso)
  {
    EnumRangeIsRedGreenBlue();
    assert Red in EnumRange() && Green in EnumRange() && Blue in EnumRange();
  }
}
