/**
 * `AOUUExampleCharacter`: the sample character. It keeps its awesomeness record,
 * two body-part colours and a flag, owns the `OnAwesomenessChanged` event and
 * binds one listener of its own to that event for the time it is in play.
 * The threshold console variable is read at call time; its current value is
 * passed in as `minAwesomeness`.
 */
module Character {
  import opened Awesomeness
  import opened NumericAwesomenessRecord
  import opened BodyPartColors
  import opened Delegates

  datatype Option<T> = None | Some(value: T)

  /** Reason stored by every call of `SetAwesomeness`. */
  const SetAwesomenessReason: string := "set by SetAwesomeness"

  /**
   * The level change that replacing the record `before` by `after` makes under
   * the threshold: the new level when it differs from the old one, none otherwise.
   */
  function LevelTransition(minAwesomeness: Int32, before: NumericAwesomeness, after: NumericAwesomeness): (change: Option<AwesomenessLevel>)
    ensures change.Some? <==> GetAwesomenessLevel(before, minAwesomeness) != GetAwesomenessLevel(after, minAwesomeness)
    ensures change.Some? ==> change.value == GetAwesomenessLevel(after, minAwesomeness) && change.value != NumOf
  {
    var levelBefore := GetAwesomenessLevel(before, minAwesomeness);
    var levelAfter := GetAwesomenessLevel(after, minAwesomeness);
    if levelAfter != levelBefore then Some(levelAfter) else None
  }

  /** Changing the score within one level band announces nothing, even when the number changes. */
  lemma NoTransitionWithinBand(minAwesomeness: Int32, before: NumericAwesomeness, after: NumericAwesomeness)
    requires 0 <= before.awesomeness < minAwesomeness && 0 <= after.awesomeness < minAwesomeness
    ensures LevelTransition(minAwesomeness, before, after) == None
  {
  }

  /** Reaching the threshold from a semi-awesome score announces `Awesome`. */
  lemma CrossingThresholdAnnouncesAwesome(minAwesomeness: Int32, before: NumericAwesomeness, after: NumericAwesomeness)
    requires 0 <= before.awesomeness < minAwesomeness <= after.awesomeness
    ensures LevelTransition(minAwesomeness, before, after) == Some(Awesome)
  {
  }

  /** A rising score can only announce a higher level, a falling one only a lower level. */
  lemma TransitionFollowsScore(minAwesomeness: Int32, before: NumericAwesomeness, after: NumericAwesomeness)
    requires LevelTransition(minAwesomeness, before, after).Some?
    ensures Less(before, after) ==> LevelOrdinal(GetAwesomenessLevel(before, minAwesomeness)) < LevelOrdinal(LevelTransition(minAwesomeness, before, after).value)
    ensures Less(after, before) ==> LevelOrdinal(LevelTransition(minAwesomeness, before, after).value) < LevelOrdinal(GetAwesomenessLevel(before, minAwesomeness))
    ensures !Equal(before, after)
  {
    LevelRespectsOrder(minAwesomeness, before, after);
    LevelRespectsOrder(minAwesomeness, after, before);
  }

  /** The broadcasts a transition causes: one notification of the new level to the given listeners, or none. */
  function NotificationsFor(change: Option<AwesomenessLevel>, listeners: seq<nat>): (sent: seq<Notification>)
    ensures |sent| <= 1
    ensures |sent| == 1 <==> change.Some?
    ensures change.Some? ==> sent[0].level == change.value && sent[0].receivers == listeners
  {
    if change.Some? then [Notification(change.value, listeners)] else []
  }

  class ExampleCharacter {
    /** The character's `OnAwesomenessChanged` event, owned for its whole lifetime. */
    const onAwesomenessChanged: AwesomenessChangedEvent
    /** Replicated score; nothing in the character's own code changes it. */
    var score: Int32
    var headColor: BodyPartColor
    var torsoColor: BodyPartColor
    var wasColorChanged: bool
    var characterData: NumericAwesomeness
    /** Handle of the listener bound in `BeginPlay`, reset in `EndPlay`. */
    var boundDelegateHandle: DelegateHandle

    ghost predicate Valid()
      reads this, onAwesomenessChanged
    {
      onAwesomenessChanged.Valid()
    }

    /** The default constructor: forwards to the other one with a red head. */
    constructor ()
      ensures Valid() && fresh(onAwesomenessChanged)
      ensures score == 0 && headColor == Red && torsoColor == Red && !wasColorChanged
      ensures characterData == DefaultNumericAwesomeness() && boundDelegateHandle == Unbound
      ensures onAwesomenessChanged.listeners == [] && onAwesomenessChanged.broadcasts == []
    {
      onAwesomenessChanged := new AwesomenessChangedEvent();
      score := 0;
      headColor := Red;
      torsoColor := Red;
      wasColorChanged := false;
      characterData := DefaultNumericAwesomeness();
      boundDelegateHandle := Unbound;
    }

    /** The constructor taking a head colour; every other member keeps its default. */
    constructor WithHeadColor(inHeadColor: BodyPartColor)
      ensures Valid() && fresh(onAwesomenessChanged)
      ensures score == 0 && headColor == inHeadColor && torsoColor == Red && !wasColorChanged
      ensures characterData == DefaultNumericAwesomeness() && boundDelegateHandle == Unbound
      ensures onAwesomenessChanged.listeners == [] && onAwesomenessChanged.broadcasts == []
    {
      onAwesomenessChanged := new AwesomenessChangedEvent();
      score := 0;
      headColor := inHeadColor;
      torsoColor := Red;
      wasColorChanged := false;
      characterData := DefaultNumericAwesomeness();
      boundDelegateHandle := Unbound;
    }

    /** The level of the character's record under the current threshold. */
    function GetAwesomenessLevel(minAwesomeness: Int32): (level: AwesomenessLevel)
      reads this
      ensures level == AwesomenessLevelFromIntValue(minAwesomeness, characterData.awesomeness)
      ensures level != NumOf
    {
      NumericAwesomenessRecord.GetAwesomenessLevel(characterData, minAwesomeness)
    }

    /**
     * Replaces the record with the new score and the fixed reason, and broadcasts
     * the new level to the bound listeners exactly when the level changed.
     */
    method SetAwesomeness(minAwesomeness: Int32, awesomeness: Int32)
      requires Valid()
      modifies this, onAwesomenessChanged
      ensures Valid()
      ensures characterData == NumericAwesomeness(awesomeness, SetAwesomenessReason)
      ensures onAwesomenessChanged.broadcasts == old(onAwesomenessChanged.broadcasts)
        + NotificationsFor(LevelTransition(minAwesomeness, old(characterData), characterData), old(onAwesomenessChanged.listeners))
      ensures onAwesomenessChanged.listeners == old(onAwesomenessChanged.listeners)
      ensures onAwesomenessChanged.nextHandleId == old(onAwesomenessChanged.nextHandleId)
      ensures score == old(score) && headColor == old(headColor) && torsoColor == old(torsoColor)
      ensures wasColorChanged == old(wasColorChanged) && boundDelegateHandle == old(boundDelegateHandle)
    {
      var levelBefore := GetAwesomenessLevel(minAwesomeness);
      characterData := NumericAwesomeness(awesomeness, SetAwesomenessReason);
      var newLevel := GetAwesomenessLevel(minAwesomeness);
      if newLevel != levelBefore {
        onAwesomenessChanged.Broadcast(newLevel);
      }
    }

    /** Whether every colour of the enum range is worn by the head or the torso. */
    method HasAllColorsPossible() returns (hasAll: bool)
      ensures hasAll <==> CoversAllColors(headColor, torsoColor)
    {
      var range := EnumRange();
      var i := 0;
      while i < |range|
        invariant 0 <= i <= |range|
        invariant forall j :: 0 <= j < i ==> range[j] == headColor || range[j] == torsoColor
      {
        if headColor != range[i] && torsoColor != range[i] {
          assert range[i] in range;
          return false;
        }
        i := i + 1;
      }
      return true;
    }

    /** Binds the character's own listener to its event and keeps the handle. */
    method BeginPlay()
      requires Valid()
      modifies this, onAwesomenessChanged
      ensures Valid()
      ensures boundDelegateHandle.Bound? && boundDelegateHandle.id !in old(onAwesomenessChanged.listeners)
      ensures onAwesomenessChanged.listeners == old(onAwesomenessChanged.listeners) + [boundDelegateHandle.id]
      ensures onAwesomenessChanged.broadcasts == old(onAwesomenessChanged.broadcasts)
      ensures score == old(score) && headColor == old(headColor) && torsoColor == old(torsoColor)
      ensures wasColorChanged == old(wasColorChanged) && characterData == old(characterData)
    {
      boundDelegateHandle := onAwesomenessChanged.Add();
    }

    /** Unbinds the listener bound in `BeginPlay` and resets the handle. */
    method EndPlay()
      requires Valid()
      modifies this, onAwesomenessChanged
      ensures Valid()
      ensures boundDelegateHandle == Unbound
      ensures onAwesomenessChanged.listeners == RemoveHandle(old(onAwesomenessChanged.listeners), old(boundDelegateHandle))
      ensures onAwesomenessChanged.broadcasts == old(onAwesomenessChanged.broadcasts)
      ensures score == old(score) && headColor == old(headColor) && torsoColor == old(torsoColor)
      ensures wasColorChanged == old(wasColorChanged) && characterData == old(characterData)
    {
      onAwesomenessChanged.Remove(boundDelegateHandle);
      boundDelegateHandle := Unbound;
    }

    /**
     * Colouring a body part ("Head" or "Body"; the name is not inspected): `Count` is
     * a fatal error. The assignment of the colour is compiled out, so only the flag
     * is set and the call reports failure.
     */
    method ColorBodyPart(bodyPartName: string, bodyPartColor: BodyPartColor) returns (colored: bool)
      requires bodyPartColor != Count
      modifies this
      ensures !colored
      ensures wasColorChanged
      ensures headColor == old(headColor) && torsoColor == old(torsoColor)
      ensures score == old(score) && characterData == old(characterData)
      ensures boundDelegateHandle == old(boundDelegateHandle)
    {
      wasColorChanged := true;
      return false;
    }
  }

  /**
   * After `EndPlay`, the listener bound in `BeginPlay` is off the list, so the
   * broadcast of a following `SetAwesomeness` does not reach it.
   */
  method EndPlayDetachesListener(character: ExampleCharacter, minAwesomeness: Int32, awesomeness: Int32)
    requires character.Valid() && character.boundDelegateHandle.Bound?
    modifies character, character.onAwesomenessChanged
    ensures forall k :: |old(character.onAwesomenessChanged.broadcasts)| <= k < |character.onAwesomenessChanged.broadcasts| ==>
      old(character.boundDelegateHandle).id !in character.onAwesomenessChanged.broadcasts[k].receivers
  {
    var detached := character.boundDelegateHandle.id;
    character.EndPlay();
    assert detached !in character.onAwesomenessChanged.listeners;
    character.SetAwesomeness(minAwesomeness, awesomeness);
  }

  /**
   * A worked run of `SetAwesomeness` (OUUCodingStandard.cpp:325-334) with the default
   * threshold of 100 and the character's own listener bound: 50 and then 99 stay
   * semi-awesome and broadcast nothing; 100 crosses the threshold and broadcasts
   * `Awesome` once, to that listener. The colour check of the same character is false.
   */
  method DefaultThresholdScenario()
  {
    var character := new ExampleCharacter();
    character.BeginPlay();
    var listener := character.boundDelegateHandle.id;
    assert character.onAwesomenessChanged.listeners == [listener];
    character.SetAwesomeness(DefaultMinAwesomeness, 50);
    assert character.onAwesomenessChanged.broadcasts == [];
    character.SetAwesomeness(DefaultMinAwesomeness, 99);
    assert character.onAwesomenessChanged.broadcasts == [];
    character.SetAwesomeness(DefaultMinAwesomeness, 100);
    assert character.onAwesomenessChanged.broadcasts == [Notification(Awesome, [listener])];
    var hasAll := character.HasAllColorsPossible();
    TwoSlotsNeverCoverAllColors(character.headColor, character.torsoColor);
    assert !hasAll;
  }
}
