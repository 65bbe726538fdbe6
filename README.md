# Awesomeness classifier and example character, in Dafny

This project models the runtime logic of the Open Unreal coding-standard sample module. The module is a style guide written as compilable C++. Its behaviour is small:

- **Classifier.** `AwesomenessLevelFromIntValue` sorts an `int32` score into `NotAwesome`, `SemiAwesome` or `Awesome`. The boundary between the last two is the console variable `ouu.CodingStandard.MinAwesomeness`, which defaults to 100.
- **String conversion.** `LexToString` gives the display names. `TryLexFromString` is a stub that always fails.
- **`FNumericAwesomeness`.** This record holds a number and a reason. Its `==` and `<` look at the number only. Its level is the classifier applied to the number.
- **`AOUUExampleCharacter`.** The character keeps such a record, two body-part colours, a flag and a delegate handle. It owns the `OnAwesomenessChanged` event:
  - `SetAwesomeness` broadcasts on that event only when the level changes.
  - `BeginPlay` binds the character's own listener and `EndPlay` unbinds it.
  - `HasAllColorsPossible` loops over the colour enum range.
  - `ColorBodyPart` sets a flag and reports failure.
- **`TMyContainer`.** This template demands a default slack of at least 8.

Files and modules:

- `awesomeness.dfy` (`Awesomeness`): the `int32` range, `EAwesomenessLevel`, the classifier, the threshold default and accessor, and the string conversion.
- `numeric_awesomeness.dfy` (`NumericAwesomenessRecord`): `FNumericAwesomeness`, its constructors, `==`, `<` and `GetAwesomenessLevel`. Both headers define this record with the same inline logic, so one datatype serves both.
- `body_part_color.dfy` (`BodyPartColors`): `EOUUExampleBodyPartColor` and its enum range.
- `delegates.dfy` (`Delegates`): delegate handles and the `OnAwesomenessChanged` event, a class.
  - The event keeps its listeners as a sequence of handle ids.
  - It keeps every broadcast as a log entry. An entry holds the level sent and the listeners it reached.
- `character.dfy` (`Character`): `AOUUExampleCharacter` as a class, and the pure description of when `SetAwesomeness` broadcasts.
- `templates.dfy` (`Templates`): `TMyContainer`.

The threshold console variable is global mutable state that is read at call time. Every operation that reads it takes its current value as the parameter `minAwesomeness`.

Notes on the source:

- `Source/OUUCodingStandard/Public/OUUCodingStandard.h` does not declare `GetAwesomenessLevel` or `SetAwesomeness` on `AOUUExampleCharacter`. Yet `Source/OUUCodingStandard/Private/OUUCodingStandard.cpp` defines both. The older header `Source/OpenUnrealConventions/Public/OUUCodingStandard.h` declares them (lines 421-422). The model follows the cpp definitions.
- In `ColorBodyPart`, the non-fatal `ensureMsgf` would only report a `Count` colour and let execution go on. A fatal `checkf` on the same condition follows it at once, so a `Count` colour always ends the process. The model therefore has `ColorBodyPart` require a colour other than `Count`.

## Model

| member | source | states |
|---|---|---|
| `Awesomeness.AwesomenessLevelFromIntValue` | Source/OUUCodingStandard/Private/OUUCodingStandard.cpp:253-266 | a negative score is NotAwesome; a score in [0, threshold) is SemiAwesome; any other score is Awesome. The three cases partition all scores, each as an if-and-only-if, and NumOf is never returned |
| `Awesomeness.LevelMonotoneInScore` | Source/OUUCodingStandard/Private/OUUCodingStandard.cpp:257-265 | for a fixed threshold, a higher score never gives a lower level (NotAwesome < SemiAwesome < Awesome) |
| `Awesomeness.LevelAntitoneInThreshold` | Source/OUUCodingStandard/Private/OUUCodingStandard.cpp:262-263 | for a fixed score, a higher threshold never gives a higher level |
| `Awesomeness.GetAwesomenessThreshold` | Source/OUUCodingStandard/Private/OUUCodingStandard.cpp:469-473 | returns the console variable's value unchanged; when that value is not negative, it is the least score classified Awesome |
| `Awesomeness.DefaultThresholdExamples` | Source/OUUCodingStandard/Private/OUUCodingStandard.cpp:48-51 | the default threshold is 100; with it, -5, 0, 99 and 100 classify as NotAwesome, SemiAwesome, SemiAwesome and Awesome |
| `Awesomeness.LexToString` | Source/OUUCodingStandard/Private/OUUCodingStandard.cpp:269-285 | the name is "<invalid>" exactly for the NumOf sentinel |
| `Awesomeness.LexToStringInjective` | Source/OUUCodingStandard/Private/OUUCodingStandard.cpp:274-284 | different levels get different names, so the three literals and the default are all distinct |
| `Awesomeness.ClassifiedLevelHasName` | Source/OUUCodingStandard/Private/OUUCodingStandard.cpp:276-282 | the name of any classifier result is "NotAwesome", "SemiAwesome" or "Awesome", never "<invalid>" |
| `Awesomeness.TryLexFromString` | Source/OUUCodingStandard/Private/OUUCodingStandard.cpp:288 | parsing fails for every string and leaves the out-parameter as passed |
| `Awesomeness.LexRoundTripFails` | Source/OUUCodingStandard/Public/OUUCodingStandard.h:188-192 | parsing a level's own display name also fails, so the declared pair of conversions has no working round trip |
| `NumericAwesomenessRecord.DefaultNumericAwesomeness` | Source/OUUCodingStandard/Public/OUUCodingStandard.h:201-232 | a default-constructed record has number 0 and an empty reason (same in the older header, lines 238-275) |
| `NumericAwesomenessRecord.FromAwesomeness` | Source/OpenUnrealConventions/Public/OUUCodingStandard.h:241-253 | the one-argument constructor stores the number and the reason "unknown reason", as the two-argument constructor would (same in the newer header, lines 204-214) |
| `NumericAwesomenessRecord.GetAwesomenessLevel` | Source/OUUCodingStandard/Public/OUUCodingStandard.h:237-240 | the record's level is the classifier applied to its number, and never NumOf (same in the older header, lines 281-284) |
| `NumericAwesomenessRecord.Equal` | Source/OUUCodingStandard/Public/OUUCodingStandard.h:242-245 | `==` compares the numbers only: two records are equal exactly when they agree once their reasons are made the same, and identical records are always equal (same in the older header, lines 286-289) |
| `NumericAwesomenessRecord.Less` | Source/OUUCodingStandard/Public/OUUCodingStandard.h:247-250 | `<` compares the numbers only, and never holds between records equal under `==` (same in the older header, lines 291-294) |
| `NumericAwesomenessRecord.EqualIgnoresReason` | Source/OUUCodingStandard/Public/OUUCodingStandard.h:242-245 | records with the same number are equal under `==` even when their reasons, and so the records, differ |
| `NumericAwesomenessRecord.EqualIsEquivalence` | Source/OpenUnrealConventions/Public/OUUCodingStandard.h:286-289 | `==` is reflexive, symmetric and transitive |
| `NumericAwesomenessRecord.LessIsStrictOrder` | Source/OUUCodingStandard/Public/OUUCodingStandard.h:247-250 | `<` is irreflexive and transitive |
| `NumericAwesomenessRecord.LessTrichotomy` | Source/OpenUnrealConventions/Public/OUUCodingStandard.h:286-294 | for any two records exactly one of a<b, a==b, b<a holds (same in the newer header, lines 242-250) |
| `NumericAwesomenessRecord.LevelRespectsOrder` | Source/OUUCodingStandard/Public/OUUCodingStandard.h:237-250 | a<b implies level(a) ≤ level(b); a==b implies equal levels |
| `BodyPartColors.EnumRange` | Source/OpenUnrealConventions/Public/OUUCodingStandard.h:126-157 | the range by count has one entry per value below `Count`, the i-th entry having value i (same in the newer header, lines 106-124) |
| `BodyPartColors.EnumRangeIsRedGreenBlue` | Source/OUUCodingStandard/Public/OUUCodingStandard.h:106-124 | the range is exactly Red, Green, Blue in that order and does not contain `Count` |
| `BodyPartColors.TwoSlotsNeverCoverAllColors` | Source/OUUCodingStandard/Public/OUUCodingStandard.h:297 | the character's two body-part slots, head and torso, can never hold all three colours of the range |
| `Templates.Instantiate` | Source/OpenUnrealConventions/Public/OUUCodingStandard.h:311-321 | the template is instantiable only with DefaultSlack ≥ 8, and every instance keeps the slack it was given (same in the newer header, lines 259-269) |
| `Delegates.Without` | Source/OUUCodingStandard/Private/OUUCodingStandard.cpp:376 | removing an id leaves exactly the other listeners and adds none; nothing changes when the id is not bound |
| `Delegates.WithoutSingle` | Source/OUUCodingStandard/Private/OUUCodingStandard.cpp:376 | on a single listener, removal drops it when it has the removed id and keeps it otherwise |
| `Delegates.WithoutConcat` | Source/OUUCodingStandard/Private/OUUCodingStandard.cpp:376 | removal distributes over concatenation, so the remaining listeners keep their multiplicity and their relative order |
| `Delegates.RemoveHandle` | Source/OUUCodingStandard/Private/OUUCodingStandard.cpp:376-377 | a bound handle's listener is gone afterwards, every other listener stays, no listener is added, and a reset handle removes nothing |
| `Delegates.RemoveHandleIdempotent` | Source/OUUCodingStandard/Private/OUUCodingStandard.cpp:376 | removing the same handle twice equals removing it once |
| `Delegates.AwesomenessChangedEvent.constructor` | Source/OUUCodingStandard/Public/OUUCodingStandard.h:292-293 | a new event has no listeners and no broadcasts |
| `Delegates.AwesomenessChangedEvent.Add` | Source/OUUCodingStandard/Private/OUUCodingStandard.cpp:366-367 | binding appends one listener whose handle was not bound before; nothing is broadcast |
| `Delegates.AwesomenessChangedEvent.Remove` | Source/OUUCodingStandard/Private/OUUCodingStandard.cpp:376 | unbinding removes the handle's listener from the list and broadcasts nothing |
| `Delegates.AwesomenessChangedEvent.Broadcast` | Source/OUUCodingStandard/Private/OUUCodingStandard.cpp:333 | one broadcast is logged with the level, reaching all bound listeners; the listener list is unchanged |
| `Character.LevelTransition` | Source/OUUCodingStandard/Private/OUUCodingStandard.cpp:325-334 | a change is announced if and only if the level before differs from the level after, and it carries the new level, which is never NumOf |
| `Character.NoTransitionWithinBand` | Source/OUUCodingStandard/Private/OUUCodingStandard.cpp:330-334 | moving between two semi-awesome scores announces nothing, even though the number changed |
| `Character.CrossingThresholdAnnouncesAwesome` | Source/OUUCodingStandard/Private/OUUCodingStandard.cpp:325-334 | going from a semi-awesome score to one at or above the threshold announces Awesome |
| `Character.TransitionFollowsScore` | Source/OUUCodingStandard/Private/OUUCodingStandard.cpp:325-334 | an announced change never comes from records equal under `==`; a rising score announces a higher level and a falling score a lower one |
| `Character.NotificationsFor` | Source/OUUCodingStandard/Private/OUUCodingStandard.cpp:330-334 | a change causes exactly one broadcast, carrying the new level to the given listeners; no change causes none |
| `Character.ExampleCharacter.constructor` | Source/OUUCodingStandard/Public/OUUCodingStandard.h:344-377 | a fresh character has score 0, a red head and torso, the flag unset, the default record, a reset handle and an event with no listeners |
| `Character.ExampleCharacter.WithHeadColor` | Source/OUUCodingStandard/Private/OUUCodingStandard.cpp:307-314 | the head colour is the one passed in; every other member keeps its default |
| `Character.ExampleCharacter.GetAwesomenessLevel` | Source/OUUCodingStandard/Private/OUUCodingStandard.cpp:317-320 | the character's level is the classifier applied to its record's number |
| `Character.ExampleCharacter.SetAwesomeness` | Source/OUUCodingStandard/Private/OUUCodingStandard.cpp:323-335 | the record becomes (score, "set by SetAwesomeness"). Exactly one broadcast of the new level reaches the bound listeners if and only if the level changed. Listeners and all other fields stay unchanged |
| `Character.ExampleCharacter.HasAllColorsPossible` | Source/OUUCodingStandard/Private/OUUCodingStandard.cpp:338-348 | true if and only if every colour of the enum range is the head or the torso colour; with TwoSlotsNeverCoverAllColors, it is always false |
| `Character.ExampleCharacter.BeginPlay` | Source/OUUCodingStandard/Private/OUUCodingStandard.cpp:351-368 | one new listener is appended, and its handle is stored; nothing is broadcast, and no other field changes |
| `Character.ExampleCharacter.EndPlay` | Source/OUUCodingStandard/Private/OUUCodingStandard.cpp:371-378 | the stored handle's listener is removed from the event and the handle is reset; nothing is broadcast |
| `Character.ExampleCharacter.ColorBodyPart` | Source/OUUCodingStandard/Private/OUUCodingStandard.cpp:381-423 | requires a colour other than `Count` (the fatal check). Sets the flag and returns false. Head and torso colours are unchanged because the assignment is compiled out |
| `Character.EndPlayDetachesListener` | Source/OUUCodingStandard/Private/OUUCodingStandard.cpp:375-377 | after EndPlay, no broadcast of a following SetAwesomeness reaches the listener that BeginPlay bound |

## Left out

- The console variable's registration, its help text and its thread semantics are left out. The threshold is an integer input read at call time.
- `HandleOwnAwesomenessChanged` only writes log messages. A broadcast is recorded as reaching its listeners, and running a listener changes no modelled state.
- Listener code that calls back into the character during a broadcast is not modelled.
- The `IsolatedSamples` namespace has no behaviour, so it is left out. It holds the const-return, parameter-passing, `auto`, lambda, numeric-limits and macro examples.
- Module registration, log categories and all logging are left out. That includes the verbose log in `BeginPlay` and the `ensureMsgf` report in `ColorBodyPart`.
- The constructor's head-mesh subobject creation and attachment, and the skeletal-mesh parameter, are engine object setup and are left out.
- The RPC `_Implementation` stubs, `OnRep_Score` and `GetLifetimeReplicatedProps` are replication and networking, and are left out. `score` is a field that nothing changes.
- The `EndPlayReason` argument of `EndPlay` is not used by the code, so it is left out.
- The `Super::BeginPlay`/`Super::EndPlay` calls go to engine base classes that are not part of this model.
- Engine delegate internals are left out. Handles are ids from a counter in the event object. The engine draws them from a process-wide counter, which gives the same uniqueness.
- `TMyContainer`'s element and allocator type parameters only become type aliases and carry no behaviour, so the model keeps just `DefaultSlack`.
- The C-style enum `ECStyleOUUExampleBodyPartColor` in the older header only illustrates naming and is left out.
- The character class of the older header `Source/OpenUnrealConventions/Public/OUUCodingStandard.h` is not modelled separately; the model follows the newer header and the cpp. The older class differs in more than naming:
  - it declares only the default constructor (line 417), so `WithHeadColor` has no counterpart there;
  - it declares `GetAwesomenessLevel` and `SetAwesomeness` (lines 421-422), which the newer header lacks;
  - its `HandleOwnAwesomenessChanged` is not `const` (line 442);
  - its constants carry a `k_` prefix (lines 403-408) and its fields an `m_` prefix.
- The body-part count and the body-part name constants ("Head", "Body") are not separate members: `ColorBodyPart` never inspects the name, and the two slots are the two colour fields.
- `Delegates.AwesomenessChangedEvent.Broadcast`: the order in which the engine calls the bound listeners is not taken from the source, which only calls the engine's `Broadcast` (`Source/OUUCodingStandard/Private/OUUCodingStandard.cpp:333`). The model appends new listeners at the end and records each broadcast's receivers as the list held at that moment. Only who is reached is meant, not the call order. Likewise the order that engine-side removal leaves behind is not modelled.
- `Awesomeness.LexToString`: a C++ enum class can hold values outside its enumerators, which the `default:` branch names "<invalid>". The model has no such values: all of them are folded into the `NumOf` sentinel.
