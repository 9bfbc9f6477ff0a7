# OpenAim hit detection and game bookkeeping, in Dafny

OpenAim is an aim trainer. The player looks through a camera and clicks on
targets. This project models the logic layer of OpenAim and proves
properties of it:

- **Ray against box** (`Entities`, src/Entity.cpp). A unit collision box is
  hit by the line of sight. The box is tested against the six planes through
  its two corners, and the nearest point on the ray is kept.
- **Entities.** Obstacles and targets keep their box at their current
  position. A target loses one health point per hit and is sent to
  (0, 0, 15) when no health is left.
- **The entity collection** (`Manager`, src/EntityManager.cpp):
  - A shot is resolved to the first nearest entity.
  - Each frame, every entity is advanced once. A *goner* (an entity type that
    is removed when it dies) is erased. A *mover* (a type that respawns) is
    re-anchored at a random spot.
  - Two spheres are tested for overlap.
- **Fire-rate limiter** (`Weapons`, src/Weapon.cpp). A pistol fires at most
  every 100 ms and never while the button is held. A machine gun fires at
  most every 25 ms.
- **Input edge detection** (`Input`, src/InputManager.cpp). Each key and
  mouse button has a state for the previous frame and one for this frame.
  *Toggled* means down now and up before. The frame is closed by copying this
  frame's state into the previous one. The GLFW callbacks broadcast each
  event to every registered manager.
- **Click resolution in the game** (`GameModel`, src/Game.cpp
  `Game::updateShotEntities`). This is the older copy of the closest-hit
  loop. It also does direct health bookkeeping, a random relocation and the
  counters of shots and hits.
- **Numeric text filter** (`Nuklear`, src/NuklearWrapper.cpp
  `numbersOnlyFilter`). It decides which typed characters a numeric field
  accepts. The field can be edited at the cursor, so the filter keeps the
  field short and numeric, with at most one point. It does not always keep
  a point from coming first.

Shared pieces:

- `Closest` holds the running minimum that all three closest-hit loops
  perform. It uses a strict `<`, so the first of several equal minima wins.
- `Geometry` holds vectors of reals.
- `Colliders` holds the sphere/box collision objects that EntityManager.cpp
  and Game.cpp are written against.

The source files come from different revisions of the program:

- Entity.cpp has `CollisionBox` and `Target`.
- EntityManager.cpp uses `collisionObject()` and the `GONER`/`MOVER` types.
- Weapon.cpp uses `Pistol`/`Machine_Gun`, while Weapon.hpp declares
  `SemiAuto`/`Auto`.

Each file is modelled on its own terms. The state a later revision keeps is
carried as values:

- Entities are datatypes in `Manager` and `GameModel`.
- Calls into code that is not part of this model are function parameters:
  - `collisionObject()->isIntersectedByLine`, given the intersection distance
    it returns.
  - `Entity::update`, given the updated entity and whether it died.

Modelling choices:

- **Distances.** Floats are modelled as reals. Entity.cpp compares
  `glm::distance` values. The model compares squared distances instead, which
  orders points the same way and needs no square root.
- **No best yet.** The `FLT_MAX` starting value of each running minimum
  becomes "no best yet".
- **Zero direction component.** In Entity.cpp, a zero component of the
  direction gives an infinite or NaN `t`. The `t < 0` test or the box test
  then drops that candidate, so the model offers no candidate for that axis.
- **Randomness.** `g_rng->getFloatInRange(lo, hi)` and
  `(float)rand() / RAND_MAX` become methods that return an unspecified value
  of the closed range.
- **The Game relocation range.** The comments in src/Game.cpp:251-252 say
  x is in [-8, 8] and y is in [2, 8]. The code computes
  `rand()/RAND_MAX * 17 - 8` and `* 7 + 2`, which reaches x in [-8, 9] and
  y in [2, 9]. The model follows the code.

## Model

| member | source | states |
|---|---|---|
| Entities.Corners | src/Entity.cpp:12-13 | the two corners sit 0.5 below and 0.5 above the position on every axis |
| Entities.CollisionBox.constructor | src/Entity.cpp:9-14 | a new box is at pos, with its corners at pos ∓ 0.5 |
| Entities.InBoxAxes | src/Entity.cpp:52-57 | the six inclusive comparisons are the same as "between corner 0 and corner 1 on each axis" |
| Entities.CollisionBox.IsPointInPlaneSection | src/Entity.cpp:52-57 | true exactly when the point is within 0.5 of the box position on every axis, borders included |
| Entities.Candidates | src/Entity.cpp:22-38 | the loop considers exactly six candidates, one per corner and axis |
| Entities.CandidateAt | src/Entity.cpp:22-24 | the enumeration order: slot 3v + j is corner v on axis j, so corner 0 on x, y, z comes before corner 1 on x, y, z |
| Entities.PlaneHitSound | src/Entity.cpp:26-38 | every candidate point is ahead of the eye on the ray (t ≥ 0), inside the closed box, and on the plane of its corner and axis |
| Entities.CollisionBox.IsIntersectedByLine | src/Entity.cpp:16-50 | the nested loop returns the first candidate of least distance from the eye, and nothing when there is no candidate |
| Entities.ClosestNoneIff | src/Entity.cpp:16-50 | no point is returned exactly when none of the six corner/axis planes gives a hit |
| Entities.ClosestOnRayInBox | src/Entity.cpp:26-45 | a returned point lies on the ray ahead of the eye, inside the box, and on a face plane of the box |
| Entities.ClosestIsFirstNearest | src/Entity.cpp:19-47 | a returned point is a candidate that no candidate beats on distance, and every candidate before it is strictly farther |
| Entities.HitFrontFace | src/Entity.cpp:16-50 | a unit cube at the origin, seen from (0, 0, 5) looking down -z, is hit at (0, 0, 0.5) and not at its back face |
| Entities.CollisionBox.Move | src/Entity.cpp:59-64 | the box moves to the new position and its corners follow |
| Entities.Entity.Obstacle | src/Entity.cpp:143-149 | an obstacle starts with both positions at pos and no box |
| Entities.Entity.Target | src/Entity.cpp:156-164 | a target starts with both positions at pos, health 1 and a fresh box at pos |
| Entities.Entity.AddCollisionBox | src/Entity.cpp:103-111 | an existing box is kept; otherwise a fresh box is placed at the current position; the positions are unchanged |
| Entities.Entity.Move | src/Entity.cpp:113-120 | the current position becomes the new one and the box follows it; the referential position is untouched |
| Entities.Entity.MoveReferential | src/Entity.cpp:122-126 | both positions become the new one and the box follows |
| Entities.Entity.MoveRelative | src/Entity.cpp:128-131 | the current position becomes referential + offset and the box follows; the referential position is unchanged |
| Entities.Entity.OnHit | src/Entity.cpp:151-173 | obstacles change nothing; a target loses exactly one health point and at 0 or below moves both positions to (0, 0, 15), with health not reset |
| Closest.FirstMin | src/EntityManager.cpp:14-28 | the running minimum ends on an index of a present key, or on none |
| Closest.FirstMinCorrect | src/EntityManager.cpp:14-28 | the running minimum finds nothing exactly when no key is present, and otherwise a key no other key is below and that every earlier key is strictly above |
| Closest.FirstMinUnique | src/EntityManager.cpp:22-26 | the first minimum is unique, so the strict `<` decides ties for the lowest index |
| Closest.FirstMinSnoc | src/EntityManager.cpp:22-27 | one more candidate replaces the best so far exactly when it is present and strictly smaller |
| Manager.Entity.MoveRelative | src/Entity.cpp:128-131 | the current position becomes referential + offset and the collider moves with it, keeping its shape and radius; nothing else changes |
| Manager.EntityManager.AddEntity | src/EntityManager.cpp:6-9 | the entity is appended at the end |
| Manager.EntityManager.constructor | src/EntityManager.hpp:14 | a new manager holds no entities |
| Manager.EntityManager.UpdateShotEntities | src/EntityManager.cpp:11-36 | returns true exactly when the first nearest hit entity is destroyable; then only that entity is marked as damaged this frame; otherwise nothing changes |
| Manager.ShotTargetIsFirstNearest | src/EntityManager.cpp:14-33 | with one intersection query per entity, in collection order: the damaged entity has a minimal hit distance, wins ties by lowest index and is destroyable; no entity is damaged exactly when nothing is hit or the nearest hit is not destroyable |
| Manager.GetFloatInRange | src/RNG.cpp:8-12 | the value lies in the closed range |
| Manager.Respawned | src/EntityManager.cpp:51-56 | a respawned mover has referential and current position (x, y, -8), and its collider moved with it, keeping its shape and radius |
| Manager.StepKept | src/EntityManager.cpp:42-45 | an entity that did not die stays in its slot as updated, and the iterator moves past it |
| Manager.StepErased | src/EntityManager.cpp:48-49 | a goner that died is erased, and the iterator then points at its successor |
| Manager.StepRespawned | src/EntityManager.cpp:50-57 | a mover that died stays in its slot in respawned form, and the iterator moves past it |
| Manager.EntityManager.UpdateEntities | src/EntityManager.cpp:38-60 | each surviving entity holds its update; a died mover is respawned at x in [-8, 8], y in [2, 18], z = -8; died goners are gone |
| Manager.SurvivorsCount | src/EntityManager.cpp:38-60 | the collection shrinks by exactly the number of goners that died this frame |
| Manager.SurvivorsInOrder | src/EntityManager.cpp:38-60 | survivors keep their relative order: they come from strictly increasing old slots, and every skipped slot held a goner that died |
| Manager.AreEntitiesColliding | src/EntityManager.cpp:67-91 | a collision is reported exactly for two spheres whose centres are closer than the sum of the radii; the penetration is positive and the normal points from the first centre to the second |
| Manager.CollidingBySquares | src/EntityManager.cpp:73-88 | without the square root: a collision is reported exactly for two spheres whose radii sum is positive and whose squared centre distance is below the squared radii sum |
| Manager.CollidingSymmetric | src/EntityManager.cpp:67-91 | swapping the entities gives the same verdict and penetration, with the normal reversed |
| Weapons.Index | src/Weapon.hpp:10-14 | each weapon type has a slot in the delay table |
| Weapons.DelayMs | src/Weapon.hpp:23-24 | every delay is positive |
| Weapons.Fires | src/Weapon.cpp:5-22 | a held pistol never fires; an unheld pistol fires once 100 ms have passed; the machine gun ignores the hold flag and fires once 25 ms have passed; a weapon last fired at 0 fires only at or after its delay |
| Weapons.Weapon.constructor | src/Weapon.hpp:18-26 | a new weapon is a pistol that last fired at time 0 |
| Weapons.Weapon.TryShoot | src/Weapon.cpp:5-22 | fires exactly when the rule allows; a shot records the current time, and a refusal changes nothing |
| Weapons.FiredAfterDelay | src/Weapon.cpp:11-18 | over any run of calls, every shot comes at least one delay after the last shot before the run; from a fresh weapon, even the first shot waits for the delay |
| Weapons.ShotsSpaced | src/Weapon.cpp:11-18 | over any run of calls, any two accepted shots are at least the delay apart |
| Input.InputState.Consolidated | src/InputManager.cpp:44-54 | after consolidation a state is not toggled and is pressed as before |
| Input.InputState.WithPressed | src/InputManager.cpp:62-70 | setting the current state keeps prev; the state is toggled exactly when set down while prev was up |
| Input.InputManager.constructor | src/InputManager.hpp:18-21 | every key and button starts with both fields false |
| Input.InputManager.IsKeyPressed | src/InputManager.cpp:15-18 | a pure read, defined only for key codes 0..GLFW_KEY_LAST, the range `at()` accepts; its value after a change is given by SetKeyPressed (pressed exactly as set) and ConsolidateKeyStates (unchanged) |
| Input.InputManager.IsKeyToggled | src/InputManager.cpp:20-23 | a toggled key is pressed |
| Input.InputManager.IsMouseButtonPressed | src/InputManager.cpp:25-28 | a pure read, defined only for buttons 0..GLFW_MOUSE_BUTTON_LAST, the range `at()` accepts; its value after a change is given by SetMouseButtonPressed (pressed exactly as set) and ConsolidateKeyStates (unchanged) |
| Input.InputManager.IsMouseButtonToggled | src/InputManager.cpp:30-34 | a toggled button is pressed |
| Input.InputManager.ConsolidateKeyStates | src/InputManager.cpp:44-54 | prev := current for every key and button; afterwards nothing is toggled and what was pressed is still pressed |
| Input.InputManager.SetKeyPressed | src/InputManager.cpp:62-65 | only the current state of that key changes; all prev fields, the other keys and the buttons keep their state |
| Input.InputManager.SetMouseButtonPressed | src/InputManager.cpp:67-70 | only the current state of that button changes; the keys and the other buttons keep their state |
| Input.KeyCallback | src/InputManager.cpp:78-85 | every registered manager gets the key set to pressed exactly when the action is not a release, and nothing else changes |
| Input.MouseButtonCallback | src/InputManager.cpp:87-94 | every registered manager gets the button set to pressed exactly when the action is not a release, and nothing else changes |
| Input.ToggledOnlyOnPress | src/InputManager.cpp:20-54 | frame by frame, a key is toggled in a frame exactly when it is down in that frame and was up in the previous one, so one press is reported once |
| GameModel.GameEntity.Moved | src/Entity.cpp:113-120 | the entity and its collider go to the new position, the collider keeping its shape and radius; health and destroyability are unchanged |
| GameModel.ClickTargetIsFirstNearest | src/Game.cpp:229-247 | with one intersection query per entity along the camera's line of sight, in collection order: the damaged entity has a minimal hit distance, wins ties by lowest index and is destroyable; no entity is damaged exactly when nothing is hit or the nearest hit is not destroyable |
| GameModel.RandFraction | src/Game.cpp:251-252 | rand() / RAND_MAX lies in [0, 1] |
| GameModel.Game.constructor | src/Game.hpp:73-74 | both counters start at 0 |
| GameModel.Game.UpdateShotEntities | src/Game.cpp:223-260 | a collision object on every entity is needed only when there is a fresh left click; without one nothing changes; otherwise totalShots goes up by one, and shotsHit goes up by one exactly when the first nearest hit is destroyable; only that entity changes; it loses one health point, and at 0 or below it moves to x in [-8, 9], y in [2, 9], z = -8 without a health reset; shotsHit ≤ totalShots is kept |
| Nuklear.Accepts | src/NuklearWrapper.cpp:238-251 | nothing is accepted past three characters; a digit is accepted exactly up to three; a point is accepted exactly when the text is non-empty, at most three long and has no point yet; anything else never |
| Nuklear.NumbersOnlyFilter | src/NuklearWrapper.cpp:232-252 | the scan for an existing point gives the decision that Accepts describes |
| Nuklear.ApplyKeepsFieldNumber | src/NuklearWrapper.cpp:226-252 | one edit of the field (a character typed at the cursor or over a selection, checked by the filter against the whole text, or an erasure) keeps it at most four characters long, made of digits and points, with at most one point |
| Nuklear.EditedIsFieldNumber | src/NuklearWrapper.cpp:226-252 | any run of such edits on an empty field leaves at most four characters, only digits and points, and at most one point |
| Nuklear.LeadingPointAtCursor | src/NuklearWrapper.cpp:238-240 | typing "1", "2" and then a point at the start of the field gives ".12": the filter refuses a leading point only in an empty field |
| Nuklear.TypedIsWellFormed | src/NuklearWrapper.cpp:232-252 | characters appended at the end only, with no deletion or cursor movement, leave a field that also has no leading point |

## Left out

- Rendering, shaders, models, sprites, the camera, the window, the GUI layout and sound are left out. They are I/O. The sound cues in `tryShoot` (src/Weapon.cpp:12-16) are dropped.
- IEEE float effects are left out: rounding, infinities, NaN, and `glm::distance`'s square root. Coordinates, times and distances are reals.
- Manager.AreEntitiesColliding: the centre distance is given as a parameter `dist`, with `dist ≥ 0` and `dist² = DistSq`. It is not computed, because reals have no square root here.
- The 32-bit `int` counters `m_shotsHit`/`m_totalShots` and the `int` health are modelled as unbounded integers. This leaves out their wrap-around after 2³¹ shots.
- Exceptions from `std::array::at` are left out. Key and button indices outside 0..348 and 0..7 are excluded by preconditions. GLFW can report `GLFW_KEY_UNKNOWN` (-1), and the program would throw on it.
- The GLFW constants are fixed at GLFW 3's values: `GLFW_KEY_LAST` = 348, `GLFW_MOUSE_BUTTON_LAST` = 7, `GLFW_RELEASE` = 0, `GLFW_MOUSE_BUTTON_LEFT` = 0. The GLFW headers are not part of this model.
- `getCursorPos`, `setCursorPos` and `setupInputCallbacks` are left out. They call into GLFW.
- The static `instances_` list is an explicit sequence of managers passed to the callbacks. Registration in the constructor is left out.
- Manager.EntityManager.UpdateEntities requires that an entity that dies is a goner or a mover. For any other type, the source loop neither advances nor erases, and it updates the same entity again.
- The later-revision `CollisionObject` classes, `Entity::update` and `isIntersectedByLine` for spheres are not part of this model. They enter as function parameters.
- The Entity.cpp collision box lives in an `optional` by value. The model gives an entity its own freshly allocated `CollisionBox` object, which nothing else aliases.
- Nuklear.NumbersOnlyFilter works on characters. Nuklear hands it a rune and the text as bytes. The filter itself only accepts ASCII digits and points. Text that reaches the field some other way (a paste, or an initial buffer) is not modelled, and neither is its byte encoding.
- Nuklear's edit widget (nuklear.h) is not part of this model. The field is modelled by `Nuklear.Edit`: typing at the cursor or over a selection, and erasing. Pasting, undo and the widget's own length limit are left out.
- Nuklear.TypedIsWellFormed: the no-leading-point property is proved only for characters appended at the end, with no deletion or cursor movement. With cursor edits only the weaker Nuklear.EditedIsFieldNumber holds, and Nuklear.LeadingPointAtCursor shows a leading point getting in.
- Weapons: the weapon type is named `Pistol`/`MachineGun`, as in Weapon.cpp, at delay-table indices 0 and 1. These are Weapon.hpp's `SemiAuto`/`Auto`.
