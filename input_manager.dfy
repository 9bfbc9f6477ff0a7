/**
 * src/InputManager.cpp: edge detection on the keyboard and the mouse. Every
 * key and button keeps its state in the previous frame and in this one; a
 * key is toggled when it is down now and was not in the previous frame.
 */
module Input {

  /** GLFW's largest key code (GLFW_KEY_MENU), largest mouse button and release action */
  const GLFW_KEY_LAST: int := 348
  const GLFW_MOUSE_BUTTON_LAST: int := 7
  const GLFW_RELEASE: int := 0

  /** InputState: whether the key was down in the previous frame and whether it is down now */
  datatype InputState = InputState(prev: bool, current: bool)
  {
    predicate Pressed()
    {
      current
    }

    /** Down this frame but not in the previous one */
    predicate Toggled()
    {
      current && !prev
    }

    /** The state carried into the next frame by consolidateKeyStates */
    function Consolidated(): (s: InputState)
      ensures !s.Toggled() && s.Pressed() == Pressed()
    {
      this.(prev := current)
    }

    /** The state after setKeyPressed / setMouseButtonPressed */
    function WithPressed(pressed: bool): (s: InputState)
      ensures s.Pressed() == pressed && s.prev == prev
      ensures s.Toggled() <==> pressed && !prev
    {
      this.(current := pressed)
    }
  }

  /** Both fields start false */
  const Released := InputState(false, false)

  class InputManager {
    const keys: array<InputState>
    const mouseBtns: array<InputState>

    /** One state per key code 0..GLFW_KEY_LAST and per button 0..GLFW_MOUSE_BUTTON_LAST */
    ghost predicate Valid()
    {
      keys.Length == GLFW_KEY_LAST + 1 && mouseBtns.Length == GLFW_MOUSE_BUTTON_LAST + 1
    }

    /** Every key and button starts released, and so none is pressed or toggled */
    constructor ()
      ensures Valid() && fresh(keys) && fresh(mouseBtns)
      ensures forall k | 0 <= k < keys.Length :: keys[k] == Released
      ensures forall b | 0 <= b < mouseBtns.Length :: mouseBtns[b] == Released
    {
      keys := new InputState[GLFW_KEY_LAST + 1](_ => Released);
      mouseBtns := new InputState[GLFW_MOUSE_BUTTON_LAST + 1](_ => Released);
    }

    /** keys_.at(key).current; at() rejects a key outside 0..GLFW_KEY_LAST */
    predicate IsKeyPressed(key: int)
      reads this, keys
      requires Valid() && 0 <= key <= GLFW_KEY_LAST
    {
      keys[key].current
    }

    /** Toggled is the rising edge of the key, and a toggled key is pressed */
    predicate IsKeyToggled(key: int)
      reads this, keys
      requires Valid() && 0 <= key <= GLFW_KEY_LAST
      ensures IsKeyToggled(key) ==> IsKeyPressed(key)
    {
      keys[key].current && !keys[key].prev
    }

    /** mouseBtns_.at(button).current; at() rejects a button outside 0..GLFW_MOUSE_BUTTON_LAST */
    predicate IsMouseButtonPressed(button: int)
      reads this, mouseBtns
      requires Valid() && 0 <= button <= GLFW_MOUSE_BUTTON_LAST
    {
      mouseBtns[button].current
    }

    /** The same rising edge for a mouse button */
    predicate IsMouseButtonToggled(button: int)
      reads this, mouseBtns
      requires Valid() && 0 <= button <= GLFW_MOUSE_BUTTON_LAST
      ensures IsMouseButtonToggled(button) ==> IsMouseButtonPressed(button)
    {
      mouseBtns[button].current && !mouseBtns[button].prev
    }

    /**
     * Copies current into prev for every key and button: what is pressed
     * stays pressed, and nothing is toggled any more.
     */
    method ConsolidateKeyStates()
      requires Valid()
      modifies keys, mouseBtns
      ensures forall k | 0 <= k < keys.Length :: keys[k] == old(keys[k]).Consolidated()
      ensures forall b | 0 <= b < mouseBtns.Length :: mouseBtns[b] == old(mouseBtns[b]).Consolidated()
      ensures forall k | 0 <= k <= GLFW_KEY_LAST :: !IsKeyToggled(k) && IsKeyPressed(k) == old(IsKeyPressed(k))
      ensures forall b | 0 <= b <= GLFW_MOUSE_BUTTON_LAST ::
                !IsMouseButtonToggled(b) && IsMouseButtonPressed(b) == old(IsMouseButtonPressed(b))
    {
      for k := 0 to keys.Length
        invariant forall m | 0 <= m < k :: keys[m] == old(keys[m]).Consolidated()
        invariant forall m | k <= m < keys.Length :: keys[m] == old(keys[m])
        invariant mouseBtns[..] == old(mouseBtns[..])
      {
        keys[k] := keys[k].(prev := keys[k].current);
      }
      for b := 0 to mouseBtns.Length
        invariant forall m | 0 <= m < keys.Length :: keys[m] == old(keys[m]).Consolidated()
        invariant forall m | 0 <= m < b :: mouseBtns[m] == old(mouseBtns[m]).Consolidated()
        invariant forall m | b <= m < mouseBtns.Length :: mouseBtns[m] == old(mouseBtns[m])
      {
        mouseBtns[b] := mouseBtns[b].(prev := mouseBtns[b].current);
      }
    }

    /** Sets only the current state of one key; prev, other keys and the buttons are untouched */
    method SetKeyPressed(key: int, pressed: bool)
      requires Valid() && 0 <= key <= GLFW_KEY_LAST
      modifies keys
      ensures keys[..] == old(keys[..])[key := old(keys[key]).WithPressed(pressed)]
      ensures IsKeyPressed(key) == pressed
    {
      keys[key] := keys[key].(current := pressed);
    }

    /** Sets only the current state of one button; prev, other buttons and the keys are untouched */
    method SetMouseButtonPressed(button: int, pressed: bool)
      requires Valid() && 0 <= button <= GLFW_MOUSE_BUTTON_LAST
      modifies mouseBtns
      ensures mouseBtns[..] == old(mouseBtns[..])[button := old(mouseBtns[button]).WithPressed(pressed)]
      ensures IsMouseButtonPressed(button) == pressed
    {
      mouseBtns[button] := mouseBtns[button].(current := pressed);
    }
  }

  /** Registered managers each own their arrays */
  ghost predicate Registered(instances: seq<InputManager>)
    reads set i | 0 <= i < |instances| :: instances[i]
  {
    && (forall i | 0 <= i < |instances| :: instances[i].Valid())
    && (forall i, j | 0 <= i < j < |instances| :: instances[i].keys != instances[j].keys)
    && (forall i, j | 0 <= i < j < |instances| :: instances[i].mouseBtns != instances[j].mouseBtns)
  }

  /**
   * keyCallback: every registered manager sees the key as pressed unless the
   * action is a release; nothing else of any manager changes.
   */
  method KeyCallback(instances: seq<InputManager>, key: int, action: int)
    requires Registered(instances) && 0 <= key <= GLFW_KEY_LAST
    modifies set i | 0 <= i < |instances| :: instances[i].keys
    ensures forall i | 0 <= i < |instances| ::
              instances[i].keys[..] == old(instances[i].keys[..])[key := old(instances[i].keys[key]).WithPressed(action != GLFW_RELEASE)]
  {
    for n := 0 to |instances|
      invariant forall i | 0 <= i < n ::
                  instances[i].keys[..] == old(instances[i].keys[..])[key := old(instances[i].keys[key]).WithPressed(action != GLFW_RELEASE)]
      invariant forall i | n <= i < |instances| :: instances[i].keys[..] == old(instances[i].keys[..])
    {
      instances[n].SetKeyPressed(key, action != GLFW_RELEASE);
    }
  }

  /** mouseButtonCallback: the same broadcast for a mouse button */
  method MouseButtonCallback(instances: seq<InputManager>, button: int, action: int)
    requires Registered(instances) && 0 <= button <= GLFW_MOUSE_BUTTON_LAST
    modifies set i | 0 <= i < |instances| :: instances[i].mouseBtns
    ensures forall i | 0 <= i < |instances| ::
              instances[i].mouseBtns[..] == old(instances[i].mouseBtns[..])[button := old(instances[i].mouseBtns[button]).WithPressed(action != GLFW_RELEASE)]
  {
    for n := 0 to |instances|
      invariant forall i | 0 <= i < n ::
                  instances[i].mouseBtns[..] == old(instances[i].mouseBtns[..])[button := old(instances[i].mouseBtns[button]).WithPressed(action != GLFW_RELEASE)]
      invariant forall i | n <= i < |instances| :: instances[i].mouseBtns[..] == old(instances[i].mouseBtns[..])
    {
      instances[n].SetMouseButtonPressed(button, action != GLFW_RELEASE);
    }
  }

  /**
   * Frame by frame: the callbacks leave the key down or up, the game reads
   * whether it is toggled, and consolidateKeyStates closes the frame.
   */
  function FrameToggles(s: InputState, downInFrame: seq<bool>): seq<bool>
    decreases |downInFrame|
  {
    if downInFrame == [] then []
    else
      var now := s.WithPressed(downInFrame[0]);
      [now.Toggled()] + FrameToggles(now.Consolidated(), downInFrame[1..])
  }

  /**
   * A press is reported as toggled in exactly one frame: the key is toggled in
   * frame i exactly when it is down in frame i and was up in the frame before
   * (for the first frame, in the state the run starts from).
   */
  lemma {:induction false} ToggledOnlyOnPress(s: InputState, downInFrame: seq<bool>)
    ensures |FrameToggles(s, downInFrame)| == |downInFrame|
    ensures forall i | 0 < i < |downInFrame| ::
              FrameToggles(s, downInFrame)[i] == (downInFrame[i] && !downInFrame[i - 1])
    ensures |downInFrame| > 0 ==> FrameToggles(s, downInFrame)[0] == (downInFrame[0] && !s.prev)
    decreases |downInFrame|
  {
    if downInFrame != [] {
      var now := s.WithPressed(downInFrame[0]);
      var rest := downInFrame[1..];
      ToggledOnlyOnPress(now.Consolidated(), rest);
      var toggles := FrameToggles(s, downInFrame);
      assert toggles == [now.Toggled()] + FrameToggles(now.Consolidated(), rest);
      forall i | 0 < i < |downInFrame|
        ensures toggles[i] == (downInFrame[i] && !downInFrame[i - 1])
      {
        assert toggles[i] == FrameToggles(now.Consolidated(), rest)[i - 1];
        assert downInFrame[i] == rest[i - 1];
        if i == 1 {
          assert now.Consolidated().prev == downInFrame[0];
        } else {
          assert downInFrame[i - 1] == rest[i - 2];
        }
      }
    }
  }
}
