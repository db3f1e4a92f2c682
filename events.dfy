/**
 * Events and the per-frame input state (rml_core/src/events.rs). The polling of
 * the windowing library is replaced by an `InputSample` handed to `UpdateFromInput`.
 */
module Events {
  import opened Wrappers

  /** The windowing library's mouse buttons; only the first three are polled. */
  datatype MouseButton = Left | Right | Middle | Unknown

  /** Key codes are opaque. */
  type KeyCode = nat

  /** `SystemEvent`: every variant carries the node it is addressed to. */
  datatype SystemEvent =
    | MouseMove(nodeId: nat, x: real, y: real, deltaX: real, deltaY: real)
    | MouseWheel(nodeId: nat, deltaX: real, deltaY: real)
    | MouseEnter(nodeId: nat)
    | MouseLeave(nodeId: nat)
    | MouseDown(nodeId: nat, button: MouseButton, x: real, y: real)
    | MouseUp(nodeId: nat, button: MouseButton, x: real, y: real)
    | Click(nodeId: nat, button: MouseButton, x: real, y: real)
    | WindowResize(nodeId: nat, width: real, height: real)
    | WindowFocus(nodeId: nat)
    | WindowLostFocus(nodeId: nat)
    | KeyDown(nodeId: nat, key: KeyCode)
    | KeyUp(nodeId: nat, key: KeyCode)
    | KeyPressed(nodeId: nat, key: KeyCode)

  /** `EventType`: the payload-free kind of an event. */
  datatype EventType =
    | KeyDown | KeyUp | KeyPressed
    | MouseDown | MouseUp | MouseMove | MouseWheel | MouseEnter | MouseLeave | Click
    | WindowResize | WindowFocus | WindowLostFocus

  /** `SystemEvent::event_type`: each variant maps to its same-named kind. */
  function EventTypeOf(e: SystemEvent): (r: EventType)
    ensures r == EventType.MouseMove <==> e.MouseMove?
    ensures r == EventType.MouseWheel <==> e.MouseWheel?
    ensures r == EventType.MouseEnter <==> e.MouseEnter?
    ensures r == EventType.MouseLeave <==> e.MouseLeave?
    ensures r == EventType.MouseDown <==> e.MouseDown?
    ensures r == EventType.MouseUp <==> e.MouseUp?
    ensures r == EventType.Click <==> e.Click?
    ensures r == EventType.WindowResize <==> e.WindowResize?
    ensures r == EventType.WindowFocus <==> e.WindowFocus?
    ensures r == EventType.WindowLostFocus <==> e.WindowLostFocus?
    ensures r == EventType.KeyDown <==> e.KeyDown?
    ensures r == EventType.KeyUp <==> e.KeyUp?
    ensures r == EventType.KeyPressed <==> e.KeyPressed?
  {
    match e
    case KeyDown(_, _) => EventType.KeyDown
    case KeyUp(_, _) => EventType.KeyUp
    case KeyPressed(_, _) => EventType.KeyPressed
    case MouseDown(_, _, _, _) => EventType.MouseDown
    case MouseUp(_, _, _, _) => EventType.MouseUp
    case MouseMove(_, _, _, _, _) => EventType.MouseMove
    case MouseWheel(_, _, _) => EventType.MouseWheel
    case MouseEnter(_) => EventType.MouseEnter
    case MouseLeave(_) => EventType.MouseLeave
    case Click(_, _, _, _) => EventType.Click
    case WindowResize(_, _, _) => EventType.WindowResize
    case WindowFocus(_) => EventType.WindowFocus
    case WindowLostFocus(_) => EventType.WindowLostFocus
  }

  /** `EventHandler`: a registration of a callback for one kind of event on one node. */
  datatype EventHandler = EventHandler(callbackId: nat, eventType: EventType, nodeId: nat)

  /** The handlers that `keep` accepts, in registration order. */
  function Select(hs: seq<EventHandler>, keep: EventHandler -> bool): (r: seq<EventHandler>)
    ensures |r| <= |hs|
    ensures forall h :: h in r <==> h in hs && keep(h)
  {
    if hs == [] then []
    else
      var rest := Select(hs[..|hs| - 1], keep);
      var h := hs[|hs| - 1];
      assert hs == hs[..|hs| - 1] + [h];
      if keep(h) then rest + [h] else rest
  }

  /** Selection keeps registration order: it distributes over concatenation. */
  lemma {:induction false} SelectAppend(a: seq<EventHandler>, b: seq<EventHandler>, keep: EventHandler -> bool)
    ensures Select(a + b, keep) == Select(a, keep) + Select(b, keep)
    decreases |b|
  {
    if b == [] {
      assert a + b == a;
    } else {
      var b' := b[..|b| - 1];
      assert (a + b)[..|a + b| - 1] == a + b';
      SelectAppend(a, b', keep);
    }
  }

  /** Registering a handler adds it at the end of every selection that accepts it, so duplicates are seen twice. */
  lemma HandlersAfterAdd(hs: seq<EventHandler>, h: EventHandler, keep: EventHandler -> bool)
    ensures Select(hs + [h], keep) == Select(hs, keep) + (if keep(h) then [h] else [])
  {
    SelectAppend(hs, [h], keep);
    assert [h][..0] == [];
  }

  /** The handlers for node `n` and kind `t`. */
  function ForNode(n: nat, t: EventType): EventHandler -> bool {
    (h: EventHandler) => h.nodeId == n && h.eventType == t
  }

  /** The handlers for kind `t` on any node. */
  function ForEvent(t: EventType): EventHandler -> bool {
    (h: EventHandler) => h.eventType == t
  }

  /** What the windowing library reports for one frame. */
  datatype InputSample = InputSample(
    mouseX: real, mouseY: real,
    pressed: set<MouseButton>, released: set<MouseButton>,
    wheelX: real, wheelY: real,
    keysPressed: seq<KeyCode>, keysDown: seq<KeyCode>, keysReleased: seq<KeyCode>,
    screenWidth: real, screenHeight: real)

  /** The buttons polled each frame, in polling order. */
  const PolledButtons: seq<MouseButton> := [Left, Right, Middle]

  /** A move event exactly when the position changed; it is addressed to node 0. */
  function MoveEvents(prevX: real, prevY: real, x: real, y: real): (r: seq<SystemEvent>)
    ensures |r| <= 1
    ensures |r| == 1 <==> x != prevX || y != prevY
    ensures |r| == 1 ==> r[0] == SystemEvent.MouseMove(0, x, y, x - prevX, y - prevY)
  {
    var dx := x - prevX;
    var dy := y - prevY;
    if dx != 0.0 || dy != 0.0 then [SystemEvent.MouseMove(0, x, y, dx, dy)] else []
  }

  /** Per button in order: a press gives `MouseDown`; a release gives `MouseUp` then `Click`. */
  function ButtonEvents(buttons: seq<MouseButton>, pressed: set<MouseButton>, released: set<MouseButton>,
                        x: real, y: real): seq<SystemEvent>
  {
    if buttons == [] then []
    else
      var b := buttons[|buttons| - 1];
      ButtonEvents(buttons[..|buttons| - 1], pressed, released, x, y)
        + (if b in pressed then [SystemEvent.MouseDown(0, b, x, y)] else [])
        + (if b in released then [SystemEvent.MouseUp(0, b, x, y), SystemEvent.Click(0, b, x, y)] else [])
  }

  /** The pressed-button set after the button loop. */
  function PressedAfter(s: set<MouseButton>, buttons: seq<MouseButton>,
                        pressed: set<MouseButton>, released: set<MouseButton>): set<MouseButton>
  {
    if buttons == [] then s
    else
      var b := buttons[|buttons| - 1];
      var s' := PressedAfter(s, buttons[..|buttons| - 1], pressed, released);
      var s'' := if b in pressed then s' + {b} else s';
      if b in released then s'' - {b} else s''
  }

  /** A wheel event exactly when either wheel delta is nonzero. */
  function WheelEvents(wx: real, wy: real): (r: seq<SystemEvent>)
    ensures |r| == 1 <==> wx != 0.0 || wy != 0.0
    ensures |r| <= 1 && (|r| == 1 ==> r[0] == SystemEvent.MouseWheel(0, wx, wy))
  {
    if wx != 0.0 || wy != 0.0 then [SystemEvent.MouseWheel(0, wx, wy)] else []
  }

  /** Key events: all presses, then all held keys, then all releases, each in reported order. */
  function KeyEvents(kp: seq<KeyCode>, kd: seq<KeyCode>, kr: seq<KeyCode>): seq<SystemEvent> {
    KeyRun(kp, Pressed) + KeyRun(kd, Held) + KeyRun(kr, Released)
  }

  /** Which of the three key queries a key came from. */
  datatype KeyPhase = Pressed | Held | Released

  function KeyEvent(k: KeyCode, phase: KeyPhase): SystemEvent {
    match phase
    case Pressed => SystemEvent.KeyPressed(0, k)
    case Held => SystemEvent.KeyDown(0, k)
    case Released => SystemEvent.KeyUp(0, k)
  }

  /** One run of key events of one phase, one per key. */
  function KeyRun(keys: seq<KeyCode>, phase: KeyPhase): seq<SystemEvent> {
    if keys == [] then [] else KeyRun(keys[..|keys| - 1], phase) + [KeyEvent(keys[|keys| - 1], phase)]
  }

  /** The key events, positionally: presses first, then held keys, then releases. */
  lemma {:induction false} KeyRunLayout(keys: seq<KeyCode>, phase: KeyPhase)
    ensures |KeyRun(keys, phase)| == |keys|
    ensures forall i :: 0 <= i < |keys| ==> KeyRun(keys, phase)[i] == KeyEvent(keys[i], phase)
  {
    if keys != [] {
      KeyRunLayout(keys[..|keys| - 1], phase);
    }
  }

  lemma KeyEventsLayout(kp: seq<KeyCode>, kd: seq<KeyCode>, kr: seq<KeyCode>)
    ensures var r := KeyEvents(kp, kd, kr);
      |r| == |kp| + |kd| + |kr| &&
      (forall i :: 0 <= i < |kp| ==> r[i] == SystemEvent.KeyPressed(0, kp[i])) &&
      (forall i :: |kp| <= i < |kp| + |kd| ==> r[i] == SystemEvent.KeyDown(0, kd[i - |kp|])) &&
      (forall i :: |kp| + |kd| <= i < |r| ==> r[i] == SystemEvent.KeyUp(0, kr[i - |kp| - |kd|]))
  {
    KeyRunLayout(kp, Pressed);
    KeyRunLayout(kd, Held);
    KeyRunLayout(kr, Released);
  }

  /** A resize event exactly when the reported size differs from the stored one. */
  function ResizeEvents(w: real, h: real, sw: real, sh: real): (r: seq<SystemEvent>)
    ensures |r| == 1 <==> sw != w || sh != h
    ensures |r| <= 1 && (|r| == 1 ==> r[0] == SystemEvent.WindowResize(0, sw, sh))
  {
    if sw != w || sh != h then [SystemEvent.WindowResize(0, sw, sh)] else []
  }

  /** Every `MouseUp` is immediately followed by the `Click` of the same button at the same place. */
  ghost predicate UpsFollowedByClick(r: seq<SystemEvent>, x: real, y: real) {
    forall i :: 0 <= i < |r| && r[i].MouseUp? ==>
      i + 1 < |r| && r[i + 1] == SystemEvent.Click(0, r[i].button, x, y)
  }

  /** Every release yields `MouseUp` immediately followed by `Click`. */
  lemma {:induction false} UpThenClick(buttons: seq<MouseButton>, pressed: set<MouseButton>,
                                       released: set<MouseButton>, x: real, y: real)
    ensures UpsFollowedByClick(ButtonEvents(buttons, pressed, released, x, y), x, y)
  {
    if buttons != [] {
      var init := buttons[..|buttons| - 1];
      var b := buttons[|buttons| - 1];
      UpThenClick(init, pressed, released, x, y);
      var rest := ButtonEvents(init, pressed, released, x, y);
      var down := if b in pressed then [SystemEvent.MouseDown(0, b, x, y)] else [];
      var up := if b in released then [SystemEvent.MouseUp(0, b, x, y), SystemEvent.Click(0, b, x, y)] else [];
      var r := rest + down + up;
      assert r == ButtonEvents(buttons, pressed, released, x, y);
      forall i | 0 <= i < |r| && r[i].MouseUp?
        ensures i + 1 < |r| && r[i + 1] == SystemEvent.Click(0, r[i].button, x, y)
      {
        if i < |rest| {
          assert r[i] == rest[i];
          assert i + 1 < |rest|;
          assert r[i + 1] == rest[i + 1];
        }
      }
    }
  }

  /** A button has a `MouseDown` exactly when it is polled and pressed. */
  lemma {:induction false} DownExactlyWhenPressed(buttons: seq<MouseButton>, pressed: set<MouseButton>,
                                                  released: set<MouseButton>, x: real, y: real, b: MouseButton)
    ensures SystemEvent.MouseDown(0, b, x, y) in ButtonEvents(buttons, pressed, released, x, y) <==>
      b in buttons && b in pressed
  {
    if buttons != [] {
      var init := buttons[..|buttons| - 1];
      DownExactlyWhenPressed(init, pressed, released, x, y, b);
      assert buttons == init + [buttons[|buttons| - 1]];
    }
  }

  /** A button has a `MouseUp`, and a `Click`, exactly when it is polled and released. */
  lemma {:induction false} ClickExactlyWhenReleased(buttons: seq<MouseButton>, pressed: set<MouseButton>,
                                                    released: set<MouseButton>, x: real, y: real, b: MouseButton)
    ensures SystemEvent.Click(0, b, x, y) in ButtonEvents(buttons, pressed, released, x, y) <==>
      b in buttons && b in released
    ensures SystemEvent.MouseUp(0, b, x, y) in ButtonEvents(buttons, pressed, released, x, y) <==>
      b in buttons && b in released
  {
    if buttons != [] {
      var init := buttons[..|buttons| - 1];
      ClickExactlyWhenReleased(init, pressed, released, x, y, b);
      assert buttons == init + [buttons[|buttons| - 1]];
    }
  }

  /**
   * The button loop as set algebra: a button ends up pressed exactly when it was pressed
   * before or is polled and newly pressed, and is not polled and released; so a button
   * pressed and released within one frame ends up released.
   */
  lemma {:induction false} PressedAfterExactly(s: set<MouseButton>, buttons: seq<MouseButton>,
                                               pressed: set<MouseButton>, released: set<MouseButton>, b: MouseButton)
    ensures b in PressedAfter(s, buttons, pressed, released) <==>
      (b in s || (b in buttons && b in pressed)) && !(b in buttons && b in released)
  {
    if buttons != [] {
      var init := buttons[..|buttons| - 1];
      PressedAfterExactly(s, init, pressed, released, b);
      assert buttons == init + [buttons[|buttons| - 1]];
    }
  }

  /** The button loop of `update_from_macroquad`: Left, Right, Middle in turn. */
  method PollButtons(before: set<MouseButton>, pressed: set<MouseButton>, released: set<MouseButton>,
                     x: real, y: real) returns (events: seq<SystemEvent>, after: set<MouseButton>)
    ensures events == ButtonEvents(PolledButtons, pressed, released, x, y)
    ensures after == PressedAfter(before, PolledButtons, pressed, released)
  {
    events := [];
    after := before;
    var i := 0;
    while i < |PolledButtons|
      invariant 0 <= i <= |PolledButtons|
      invariant after == PressedAfter(before, PolledButtons[..i], pressed, released)
      invariant events == ButtonEvents(PolledButtons[..i], pressed, released, x, y)
    {
      var button := PolledButtons[i];
      assert PolledButtons[..i + 1][..i] == PolledButtons[..i];
      if button in pressed {
        after := after + {button};
        events := events + [SystemEvent.MouseDown(0, button, x, y)];
      }
      if button in released {
        after := after - {button};
        events := events + [SystemEvent.MouseUp(0, button, x, y)];
        events := events + [SystemEvent.Click(0, button, x, y)];
      }
      i := i + 1;
    }
    assert PolledButtons[..i] == PolledButtons;
  }

  /** One key loop of `update_from_macroquad`: one event per reported key, in order. */
  method PollKeyRun(keys: seq<KeyCode>, phase: KeyPhase) returns (events: seq<SystemEvent>)
    ensures events == KeyRun(keys, phase)
  {
    events := [];
    var k := 0;
    while k < |keys|
      invariant 0 <= k <= |keys|
      invariant events == KeyRun(keys[..k], phase)
    {
      assert keys[..k + 1][..k] == keys[..k];
      events := events + [KeyEvent(keys[k], phase)];
      k := k + 1;
    }
    assert keys[..k] == keys;
  }

  /** The events of one frame: move, buttons, wheel, keys, resize. */
  function FrameEvents(position: (real, real), windowSize: (real, real), sample: InputSample): seq<SystemEvent> {
    MoveEvents(position.0, position.1, sample.mouseX, sample.mouseY)
    + ButtonEvents(PolledButtons, sample.pressed, sample.released, sample.mouseX, sample.mouseY)
    + WheelEvents(sample.wheelX, sample.wheelY)
    + KeyEvents(sample.keysPressed, sample.keysDown, sample.keysReleased)
    + ResizeEvents(windowSize.0, windowSize.1, sample.screenWidth, sample.screenHeight)
  }

  /**
   * The event synthesis of `update_from_macroquad`, given the stored position, window
   * size and pressed set: the frame's events and the pressed set after the button loop.
   */
  method SynthesizeEvents(position: (real, real), windowSize: (real, real), pressedBefore: set<MouseButton>,
                          sample: InputSample) returns (events: seq<SystemEvent>, pressedAfter: set<MouseButton>)
    ensures events == FrameEvents(position, windowSize, sample)
    ensures pressedAfter == PressedAfter(pressedBefore, PolledButtons, sample.pressed, sample.released)
  {
    var x, y := sample.mouseX, sample.mouseY;
    var moves := MoveEvents(position.0, position.1, x, y);
    var buttonEvents;
    buttonEvents, pressedAfter := PollButtons(pressedBefore, sample.pressed, sample.released, x, y);
    var wheel := WheelEvents(sample.wheelX, sample.wheelY);
    var keysPressed := PollKeyRun(sample.keysPressed, Pressed);
    var keysDown := PollKeyRun(sample.keysDown, Held);
    var keysReleased := PollKeyRun(sample.keysReleased, Released);
    var resize := ResizeEvents(windowSize.0, windowSize.1, sample.screenWidth, sample.screenHeight);
    events := moves + buttonEvents + wheel + (keysPressed + keysDown + keysReleased) + resize;
  }

  /** Only the resize step of a frame yields a `WindowResize`. */
  lemma {:induction false} ButtonsNeverResize(buttons: seq<MouseButton>, pressed: set<MouseButton>,
                                              released: set<MouseButton>, x: real, y: real)
    ensures forall e :: e in ButtonEvents(buttons, pressed, released, x, y) ==> !e.WindowResize?
  {
    if buttons != [] {
      ButtonsNeverResize(buttons[..|buttons| - 1], pressed, released, x, y);
    }
  }

  lemma {:induction false} KeysNeverResize(keys: seq<KeyCode>, phase: KeyPhase)
    ensures forall e :: e in KeyRun(keys, phase) ==> !e.WindowResize?
  {
    if keys != [] {
      KeysNeverResize(keys[..|keys| - 1], phase);
    }
  }

  /**
   * A frame holds a `WindowResize` exactly when the reported size differs from the stored
   * one, and then it is the frame's last event, carrying the new size.
   */
  lemma FrameResizesExactlyOnChange(position: (real, real), windowSize: (real, real), sample: InputSample)
    ensures var es := FrameEvents(position, windowSize, sample);
      (exists i :: 0 <= i < |es| && es[i].WindowResize?) <==> (sample.screenWidth, sample.screenHeight) != windowSize
    ensures var es := FrameEvents(position, windowSize, sample);
      (sample.screenWidth, sample.screenHeight) != windowSize ==>
        es[|es| - 1] == SystemEvent.WindowResize(0, sample.screenWidth, sample.screenHeight)
  {
    var es := FrameEvents(position, windowSize, sample);
    var front := MoveEvents(position.0, position.1, sample.mouseX, sample.mouseY)
      + ButtonEvents(PolledButtons, sample.pressed, sample.released, sample.mouseX, sample.mouseY)
      + WheelEvents(sample.wheelX, sample.wheelY)
      + KeyEvents(sample.keysPressed, sample.keysDown, sample.keysReleased);
    var resize := ResizeEvents(windowSize.0, windowSize.1, sample.screenWidth, sample.screenHeight);
    assert es == front + resize;
    ButtonsNeverResize(PolledButtons, sample.pressed, sample.released, sample.mouseX, sample.mouseY);
    KeysNeverResize(sample.keysPressed, Pressed);
    KeysNeverResize(sample.keysDown, Held);
    KeysNeverResize(sample.keysReleased, Released);
    forall i | 0 <= i < |es| && es[i].WindowResize?
      ensures (sample.screenWidth, sample.screenHeight) != windowSize
    {
      if i < |front| {
        assert es[i] == front[i] && front[i] in front;
      } else {
        assert resize != [];
      }
    }
    if (sample.screenWidth, sample.screenHeight) != windowSize {
      assert es[|es| - 1] == resize[0];
    }
  }

  /** `EventManager`: handler registry and the input state carried from frame to frame. */
  class EventManager {
    var handlers: seq<EventHandler>
    var mousePosition: (real, real)
    var previousMousePosition: (real, real)
    var mouseButtonsPressed: set<MouseButton>
    var hoveredNodes: seq<nat>
    var focusedNode: Option<nat>
    var windowSize: (real, real)

    /** `EventManager::new`: no handlers, mouse at the origin, window 800 by 600. */
    constructor ()
      ensures handlers == [] && hoveredNodes == [] && focusedNode.None?
      ensures mousePosition == (0.0, 0.0) && previousMousePosition == (0.0, 0.0)
      ensures mouseButtonsPressed == {}
      ensures windowSize == (800.0, 600.0)
    {
      handlers := [];
      mousePosition := (0.0, 0.0);
      previousMousePosition := (0.0, 0.0);
      mouseButtonsPressed := {};
      hoveredNodes := [];
      focusedNode := None;
      windowSize := (800.0, 600.0);
    }

    /** The input state carried from frame to frame is the same in both states. */
    twostate predicate InputKept()
      reads this
    {
      mousePosition == old(mousePosition) && previousMousePosition == old(previousMousePosition) &&
      mouseButtonsPressed == old(mouseButtonsPressed) && windowSize == old(windowSize)
    }

    /** `add_event_handler`: appends, duplicates allowed. */
    method AddEventHandler(eventType: EventType, nodeId: nat, callbackId: nat)
      modifies this
      ensures handlers == old(handlers) + [EventHandler(callbackId, eventType, nodeId)]
      ensures hoveredNodes == old(hoveredNodes) && focusedNode == old(focusedNode)
      ensures InputKept()
    {
      handlers := handlers + [EventHandler(callbackId, eventType, nodeId)];
    }

    /** `set_focused_node`. */
    method SetFocusedNode(nodeId: Option<nat>)
      modifies this
      ensures GetFocusedNode() == nodeId
      ensures handlers == old(handlers) && hoveredNodes == old(hoveredNodes)
      ensures InputKept()
    {
      focusedNode := nodeId;
    }

    /** `get_focused_node`. */
    function GetFocusedNode(): (r: Option<nat>)
      reads this
      ensures r == focusedNode
    {
      focusedNode
    }

    /** `is_mouse_button_down`: membership in the pressed set. */
    function IsMouseButtonDown(b: MouseButton): (r: bool)
      reads this
      ensures r <==> b in mouseButtonsPressed
    {
      b in mouseButtonsPressed
    }

    /** `is_node_hovered`: membership in the hovered list. */
    function IsNodeHovered(n: nat): (r: bool)
      reads this
      ensures r <==> exists i :: 0 <= i < |hoveredNodes| && hoveredNodes[i] == n
    {
      n in hoveredNodes
    }

    /** `get_handlers_for_node`: exactly the handlers of node `n` and kind `t`, in registration order. */
    function GetHandlersForNode(n: nat, t: EventType): (r: seq<EventHandler>)
      reads this
      ensures forall h :: h in r <==> h in handlers && h.nodeId == n && h.eventType == t
    {
      Select(handlers, ForNode(n, t))
    }

    /** The filter by kind that `process_events` uses for window events. */
    function GetHandlersForEvent(t: EventType): (r: seq<EventHandler>)
      reads this
      ensures forall h :: h in r <==> h in handlers && h.eventType == t
    {
      Select(handlers, ForEvent(t))
    }

    /**
     * `update_from_macroquad` with the polled values passed in: the previous position
     * becomes the old current one, the current one the sampled one; the pressed set and
     * the window size are updated; the events are those `FrameEvents` lists.
     */
    method UpdateFromInput(sample: InputSample) returns (events: seq<SystemEvent>)
      modifies this
      ensures previousMousePosition == old(mousePosition)
      ensures mousePosition == (sample.mouseX, sample.mouseY)
      ensures mouseButtonsPressed ==
        PressedAfter(old(mouseButtonsPressed), PolledButtons, sample.pressed, sample.released)
      ensures windowSize == (sample.screenWidth, sample.screenHeight)
      ensures handlers == old(handlers) && hoveredNodes == old(hoveredNodes) && focusedNode == old(focusedNode)
      ensures events == FrameEvents(old(mousePosition), old(windowSize), sample)
    {
      var pressedAfter;
      events, pressedAfter := SynthesizeEvents(mousePosition, windowSize, mouseButtonsPressed, sample);
      previousMousePosition := mousePosition;
      mousePosition := (sample.mouseX, sample.mouseY);
      mouseButtonsPressed := pressedAfter;
      windowSize := (sample.screenWidth, sample.screenHeight);
    }
  }
}
