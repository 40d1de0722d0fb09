/** `Event::from_csfml` of src/window/event.rs: the decoder from the C event record (a
    type tag and a union of payload views) to the Rust `Event` enum. Several kinds
    collapse onto one variant, so some variants are never produced.

    The C union's views share storage; the model keeps each view as its own field and
    leaves the overlap out, since the decoder only ever reads the view its tag names.
    The float fields (a wheel-scroll delta, a joystick position, a sensor vector) are
    left out too. */
module Events {
  import opened Ints
  import opened Results

  /** `EventType`, whose discriminants are the C tags, in declaration order. */
  datatype EventType =
    | Closed
    | Resized
    | LostFocus
    | GainedFocus
    | TextEntered
    | KeyPressed
    | KeyReleased
    | MouseWheelMoved
    | MouseWheelScrolled
    | MouseButtonPressed
    | MouseButtonReleased
    | MouseMoved
    | MouseEntered
    | MouseLeft
    | JoystickButtonPressed
    | JoystickButtonReleased
    | JoystickMoved
    | JoystickConnected
    | JoystickDisconnected
    | TouchBegan
    | TouchMoved
    | TouchEnded
    | SensorChanged

  /** `sfEvtCount`, what `event_count` returns: one past the last tag. */
  const EVENT_COUNT: u32 := 23

  function EventCount(): (n: u32)
    ensures forall t: EventType :: Code(t) < n
  {
    EVENT_COUNT
  }

  /** The C tag of each kind (`sfEvtClosed` is 0, and so on in order). */
  function Code(t: EventType): (c: u32)
    ensures c < EVENT_COUNT
  {
    match t
    case Closed => 0
    case Resized => 1
    case LostFocus => 2
    case GainedFocus => 3
    case TextEntered => 4
    case KeyPressed => 5
    case KeyReleased => 6
    case MouseWheelMoved => 7
    case MouseWheelScrolled => 8
    case MouseButtonPressed => 9
    case MouseButtonReleased => 10
    case MouseMoved => 11
    case MouseEntered => 12
    case MouseLeft => 13
    case JoystickButtonPressed => 14
    case JoystickButtonReleased => 15
    case JoystickMoved => 16
    case JoystickConnected => 17
    case JoystickDisconnected => 18
    case TouchBegan => 19
    case TouchMoved => 20
    case TouchEnded => 21
    case SensorChanged => 22
  }

  /** The kind a tag names, if any: the arm of the decoder's `match` it selects. */
  function TypeOf(tag: u32): (t: Option<EventType>)
    ensures t.Some? <==> tag < EVENT_COUNT
    ensures t.Some? ==> Code(t.value) == tag
  {
    if tag == 0 then Some(Closed)
    else if tag == 1 then Some(Resized)
    else if tag == 2 then Some(LostFocus)
    else if tag == 3 then Some(GainedFocus)
    else if tag == 4 then Some(TextEntered)
    else if tag == 5 then Some(KeyPressed)
    else if tag == 6 then Some(KeyReleased)
    else if tag == 7 then Some(MouseWheelMoved)
    else if tag == 8 then Some(MouseWheelScrolled)
    else if tag == 9 then Some(MouseButtonPressed)
    else if tag == 10 then Some(MouseButtonReleased)
    else if tag == 11 then Some(MouseMoved)
    else if tag == 12 then Some(MouseEntered)
    else if tag == 13 then Some(MouseLeft)
    else if tag == 14 then Some(JoystickButtonPressed)
    else if tag == 15 then Some(JoystickButtonReleased)
    else if tag == 16 then Some(JoystickMoved)
    else if tag == 17 then Some(JoystickConnected)
    else if tag == 18 then Some(JoystickDisconnected)
    else if tag == 19 then Some(TouchBegan)
    else if tag == 20 then Some(TouchMoved)
    else if tag == 21 then Some(TouchEnded)
    else if tag == 22 then Some(SensorChanged)
    else None
  }

  /** Every kind's code names that kind again: with the ensures of `TypeOf`, tags below
      `EVENT_COUNT` and kinds correspond one to one. */
  lemma TypeOfCode(t: EventType)
    ensures TypeOf(Code(t)) == Some(t)
  {
  }

  datatype Vector2i = Vector2i(x: i32, y: i32)
  datatype Vector2u = Vector2u(x: u32, y: u32)

  /** The payload views of the C union `sfEvent`, one field per view. Key codes,
      buttons, wheels, axes and sensor types are C enums, kept as their integers;
      the key modifiers are C booleans, kept as integers as well. */
  datatype SizeView = SizeView(width: u32, height: u32)
  datatype TextView = TextView(unicode: u32)
  datatype KeyView = KeyView(code: i32, alt: i32, control: i32, shift: i32, system: i32)
  datatype WheelView = WheelView(delta: i32, x: i32, y: i32)
  datatype WheelScrollView = WheelScrollView(wheel: i32, x: i32, y: i32)
  datatype ButtonView = ButtonView(button: i32, x: i32, y: i32)
  datatype MoveView = MoveView(x: i32, y: i32)
  datatype JoystickButtonView = JoystickButtonView(joystickId: u32, button: u32)
  datatype JoystickMoveView = JoystickMoveView(joystickId: u32, axis: i32)
  datatype JoystickConnectView = JoystickConnectView(joystickId: u32)
  datatype TouchView = TouchView(finger: u32, x: i32, y: i32)
  datatype SensorView = SensorView(sensorType: i32)

  datatype RawEvent = RawEvent(
    tag: u32,
    size: SizeView,
    text: TextView,
    key: KeyView,
    mouseWheel: WheelView,
    mouseWheelScroll: WheelScrollView,
    mouseButton: ButtonView,
    mouseMove: MoveView,
    joystickButton: JoystickButtonView,
    joystickMove: JoystickMoveView,
    joystickConnect: JoystickConnectView,
    touch: TouchView,
    sensor: SensorView)

  /** The Rust payload structs. */
  datatype SizeEvent = SizeEvent(size: Vector2u)
  datatype TextEvent = TextEvent(unicode: u32)
  datatype KeyEvent = KeyEvent(code: i32, alt: bool, control: bool, shift: bool, system: bool)
  datatype MouseWheelEvent = MouseWheelEvent(delta: i32, x: i32, y: i32)
  datatype MouseWheelScrollEvent = MouseWheelScrollEvent(wheel: i32, pos: Vector2i)
  datatype MouseButtonEvent = MouseButtonEvent(button: i32, pos: Vector2i)
  datatype MouseMoveEvent = MouseMoveEvent(pos: Vector2i)
  datatype JoystickButtonEvent = JoystickButtonEvent(joystickId: u32, button: u32)
  datatype JoystickMoveEvent = JoystickMoveEvent(joystickId: u32, axis: i32)
  datatype JoystickConnectEvent = JoystickConnectEvent(joystickId: u32)
  datatype TouchEvent = TouchEvent(finger: u32, pos: Vector2i)
  datatype SensorEvent = SensorEvent(sensorType: i32)

  /** The Rust `Event` enum, every variant of it, including those the decoder never
      builds. */
  datatype Event =
    | EvClosed
    | EvResized(sizeEvent: SizeEvent)
    | EvLostFocus
    | EvGainedFocus
    | EvTextEntered(textEvent: TextEvent)
    | EvKeyPressed(keyPressed: KeyEvent)
    | EvKeyReleased(keyReleased: KeyEvent)
    | EvMouseWheelMoved(wheelEvent: MouseWheelEvent)
    | EvMouseWheelScrolled(scrollEvent: MouseWheelScrollEvent)
    | EvMouseButtonPressed(buttonPressed: MouseButtonEvent)
    | EvMouseButtonReleased(buttonReleased: MouseButtonEvent)
    | EvMouseMoved(moveEvent: MouseMoveEvent)
    | EvMouseEntered
    | EvMouseLeft
    | EvJoystickButtonPressed(joystickPressed: JoystickButtonEvent)
    | EvJoystickButtonReleased(joystickReleased: JoystickButtonEvent)
    | EvJoystickMoved(joystickMove: JoystickMoveEvent)
    | EvJoystickConnected(joystickConnected: JoystickConnectEvent)
    | EvJoystickDisconnected(joystickDisconnected: JoystickConnectEvent)
    | EvTouchBegan(touchBegan: TouchEvent)
    | EvTouchMoved(touchMoved: TouchEvent)
    | EvTouchEnded(touchEnded: TouchEvent)
    | EvSensorChanged(sensorEvent: SensorEvent)
    | EvUnimplemented

  /** `EventError`: the tag of an event the decoder has no arm for. */
  datatype EventError = Unimplemented(tag: u32)

  /** The kind an `Event` value reports itself as; `Unimplemented` has none. */
  function KindOf(e: Event): Option<EventType> {
    match e
    case EvClosed => Some(Closed)
    case EvResized(_) => Some(Resized)
    case EvLostFocus => Some(LostFocus)
    case EvGainedFocus => Some(GainedFocus)
    case EvTextEntered(_) => Some(TextEntered)
    case EvKeyPressed(_) => Some(KeyPressed)
    case EvKeyReleased(_) => Some(KeyReleased)
    case EvMouseWheelMoved(_) => Some(MouseWheelMoved)
    case EvMouseWheelScrolled(_) => Some(MouseWheelScrolled)
    case EvMouseButtonPressed(_) => Some(MouseButtonPressed)
    case EvMouseButtonReleased(_) => Some(MouseButtonReleased)
    case EvMouseMoved(_) => Some(MouseMoved)
    case EvMouseEntered => Some(MouseEntered)
    case EvMouseLeft => Some(MouseLeft)
    case EvJoystickButtonPressed(_) => Some(JoystickButtonPressed)
    case EvJoystickButtonReleased(_) => Some(JoystickButtonReleased)
    case EvJoystickMoved(_) => Some(JoystickMoved)
    case EvJoystickConnected(_) => Some(JoystickConnected)
    case EvJoystickDisconnected(_) => Some(JoystickDisconnected)
    case EvTouchBegan(_) => Some(TouchBegan)
    case EvTouchMoved(_) => Some(TouchMoved)
    case EvTouchEnded(_) => Some(TouchEnded)
    case EvSensorChanged(_) => Some(SensorChanged)
    case EvUnimplemented => None
  }

  /** The reference collapse: the kind each C kind is reported as. A release reports
      as the matching press, a disconnection as a connection, and any touch as a
      touch beginning; every other kind as itself. */
  function Collapse(t: EventType): (c: EventType)
    ensures !NeverReported(c)
    ensures !NeverReported(t) ==> c == t
    ensures NeverReported(t) ==> c != t
  {
    match t
    case KeyReleased => KeyPressed
    case MouseButtonReleased => MouseButtonPressed
    case JoystickButtonReleased => JoystickButtonPressed
    case JoystickDisconnected => JoystickConnected
    case TouchMoved | TouchEnded => TouchBegan
    case _ => t
  }

  /** The kinds no decoded event reports. */
  predicate NeverReported(t: EventType) {
    match t
    case KeyReleased | MouseButtonReleased | JoystickButtonReleased | JoystickDisconnected
       | TouchMoved | TouchEnded => true
    case _ => false
  }

  /** The variants that stand for an unreported kind, and `Unimplemented`. */
  predicate NeverBuilt(ev: Event) {
    ev.EvKeyReleased? || ev.EvMouseButtonReleased? || ev.EvJoystickButtonReleased?
    || ev.EvJoystickDisconnected? || ev.EvTouchMoved? || ev.EvTouchEnded? || ev.EvUnimplemented?
  }

  /** Collapsing once is enough, and it lands outside the unreported kinds. */
  lemma CollapseIdempotent(t: EventType)
    ensures Collapse(Collapse(t)) == Collapse(t)
  {
  }

  function Point(x: i32, y: i32): Vector2i {
    Vector2i(x, y)
  }

  /** The event one arm of the decoder builds from the view its kind selects. */
  function DecodeKind(t: EventType, e: RawEvent): (ev: Event)
    ensures KindOf(ev) == Some(Collapse(t))
  {
    match t
    case Closed => EvClosed
    case Resized => EvResized(SizeEvent(Vector2u(e.size.width, e.size.height)))
    case LostFocus => EvLostFocus
    case GainedFocus => EvGainedFocus
    case TextEntered => EvTextEntered(TextEvent(e.text.unicode))
    case KeyPressed | KeyReleased =>
      EvKeyPressed(KeyEvent(e.key.code, e.key.alt != 0, e.key.control != 0,
                            e.key.shift != 0, e.key.system != 0))
    case MouseWheelMoved =>
      EvMouseWheelMoved(MouseWheelEvent(e.mouseWheel.delta, e.mouseWheel.x, e.mouseWheel.y))
    case MouseWheelScrolled =>
      EvMouseWheelScrolled(MouseWheelScrollEvent(
        e.mouseWheelScroll.wheel, Point(e.mouseWheelScroll.x, e.mouseWheelScroll.y)))
    case MouseButtonPressed | MouseButtonReleased =>
      EvMouseButtonPressed(MouseButtonEvent(
        e.mouseButton.button, Point(e.mouseButton.x, e.mouseButton.y)))
    case MouseMoved => EvMouseMoved(MouseMoveEvent(Point(e.mouseMove.x, e.mouseMove.y)))
    case MouseEntered => EvMouseEntered
    case MouseLeft => EvMouseLeft
    case JoystickButtonPressed | JoystickButtonReleased =>
      EvJoystickButtonPressed(JoystickButtonEvent(
        e.joystickButton.joystickId, e.joystickButton.button))
    case JoystickMoved =>
      EvJoystickMoved(JoystickMoveEvent(e.joystickMove.joystickId, e.joystickMove.axis))
    case JoystickConnected | JoystickDisconnected =>
      EvJoystickConnected(JoystickConnectEvent(e.joystickConnect.joystickId))
    case TouchBegan | TouchMoved | TouchEnded =>
      EvTouchBegan(TouchEvent(e.touch.finger, Point(e.touch.x, e.touch.y)))
    case SensorChanged => EvSensorChanged(SensorEvent(e.sensor.sensorType))
  }

  /** `Event::from_csfml`: the arm the tag selects, or `Unimplemented(tag)` for a tag
      no arm names. */
  function FromCsfml(e: RawEvent): (r: Result<Event, EventError>)
    ensures r.Err? <==> e.tag >= EVENT_COUNT
    ensures r.Err? ==> r.error == Unimplemented(e.tag)
    ensures r.Ok? ==> KindOf(r.value) == Some(Collapse(TypeOf(e.tag).value))
  {
    match TypeOf(e.tag)
    case None => Err(Unimplemented(e.tag))
    case Some(t) => Ok(DecodeKind(t, e))
  }

  /** The variants a release, a disconnection, a touch move or end, or an unknown tag
      would call for are never built: every decoded event reports a kind, and not one
      of those. */
  lemma NeverProduced(e: RawEvent)
    ensures FromCsfml(e).Ok? ==> !NeverBuilt(FromCsfml(e).value)
    ensures FromCsfml(e).Ok? ==> !NeverReported(KindOf(FromCsfml(e).value).value)
  {
    if FromCsfml(e).Ok? {
      CollapseIdempotent(TypeOf(e.tag).value);
    }
  }

  /** The five payload-free kinds decode to their payload-free variants. */
  lemma PayloadFreeKinds(e: RawEvent)
    ensures e.tag == Code(Closed) ==> FromCsfml(e) == Ok(EvClosed)
    ensures e.tag == Code(LostFocus) ==> FromCsfml(e) == Ok(EvLostFocus)
    ensures e.tag == Code(GainedFocus) ==> FromCsfml(e) == Ok(EvGainedFocus)
    ensures e.tag == Code(MouseEntered) ==> FromCsfml(e) == Ok(EvMouseEntered)
    ensures e.tag == Code(MouseLeft) ==> FromCsfml(e) == Ok(EvMouseLeft)
  {
  }

  /** Each single-kind arm copies the fields of the view its kind selects, in order:
      the size, the code point, the wheel delta and position, the scrolled wheel and
      position, the pointer position, the joystick and axis, the sensor type. */
  lemma PayloadsCopied(e: RawEvent)
    ensures e.tag == Code(Resized) ==>
      FromCsfml(e) == Ok(EvResized(SizeEvent(Vector2u(e.size.width, e.size.height))))
    ensures e.tag == Code(TextEntered) ==> FromCsfml(e) == Ok(EvTextEntered(TextEvent(e.text.unicode)))
    ensures e.tag == Code(MouseWheelMoved) ==>
      FromCsfml(e) == Ok(EvMouseWheelMoved(
        MouseWheelEvent(e.mouseWheel.delta, e.mouseWheel.x, e.mouseWheel.y)))
    ensures e.tag == Code(MouseWheelScrolled) ==>
      FromCsfml(e) == Ok(EvMouseWheelScrolled(MouseWheelScrollEvent(
        e.mouseWheelScroll.wheel, Vector2i(e.mouseWheelScroll.x, e.mouseWheelScroll.y))))
    ensures e.tag == Code(MouseMoved) ==>
      FromCsfml(e) == Ok(EvMouseMoved(MouseMoveEvent(Vector2i(e.mouseMove.x, e.mouseMove.y))))
    ensures e.tag == Code(JoystickMoved) ==>
      FromCsfml(e) == Ok(EvJoystickMoved(
        JoystickMoveEvent(e.joystickMove.joystickId, e.joystickMove.axis)))
    ensures e.tag == Code(SensorChanged) ==>
      FromCsfml(e) == Ok(EvSensorChanged(SensorEvent(e.sensor.sensorType)))
  {
  }

  /** A key press and a key release both decode to a key press, each modifier set
      exactly when its C flag is nonzero. */
  lemma KeyEventsCollapse(e: RawEvent)
    requires e.tag == Code(KeyPressed) || e.tag == Code(KeyReleased)
    ensures FromCsfml(e).Ok? && FromCsfml(e).value.EvKeyPressed?
    ensures FromCsfml(e).value.keyPressed.code == e.key.code
    ensures FromCsfml(e).value.keyPressed.alt <==> e.key.alt != 0
    ensures FromCsfml(e).value.keyPressed.control <==> e.key.control != 0
    ensures FromCsfml(e).value.keyPressed.shift <==> e.key.shift != 0
    ensures FromCsfml(e).value.keyPressed.system <==> e.key.system != 0
  {
  }

  /** A mouse-button release decodes as a press, with the button and position of the
      button view. */
  lemma MouseButtonsCollapse(e: RawEvent)
    requires e.tag == Code(MouseButtonPressed) || e.tag == Code(MouseButtonReleased)
    ensures FromCsfml(e) == Ok(EvMouseButtonPressed(MouseButtonEvent(
      e.mouseButton.button, Vector2i(e.mouseButton.x, e.mouseButton.y))))
  {
  }

  /** A joystick-button release decodes as a press, with the joystick and button of
      the joystick-button view. */
  lemma JoystickButtonsCollapse(e: RawEvent)
    requires e.tag == Code(JoystickButtonPressed) || e.tag == Code(JoystickButtonReleased)
    ensures FromCsfml(e) == Ok(EvJoystickButtonPressed(JoystickButtonEvent(
      e.joystickButton.joystickId, e.joystickButton.button)))
  {
  }

  /** A joystick disconnection decodes as a connection of the same joystick. */
  lemma JoystickConnectionsCollapse(e: RawEvent)
    requires e.tag == Code(JoystickConnected) || e.tag == Code(JoystickDisconnected)
    ensures FromCsfml(e) == Ok(EvJoystickConnected(JoystickConnectEvent(e.joystickConnect.joystickId)))
  {
  }

  /** Every touch, moving or ending, decodes as a touch beginning, with the finger and
      position of the touch view. */
  lemma TouchesCollapse(e: RawEvent)
    requires e.tag == Code(TouchBegan) || e.tag == Code(TouchMoved) || e.tag == Code(TouchEnded)
    ensures FromCsfml(e) == Ok(EvTouchBegan(TouchEvent(e.touch.finger, Vector2i(e.touch.x, e.touch.y))))
  {
  }

  /** The decoder reads only the view its tag selects: two records that agree on the
      tag and on that view decode alike, whatever the other views hold. */
  predicate SameSelectedView(a: RawEvent, b: RawEvent)
    requires a.tag == b.tag && TypeOf(a.tag).Some?
  {
    match TypeOf(a.tag).value
    case Resized => a.size == b.size
    case TextEntered => a.text == b.text
    case KeyPressed | KeyReleased => a.key == b.key
    case MouseWheelMoved => a.mouseWheel == b.mouseWheel
    case MouseWheelScrolled => a.mouseWheelScroll == b.mouseWheelScroll
    case MouseButtonPressed | MouseButtonReleased => a.mouseButton == b.mouseButton
    case MouseMoved => a.mouseMove == b.mouseMove
    case JoystickButtonPressed | JoystickButtonReleased => a.joystickButton == b.joystickButton
    case JoystickMoved => a.joystickMove == b.joystickMove
    case JoystickConnected | JoystickDisconnected => a.joystickConnect == b.joystickConnect
    case TouchBegan | TouchMoved | TouchEnded => a.touch == b.touch
    case SensorChanged => a.sensor == b.sensor
    case _ => true
  }

  lemma ReadsOnlySelectedView(a: RawEvent, b: RawEvent)
    requires a.tag == b.tag
    requires TypeOf(a.tag).Some? ==> SameSelectedView(a, b)
    ensures FromCsfml(a) == FromCsfml(b)
  {
  }
}
