/** What the seat emits for one injected host event, as values: the touch
    point switch, the decomposition of a full touch event into point calls and
    one frame, the key-event guard, and the selection-focus notice sent when
    keyboard focus moves. The seat's methods append exactly these sequences to
    their effect log. */
module EventDecomposition {
  import opened SeatTypes
  import opened DataDeviceRegistry

  /** The calls that stand for one touch point. */
  predicate IsPointCall(t: TouchCall) {
    t.Down? || t.Motion? || t.Up?
  }

  /** The touch point state a point call reports. */
  function StateOf(t: TouchCall): TouchPointState
    requires IsPointCall(t)
  {
    match t
    case Down(_, _) => TouchPointPressed
    case Motion(_, _) => TouchPointMoved
    case Up(_) => TouchPointReleased
  }

  /** The state switch of a single touch point: pressed goes down, moved moves,
      released goes up, each with the point's id; stationary points (which
      clients cache) and states outside the enumeration produce nothing. */
  function TouchPointCall(id: int, p: Point, state: TouchPointState): (r: Option<TouchCall>)
    ensures r.None? <==> state.TouchPointStationary? || state.UnknownState?
    ensures r.Some? ==> IsPointCall(r.value) && r.value.id == id && StateOf(r.value) == state
    ensures r.Some? && !r.value.Up? ==> r.value.p == p
  {
    match state
    case TouchPointPressed => Some(Down(id, p))
    case TouchPointMoved => Some(Motion(id, p))
    case TouchPointReleased => Some(Up(id))
    case TouchPointStationary => None
    case UnknownState(_) => None
  }

  /** The effect of one point of a full touch event, its position made
      relative to the focused surface's position `origin`. */
  function PointEffect(tp: TouchPoint, origin: Point): seq<Effect> {
    match TouchPointCall(tp.id, tp.pos.Minus(origin), tp.state)
    case None => []
    case Some(t) => [OnTouch(t)]
  }

  /** The effects of a list of points, in list order. */
  function PointCalls(points: seq<TouchPoint>, origin: Point): seq<Effect>
    decreases |points|
  {
    if points == [] then []
    else PointCalls(points[..|points| - 1], origin) + PointEffect(points[|points| - 1], origin)
  }

  /** The default decomposition of a full touch event when pointer (and so
      touch) focus is `focus`, whose position is `origin`; `ext` is the touch
      extension: absent, or present and reporting whether it handled the
      event. */
  function FullTouchEffects(focus: Surface?, origin: Point, event: TouchEvent, ext: Option<bool>): seq<Effect> {
    if focus == null then []
    else if event.kind == TouchCancel then [OnTouch(Cancel)]
    else
      var posted := if ext.Some? then [TouchPosted(focus, event)] else [];
      if ext == Some(true) || event.points == [] then posted
      else posted + PointCalls(event.points, origin) + [OnTouch(Frame)]
  }

  /** The calls a sequence of effects makes on the touch sub-device. */
  function TouchCalls(es: seq<Effect>): seq<TouchCall> {
    if es == [] then []
    else (if es[0].OnTouch? then [es[0].t] else []) + TouchCalls(es[1..])
  }

  /** The calls a sequence of effects makes on the keyboard sub-device. */
  function KeyboardCalls(es: seq<Effect>): seq<KeyboardCall> {
    if es == [] then []
    else (if es[0].OnKeyboard? then [es[0].k] else []) + KeyboardCalls(es[1..])
  }

  /** The number of frame markers among some effects. */
  function FrameCount(es: seq<Effect>): nat {
    if es == [] then 0
    else (if es[0] == OnTouch(Frame) then 1 else 0) + FrameCount(es[1..])
  }

  /** The full key event path when keyboard focus is `focus` and the key
      extension is `ext`: no focus, nothing at all; otherwise the extension (if
      any) sees the event first, and only if it did not handle it does the key
      degrade to a press or release with its native scan code. */
  function FullKeyEffects(focus: Surface?, event: KeyEvent, ext: Option<bool>): seq<Effect> {
    if focus == null then []
    else
      var posted := if ext.Some? then [QtKeyPosted(focus, event)] else [];
      if ext == Some(true) then posted
      else posted + KeyCall(event)
  }

  function KeyCall(event: KeyEvent): seq<Effect> {
    match event.kind
    case KeyPress => [OnKeyboard(Press(event.nativeScanCode))]
    case KeyRelease => [OnKeyboard(Release(event.nativeScanCode))]
    case ShortcutOverride => []
  }

  /** The surface-targeted key event goes to the key extension only. */
  function TargetedKeyEffects(target: Surface?, event: KeyEvent, extPresent: bool): (r: seq<Effect>)
    ensures KeyboardCalls(r) == []
    ensures r != [] <==> extPresent
  {
    if extPresent then [GlobalQtKeyPosted(target, event)] else []
  }

  /** The selection-focus notice for a new keyboard focus `surface`: the data
      device of the surface's client, if it has one, and nobody else. */
  function SelectionNotice(devs: seq<DataDevice>, surface: Surface?): (r: seq<Effect>)
    ensures |r| <= 1
    ensures r != [] <==> surface != null && exists d :: d in devs && d.client == surface.client
    ensures forall e :: e in r ==>
      e.SelectionFocusSent? && e.device in devs && surface != null && e.device.client == surface.client
  {
    if surface == null then []
    else match Lookup(devs, surface.client)
      case None => []
      case Some(d) => [SelectionFocusSent(d)]
  }

  /** Point effects of consecutive point lists concatenate: each point is
      handled in list order, independently of the others. */
  lemma {:induction false} PointCallsAppend(ps: seq<TouchPoint>, qs: seq<TouchPoint>, origin: Point)
    ensures PointCalls(ps + qs, origin) == PointCalls(ps, origin) + PointCalls(qs, origin)
    decreases |qs|
  {
    if qs == [] {
      assert ps + qs == ps;
    } else {
      var init := qs[..|qs| - 1];
      assert (ps + qs)[..|ps + qs| - 1] == ps + init;
      assert (ps + qs)[|ps + qs| - 1] == qs[|qs| - 1];
      PointCallsAppend(ps, init, origin);
    }
  }

  /** Every point effect is a down, motion or up call on the touch sub-device
      produced by one of the points, at its surface-relative position; and
      every point that is pressed, moved or released has its call there. */
  lemma {:induction false} PointCallsSound(points: seq<TouchPoint>, origin: Point)
    ensures forall e :: e in PointCalls(points, origin) ==>
      e.OnTouch? && IsPointCall(e.t) &&
      exists tp :: tp in points && TouchPointCall(tp.id, tp.pos.Minus(origin), tp.state) == Some(e.t)
    ensures forall tp :: tp in points && TouchPointCall(tp.id, tp.pos.Minus(origin), tp.state).Some? ==>
      OnTouch(TouchPointCall(tp.id, tp.pos.Minus(origin), tp.state).value) in PointCalls(points, origin)
    decreases |points|
  {
    if points != [] {
      var init := points[..|points| - 1];
      PointCallsSound(init, origin);
      assert forall tp :: tp in init ==> tp in points;
      assert forall tp :: tp in points ==> tp in init || tp == points[|points| - 1];
    }
  }

  /** Point effects contain no frame marker. */
  lemma {:induction false} PointCallsNoFrame(points: seq<TouchPoint>, origin: Point)
    ensures FrameCount(PointCalls(points, origin)) == 0
    decreases |points|
  {
    if points != [] {
      var init := points[..|points| - 1];
      PointCallsNoFrame(init, origin);
      FrameCountAppend(PointCalls(init, origin), PointEffect(points[|points| - 1], origin));
    }
  }

  lemma {:induction false} FrameCountAppend(a: seq<Effect>, b: seq<Effect>)
    ensures FrameCount(a + b) == FrameCount(a) + FrameCount(b)
    decreases |a|
  {
    if a == [] {
      assert a + b == b;
    } else {
      assert (a + b)[1..] == a[1..] + b;
      FrameCountAppend(a[1..], b);
    }
  }

  lemma {:induction false} TouchCallsAppend(a: seq<Effect>, b: seq<Effect>)
    ensures TouchCalls(a + b) == TouchCalls(a) + TouchCalls(b)
    decreases |a|
  {
    if a == [] {
      assert a + b == b;
    } else {
      assert (a + b)[1..] == a[1..] + b;
      TouchCallsAppend(a[1..], b);
    }
  }

  /** A full touch event yields exactly one frame when it is decomposed (there
      is focus, it is not a cancel, no extension handled it and it has points)
      and none otherwise; a cancel yields one cancel call and nothing else. */
  lemma FullTouchFrameCount(focus: Surface?, origin: Point, event: TouchEvent, ext: Option<bool>)
    ensures var es := FullTouchEffects(focus, origin, event, ext);
      FrameCount(es) ==
        if focus != null && event.kind != TouchCancel && ext != Some(true) && event.points != []
        then 1 else 0
    ensures focus == null ==> FullTouchEffects(focus, origin, event, ext) == []
    ensures focus != null && event.kind == TouchCancel ==>
      FullTouchEffects(focus, origin, event, ext) == [OnTouch(Cancel)]
  {
    if focus != null && event.kind != TouchCancel {
      var posted := if ext.Some? then [TouchPosted(focus, event)] else [];
      var pcs := PointCalls(event.points, origin);
      assert FrameCount(posted) == 0;
      if !(ext == Some(true) || event.points == []) {
        PointCallsNoFrame(event.points, origin);
        FrameCountAppend(posted, pcs);
        FrameCountAppend(posted + pcs, [OnTouch(Frame)]);
      }
    }
  }

  /** A decomposed full touch event makes, on the touch sub-device, exactly
      the point calls in list order followed by one frame, which comes last. */
  lemma FullTouchDecomposition(focus: Surface?, origin: Point, event: TouchEvent, ext: Option<bool>)
    requires focus != null && event.kind != TouchCancel && ext != Some(true) && event.points != []
    ensures var es := FullTouchEffects(focus, origin, event, ext);
      && TouchCalls(es) == TouchCalls(PointCalls(event.points, origin)) + [Frame]
      && es[|es| - 1] == OnTouch(Frame)
      && forall i :: 0 <= i < |es| - 1 ==> es[i] != OnTouch(Frame)
  {
    var posted := if ext.Some? then [TouchPosted(focus, event)] else [];
    var pcs := PointCalls(event.points, origin);
    assert FullTouchEffects(focus, origin, event, ext) == posted + pcs + [OnTouch(Frame)];
    FrameLast(posted, pcs);
    PointCallsArePointCalls(event.points, origin);
    FrameOnlyLast(posted, pcs);
  }

  lemma FrameLast(posted: seq<Effect>, pcs: seq<Effect>)
    requires forall e :: e in posted ==> !e.OnTouch?
    ensures TouchCalls(posted + pcs + [OnTouch(Frame)]) == TouchCalls(pcs) + [Frame]
  {
    TouchCallsAppend(posted, pcs);
    TouchCallsAppend(posted + pcs, [OnTouch(Frame)]);
    TouchCallsNone(posted);
    assert TouchCalls([OnTouch(Frame)]) == [Frame];
  }

  lemma {:induction false} TouchCallsNone(es: seq<Effect>)
    requires forall e :: e in es ==> !e.OnTouch?
    ensures TouchCalls(es) == []
    decreases |es|
  {
    if es != [] {
      assert es[0] in es;
      assert forall e :: e in es[1..] ==> e in es;
      TouchCallsNone(es[1..]);
    }
  }

  lemma FrameOnlyLast(posted: seq<Effect>, pcs: seq<Effect>)
    requires forall e :: e in posted ==> !e.OnTouch?
    requires forall i :: 0 <= i < |pcs| ==> pcs[i].OnTouch? && IsPointCall(pcs[i].t)
    ensures forall i :: 0 <= i < |posted + pcs| ==> (posted + pcs + [OnTouch(Frame)])[i] != OnTouch(Frame)
  {
    var es := posted + pcs + [OnTouch(Frame)];
    forall i | 0 <= i < |posted + pcs| ensures es[i] != OnTouch(Frame) {
      if i < |posted| {
        assert es[i] == posted[i];
        assert posted[i] in posted;
      } else {
        assert es[i] == pcs[i - |posted|];
      }
    }
  }

  /** Point effects are down, motion and up calls only. */
  lemma {:induction false} PointCallsArePointCalls(points: seq<TouchPoint>, origin: Point)
    ensures forall i :: 0 <= i < |PointCalls(points, origin)| ==>
      PointCalls(points, origin)[i].OnTouch? && IsPointCall(PointCalls(points, origin)[i].t)
    decreases |points|
  {
    if points != [] {
      PointCallsArePointCalls(points[..|points| - 1], origin);
    }
  }

  /** A full touch event that is not decomposed makes no call on the touch
      sub-device other than the cancel of a cancel event. */
  lemma FullTouchSkipped(focus: Surface?, origin: Point, event: TouchEvent, ext: Option<bool>)
    requires focus == null || event.kind == TouchCancel || ext == Some(true) || event.points == []
    ensures TouchCalls(FullTouchEffects(focus, origin, event, ext)) ==
      if focus != null && event.kind == TouchCancel then [Cancel] else []
  {
  }

  /** Keyboard calls happen only with keyboard focus, only when no extension
      handled the event, and then exactly one press or release carrying the
      event's scan code, or nothing for other key event types. */
  lemma FullKeyGuard(focus: Surface?, event: KeyEvent, ext: Option<bool>)
    ensures var ks := KeyboardCalls(FullKeyEffects(focus, event, ext));
      && (focus == null || ext == Some(true) ==> ks == [])
      && (focus != null && ext != Some(true) ==>
            ks == match event.kind
                  case KeyPress => [Press(event.nativeScanCode)]
                  case KeyRelease => [Release(event.nativeScanCode)]
                  case ShortcutOverride => [])
  {
    var es := FullKeyEffects(focus, event, ext);
    if focus != null && ext != Some(true) {
      var posted := if ext.Some? then [QtKeyPosted(focus, event)] else [];
      KeyboardCallsAppend(posted, KeyCall(event));
    }
  }

  lemma {:induction false} KeyboardCallsAppend(a: seq<Effect>, b: seq<Effect>)
    ensures KeyboardCalls(a + b) == KeyboardCalls(a) + KeyboardCalls(b)
    decreases |a|
  {
    if a == [] {
      assert a + b == b;
    } else {
      assert (a + b)[1..] == a[1..] + b;
      KeyboardCallsAppend(a[1..], b);
    }
  }

  /** When no client owns two data devices, the selection notice reaches the
      focused surface's client's device, and no other device. */
  lemma SelectionReachesOnlyOwner(devs: seq<DataDevice>, surface: Surface, d: DataDevice)
    requires OnePerClient(devs) && d in devs
    ensures SelectionFocusSent(d) in SelectionNotice(devs, surface) <==> d.client == surface.client
  {
    if d.client == surface.client {
      var i :| 0 <= i < |devs| && devs[i] == d;
      assert devs[FirstIndex(devs, surface.client).value] == d;
    }
  }
}
