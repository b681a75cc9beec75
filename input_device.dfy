/** The Wayland seat (`wl_seat`) of the compositor: capability negotiation,
    per-client data-device registry, focus policy across pointer, keyboard and
    touch, and the decomposition of full host key and touch events. The
    pointer, keyboard and touch sub-devices, the data devices and the
    extension hooks are collaborators; every call the seat makes on one of them
    is appended to the seat's effect log. */
module Seat {
  import opened SeatTypes
  import opened DataDeviceRegistry
  import opened EventDecomposition

  /** The `wl_seat.capability` bits. */
  const CapabilityPointer: bv32 := 1
  const CapabilityKeyboard: bv32 := 2
  const CapabilityTouch: bv32 := 4

  /** The capabilities advertised to a client that binds the seat, given the
      host's touch input devices: pointer and keyboard always, touch exactly
      when there is a touch device, and no other bit. */
  function SeatBindResource(touchDevices: seq<TouchDeviceId>): (caps: bv32)
    ensures caps & CapabilityPointer == CapabilityPointer
    ensures caps & CapabilityKeyboard == CapabilityKeyboard
    ensures caps & CapabilityTouch == CapabilityTouch <==> |touchDevices| > 0
    ensures caps & !(CapabilityPointer | CapabilityKeyboard | CapabilityTouch) == 0
  {
    var caps := CapabilityPointer | CapabilityKeyboard;
    if |touchDevices| != 0 then caps | CapabilityTouch else caps
  }

  class InputDevice {
    /** The registered data devices, in registration order. */
    var dataDevices: seq<DataDevice>
    /** The keyboard sub-device's focus. */
    var keyboardFocus: Surface?
    /** The pointer sub-device's focus surface. */
    var pointerFocus: Surface?
    /** The touch sub-device's focus. */
    var touchFocus: Surface?
    /** Every call made on a collaborator, oldest first. */
    var log: seq<Effect>

    /** No client owns two data devices, and touch focus tracks pointer focus. */
    ghost predicate Valid()
      reads this
    {
      OnePerClient(dataDevices) && touchFocus == pointerFocus
    }

    constructor ()
      ensures Valid()
      ensures dataDevices == [] && log == []
      ensures keyboardFocus == null && pointerFocus == null && touchFocus == null
    {
      dataDevices := [];
      keyboardFocus := null;
      pointerFocus := null;
      touchFocus := null;
      log := [];
    }

    /** A client's seat resource goes away: its data device is removed and
        destroyed. */
    method SeatDestroyResource(client: ClientId)
      requires Valid()
      modifies this
      ensures Valid()
      ensures dataDevices == RemoveFirst(old(dataDevices), client)
      ensures Lookup(dataDevices, client).None?
      ensures log == old(log) + match Lookup(old(dataDevices), client)
                                case None => []
                                case Some(d) => [DataDeviceDestroyed(d)]
      ensures keyboardFocus == old(keyboardFocus) && pointerFocus == old(pointerFocus)
    {
      CleanupDataDeviceForClient(client, true);
      CleanupThenLookupAbsent(old(dataDevices), client);
    }

    method SeatGetPointer(client: ClientId, id: nat)
      requires Valid()
      modifies this
      ensures Valid()
      ensures log == old(log) + [OnPointer(PointerAdd(client, id))]
      ensures dataDevices == old(dataDevices) && keyboardFocus == old(keyboardFocus)
      ensures pointerFocus == old(pointerFocus)
    {
      log := log + [OnPointer(PointerAdd(client, id))];
    }

    method SeatGetKeyboard(client: ClientId, id: nat)
      requires Valid()
      modifies this
      ensures Valid()
      ensures log == old(log) + [OnKeyboard(KeyboardAdd(client, id))]
      ensures dataDevices == old(dataDevices) && keyboardFocus == old(keyboardFocus)
      ensures pointerFocus == old(pointerFocus)
    {
      log := log + [OnKeyboard(KeyboardAdd(client, id))];
    }

    method SeatGetTouch(client: ClientId, id: nat)
      requires Valid()
      modifies this
      ensures Valid()
      ensures log == old(log) + [OnTouch(TouchAdd(client, id))]
      ensures dataDevices == old(dataDevices) && keyboardFocus == old(keyboardFocus)
      ensures pointerFocus == old(pointerFocus)
    {
      log := log + [OnTouch(TouchAdd(client, id))];
    }

    /** Plain pointer motion, forwarded to the pointer sub-device. */
    method SendMouseMove(local: Point, global: Point)
      requires Valid()
      modifies this
      ensures Valid()
      ensures log == old(log) + [OnPointer(PointerMove(local, global))]
      ensures dataDevices == old(dataDevices) && keyboardFocus == old(keyboardFocus)
      ensures pointerFocus == old(pointerFocus)
    {
      log := log + [OnPointer(PointerMove(local, global))];
    }

    /** Pointer motion over a given surface: focus first, then the motion. */
    method SendMouseMoveEvent(surface: Surface?, local: Point, global: Point)
      requires Valid()
      modifies this
      ensures Valid()
      ensures pointerFocus == surface && touchFocus == surface
      ensures log == old(log) + [OnPointer(PointerSetFocus(surface, local, global)),
                                 OnTouch(TouchSetFocus(surface)),
                                 OnPointer(PointerMove(local, global))]
      ensures dataDevices == old(dataDevices) && keyboardFocus == old(keyboardFocus)
    {
      SetMouseFocus(surface, local, global);
      SendMouseMove(local, global);
    }

    /** One touch point, by state; see `TouchPointCall`. */
    method SendTouchPointEvent(id: int, p: Point, state: TouchPointState)
      requires Valid()
      modifies this
      ensures Valid()
      ensures log == old(log) + match TouchPointCall(id, p, state)
                                case None => []
                                case Some(t) => [OnTouch(t)]
      ensures dataDevices == old(dataDevices) && keyboardFocus == old(keyboardFocus)
      ensures pointerFocus == old(pointerFocus)
    {
      match state
      case TouchPointPressed =>
        log := log + [OnTouch(Down(id, p))];
      case TouchPointMoved =>
        log := log + [OnTouch(Motion(id, p))];
      case TouchPointReleased =>
        log := log + [OnTouch(Up(id))];
      case TouchPointStationary =>
        // clients cache stationary points; nothing goes over the wire
      case UnknownState(_) =>
    }

    method SendTouchFrameEvent()
      requires Valid()
      modifies this
      ensures Valid()
      ensures log == old(log) + [OnTouch(Frame)]
      ensures dataDevices == old(dataDevices) && keyboardFocus == old(keyboardFocus)
      ensures pointerFocus == old(pointerFocus)
    {
      log := log + [OnTouch(Frame)];
    }

    method SendTouchCancelEvent()
      requires Valid()
      modifies this
      ensures Valid()
      ensures log == old(log) + [OnTouch(Cancel)]
      ensures dataDevices == old(dataDevices) && keyboardFocus == old(keyboardFocus)
      ensures pointerFocus == old(pointerFocus)
    {
      log := log + [OnTouch(Cancel)];
    }

    /** A full key event goes to the keyboard focus; see `FullKeyEffects`. */
    method SendFullKeyEvent(event: KeyEvent, ext: Option<bool>)
      requires Valid()
      modifies this
      ensures Valid()
      ensures log == old(log) + FullKeyEffects(keyboardFocus, event, ext)
      ensures keyboardFocus == null ==> log == old(log)
      ensures dataDevices == old(dataDevices) && keyboardFocus == old(keyboardFocus)
      ensures pointerFocus == old(pointerFocus)
    {
      if keyboardFocus == null {
        // warned about: the compositor should have set a keyboard focus
        return;
      }
      if ext.Some? {
        log := log + [QtKeyPosted(keyboardFocus, event)];
        if ext.value {
          return;
        }
      }
      if event.kind == KeyPress {
        log := log + [OnKeyboard(Press(event.nativeScanCode))];
      } else if event.kind == KeyRelease {
        log := log + [OnKeyboard(Release(event.nativeScanCode))];
      }
    }

    /** A key event for an explicit surface goes to the key extension only. */
    method SendFullKeyEventToSurface(surface: Surface?, event: KeyEvent, extPresent: bool)
      requires Valid()
      modifies this
      ensures Valid()
      ensures log == old(log) + TargetedKeyEffects(surface, event, extPresent)
      ensures dataDevices == old(dataDevices) && keyboardFocus == old(keyboardFocus)
      ensures pointerFocus == old(pointerFocus)
    {
      if extPresent {
        log := log + [GlobalQtKeyPosted(surface, event)];
      }
    }

    /** A full touch event goes to the pointer focus, decomposed point by
        point; see `FullTouchEffects`. */
    method SendFullTouchEvent(event: TouchEvent, ext: Option<bool>)
      requires Valid()
      modifies this
      ensures Valid()
      ensures log == old(log) +
        FullTouchEffects(pointerFocus, if pointerFocus == null then Point(0, 0) else pointerFocus.pos, event, ext)
      ensures dataDevices == old(dataDevices) && keyboardFocus == old(keyboardFocus)
      ensures pointerFocus == old(pointerFocus)
    {
      if pointerFocus == null {
        // warned about: the compositor should have set a pointer focus
        return;
      }
      if event.kind == TouchCancel {
        SendTouchCancelEvent();
        return;
      }
      ghost var posted: seq<Effect> := [];
      if ext.Some? {
        posted := [TouchPosted(pointerFocus, event)];
        log := log + [TouchPosted(pointerFocus, event)];
        if ext.value {
          return;
        }
      }
      var points := event.points;
      if points == [] {
        return;
      }
      var pointCount := |points|;
      var pos := pointerFocus.pos;
      var i := 0;
      while i < pointCount
        invariant 0 <= i <= pointCount
        invariant Valid()
        invariant log == old(log) + posted + PointCalls(points[..i], pos)
        invariant dataDevices == old(dataDevices) && keyboardFocus == old(keyboardFocus)
        invariant pointerFocus == old(pointerFocus)
      {
        var tp := points[i];
        // surface-relative position
        var p := tp.pos.Minus(pos);
        SendTouchPointEvent(tp.id, p, tp.state);
        assert points[..i + 1][..i] == points[..i];
        i := i + 1;
      }
      assert points[..pointCount] == points;
      SendTouchFrameEvent();
    }

    /** Moves keyboard focus unless the target is an inactive transient
        surface; an accepted change first notifies the new surface's client's
        data device of the selection. */
    method SetKeyboardFocus(surface: Surface?) returns (changed: bool)
      requires Valid()
      modifies this
      ensures Valid()
      ensures changed <==> surface == null || !surface.transientInactive
      ensures changed ==> keyboardFocus == surface
      ensures changed ==> log == old(log) + SelectionNotice(dataDevices, surface) +
                                [OnKeyboard(KeyboardSetFocus(surface))]
      ensures !changed ==> keyboardFocus == old(keyboardFocus) && log == old(log)
      ensures dataDevices == old(dataDevices) && pointerFocus == old(pointerFocus)
    {
      if surface != null && surface.transientInactive {
        return false;
      }
      SendSelectionFocus(surface);
      keyboardFocus := surface;
      log := log + [OnKeyboard(KeyboardSetFocus(surface))];
      return true;
    }

    /** Sets pointer focus and makes touch focus match it. */
    method SetMouseFocus(surface: Surface?, local: Point, global: Point)
      requires Valid()
      modifies this
      ensures Valid()
      ensures pointerFocus == surface && touchFocus == surface
      ensures log == old(log) + [OnPointer(PointerSetFocus(surface, local, global)),
                                 OnTouch(TouchSetFocus(surface))]
      ensures dataDevices == old(dataDevices) && keyboardFocus == old(keyboardFocus)
    {
      pointerFocus := surface;
      log := log + [OnPointer(PointerSetFocus(surface, local, global))];
      touchFocus := surface;
      log := log + [OnTouch(TouchSetFocus(surface))];
    }

    /** Removes the first data device owned by `client`, and destroys it if
        asked to. */
    method CleanupDataDeviceForClient(client: ClientId, destroyDev: bool)
      requires Valid()
      modifies this
      ensures Valid()
      ensures dataDevices == RemoveFirst(old(dataDevices), client)
      ensures log == old(log) + match Lookup(old(dataDevices), client)
                                case Some(d) => if destroyDev then [DataDeviceDestroyed(d)] else []
                                case None => []
      ensures keyboardFocus == old(keyboardFocus) && pointerFocus == old(pointerFocus)
    {
      var i := 0;
      while i < |dataDevices|
        invariant 0 <= i <= |dataDevices|
        invariant forall j :: 0 <= j < i ==> dataDevices[j].client != client
        invariant dataDevices == old(dataDevices) && log == old(log)
        invariant keyboardFocus == old(keyboardFocus) && pointerFocus == old(pointerFocus)
        invariant touchFocus == old(touchFocus)
      {
        if dataDevices[i].client == client {
          FirstIndexIs(dataDevices, client, i);
          RemoveFirstRemovesLookup(dataDevices, client);
          RemoveFirstKeepsOnePerClient(dataDevices, client);
          if destroyDev {
            log := log + [DataDeviceDestroyed(dataDevices[i])];
          }
          dataDevices := dataDevices[..i] + dataDevices[i + 1..];
          return;
        }
        i := i + 1;
      }
      RemoveFirstRemovesLookup(dataDevices, client);
    }

    /** A client asks for a data device: any previous one of that client is
        dropped (not destroyed) and a new one is appended. */
    method ClientRequestedDataDevice(manager: ManagerId, client: ClientId, id: nat)
      requires Valid()
      modifies this
      ensures Valid()
      ensures |dataDevices| > 0
      ensures var d := dataDevices[|dataDevices| - 1];
        && fresh(d) && d.manager == manager && d.client == client && d.resourceId == id
        && dataDevices == Replace(old(dataDevices), d)
        && Lookup(dataDevices, client) == Some(d)
      ensures log == old(log)
      ensures keyboardFocus == old(keyboardFocus) && pointerFocus == old(pointerFocus)
    {
      CleanupDataDeviceForClient(client, false);
      var device := new DataDevice(manager, client, id);
      ReplaceKeepsOnePerClient(old(dataDevices), device);
      dataDevices := dataDevices + [device];
    }

    /** Tells the data device of `surface`'s client, if any, that its client
        is getting keyboard focus. */
    method SendSelectionFocus(surface: Surface?)
      requires Valid()
      modifies this
      ensures Valid()
      ensures log == old(log) + SelectionNotice(dataDevices, surface)
      ensures dataDevices == old(dataDevices) && keyboardFocus == old(keyboardFocus)
      ensures pointerFocus == old(pointerFocus)
    {
      if surface == null {
        return;
      }
      var device := FindDataDevice(surface.client);
      if device.Some? {
        log := log + [SelectionFocusSent(device.value)];
      }
    }

    /** The data device of `client`: the first registered one it owns. */
    method FindDataDevice(client: ClientId) returns (device: Option<DataDevice>)
      ensures device.Some? ==> device.value in dataDevices && device.value.client == client
      ensures device == Lookup(dataDevices, client)
    {
      var i := 0;
      while i < |dataDevices|
        invariant 0 <= i <= |dataDevices|
        invariant forall j :: 0 <= j < i ==> dataDevices[j].client != client
      {
        if dataDevices[i].client == client {
          FirstIndexIs(dataDevices, client, i);
          return Some(dataDevices[i]);
        }
        i := i + 1;
      }
      return None;
    }
  }
}
