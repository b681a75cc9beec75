# Wayland seat of the Qt compositor, in Dafny

This project models `QtWayland::InputDevice`, the server side of the Wayland
core protocol's `wl_seat` in the Qt compositor. The seat does four things:

- it advertises its capabilities (pointer, keyboard, touch) to each client that binds it;
- it keeps a per-client registry of data devices (the clipboard and drag-and-drop channel);
- it applies the focus policy across pointer, keyboard and touch;
- it decomposes full host key and touch events into the low-level `wl_keyboard`
  and `wl_touch` events.

Layout:

- `seat_types.dfy` (module `SeatTypes`): clients, surfaces, data devices, host
  events, and the calls the seat makes on its collaborators.
- `data_device_registry.dfy` (module `DataDeviceRegistry`): the registry as a
  list value. It defines first-match lookup, removal of a client's first entry,
  and replace-on-request, with their lemmas.
- `event_decomposition.dfy` (module `EventDecomposition`): for each injected
  event, the effects the seat emits, as values, with their lemmas.
- `input_device.dfy` (module `Seat`): the class `InputDevice`. Its fields are
  the registry, the keyboard, pointer and touch focus, and an append-only log
  of every call made on a sub-device, a data device or an extension hook. The
  methods that scan the registry or decompose an event (cleanup, replace on
  request, lookup, selection notice, touch point, full key and full touch
  events) are proved to change the fields as the functions of the two modules
  above say. The one-step methods (`SetMouseFocus`, `SeatGetPointer`,
  `SeatGetKeyboard`, `SeatGetTouch`, `SendMouseMove`, `SendMouseMoveEvent`,
  `SendTouchFrameEvent`, `SendTouchCancelEvent`, and the focus part of
  `SetKeyboardFocus`) state their new fields and log directly in their
  `ensures`. `Valid()` is the object invariant: no client owns two data
  devices, and touch focus equals pointer focus.
- `seat_scenarios.dfy` (module `SeatScenarios`): callers that use only the
  contracts. It covers focus moving between two clients with data devices, a
  key event without focus, and a refused transient-inactive surface.

Collaborators are modelled as follows:

- The pointer, keyboard and touch sub-devices, the data devices and the
  key/touch extension hooks are only seen through the calls the seat makes on
  them; each call is an `Effect` in the log.
- An extension hook whose answer matters (the key extension in
  `SendFullKeyEvent`, the touch extension in `SendFullTouchEvent`) is a
  parameter `ext: Option<bool>`. `None` means no extension. `Some(h)` means the
  extension is present and answers `h` ("handled").
- The key extension in `SendFullKeyEventToSurface` is a parameter
  `extPresent: bool`. The source ignores what that hook returns, so only its
  presence matters.
- The host's list of touch devices is a parameter of `SeatBindResource`.
- Surfaces and data devices are objects compared by identity. A surface
  carries its owning client, its transient-inactive flag and its position.

## Model

| member | source | states |
|---|---|---|
| `Seat.SeatBindResource` | qtwayland/src/compositor/wayland_wrapper/qwlinputdevice.cpp:109-116 | the advertised mask always has the pointer and keyboard bits, has the touch bit exactly when the touch device list is non-empty, and has no other bit |
| `Seat.InputDevice.constructor` | qtwayland/src/compositor/wayland_wrapper/qwlinputdevice.cpp:59-67 | the registry and log start empty, all three foci start null, and the invariant holds |
| `Seat.InputDevice.SeatDestroyResource` | qtwayland/src/compositor/wayland_wrapper/qwlinputdevice.cpp:104-107 | the client's data device is removed from the registry and destroyed (a destroy effect for exactly the entry lookup returned); afterwards lookup for that client finds nothing |
| `Seat.InputDevice.SeatGetPointer` | qtwayland/src/compositor/wayland_wrapper/qwlinputdevice.cpp:118-121 | registers the client's new resource id with the pointer sub-device and changes nothing else |
| `Seat.InputDevice.SeatGetKeyboard` | qtwayland/src/compositor/wayland_wrapper/qwlinputdevice.cpp:123-126 | registers the client's new resource id with the keyboard sub-device and changes nothing else |
| `Seat.InputDevice.SeatGetTouch` | qtwayland/src/compositor/wayland_wrapper/qwlinputdevice.cpp:128-131 | registers the client's new resource id with the touch sub-device and changes nothing else |
| `Seat.InputDevice.SendMouseMove` | qtwayland/src/compositor/wayland_wrapper/qwlinputdevice.cpp:143-146 | one motion call on the pointer sub-device, focus unchanged |
| `Seat.InputDevice.SendMouseMoveEvent` | qtwayland/src/compositor/wayland_wrapper/qwlinputdevice.cpp:148-152 | pointer focus and touch focus both become the surface, and the focus calls come before the motion call |
| `EventDecomposition.TouchPointCall` | qtwayland/src/compositor/wayland_wrapper/qwlinputdevice.cpp:159-177 | a call exists exactly for pressed, moved and released points. It is a down, motion or up carrying the point's id, and it reports back the same state. Down and motion carry the position. Stationary and unknown states give nothing |
| `Seat.InputDevice.SendTouchPointEvent` | qtwayland/src/compositor/wayland_wrapper/qwlinputdevice.cpp:159-177 | appends to the log exactly the call `TouchPointCall` gives for the point, or nothing |
| `Seat.InputDevice.SendTouchFrameEvent` | qtwayland/src/compositor/wayland_wrapper/qwlinputdevice.cpp:179-182 | one frame call on the touch sub-device |
| `Seat.InputDevice.SendTouchCancelEvent` | qtwayland/src/compositor/wayland_wrapper/qwlinputdevice.cpp:184-187 | one cancel call on the touch sub-device |
| `Seat.InputDevice.SendFullKeyEvent` | qtwayland/src/compositor/wayland_wrapper/qwlinputdevice.cpp:189-204 | with no keyboard focus the log is unchanged; otherwise it grows by the key path `FullKeyEffects`; focus and registry unchanged |
| `EventDecomposition.FullKeyGuard` | qtwayland/src/compositor/wayland_wrapper/qwlinputdevice.cpp:189-204 | no keyboard call without keyboard focus or when the extension handled the event; otherwise exactly one press (KeyPress) or release (KeyRelease) with the event's scan code, none for other types |
| `EventDecomposition.TargetedKeyEffects` | qtwayland/src/compositor/wayland_wrapper/qwlinputdevice.cpp:206-211 | the surface-targeted key event never makes a keyboard call; it does something exactly when the key extension exists |
| `Seat.InputDevice.SendFullKeyEventToSurface` | qtwayland/src/compositor/wayland_wrapper/qwlinputdevice.cpp:206-211 | the log grows by the targeted-key effects only; focus and registry unchanged |
| `Seat.InputDevice.SendFullTouchEvent` | qtwayland/src/compositor/wayland_wrapper/qwlinputdevice.cpp:213-242 | the log grows by `FullTouchEffects` for the current pointer focus and its position; the loop emits the points in list order, then one frame |
| `EventDecomposition.FullTouchFrameCount` | qtwayland/src/compositor/wayland_wrapper/qwlinputdevice.cpp:213-242 | with no pointer focus nothing is emitted. A cancel event emits exactly one cancel. Otherwise exactly one frame is emitted when the event is decomposed (extension absent or not handling it, point list non-empty), and no frame when it is not |
| `EventDecomposition.FullTouchDecomposition` | qtwayland/src/compositor/wayland_wrapper/qwlinputdevice.cpp:229-241 | a decomposed event calls the touch sub-device with the point calls, then one frame; the frame is the last effect and no earlier effect is a frame |
| `EventDecomposition.FullTouchSkipped` | qtwayland/src/compositor/wayland_wrapper/qwlinputdevice.cpp:215-231 | an event that is not decomposed makes no touch call, except the single cancel of a cancel event |
| `EventDecomposition.PointCallsAppend` | qtwayland/src/compositor/wayland_wrapper/qwlinputdevice.cpp:235-240 | the point calls of a concatenated point list are the calls of each part in order: points are handled one by one in list order |
| `EventDecomposition.PointCallsSound` | qtwayland/src/compositor/wayland_wrapper/qwlinputdevice.cpp:235-240 | every point call comes from some point at its surface-relative position (point position minus focus position), and every pressed, moved or released point has its call |
| `EventDecomposition.PointCallsArePointCalls` | qtwayland/src/compositor/wayland_wrapper/qwlinputdevice.cpp:235-240 | the per-point effects are down, motion and up calls only |
| `EventDecomposition.PointCallsNoFrame` | qtwayland/src/compositor/wayland_wrapper/qwlinputdevice.cpp:235-240 | the per-point effects contain no frame marker |
| `SeatTypes.Point.Minus` | qtwayland/src/compositor/wayland_wrapper/qwlinputdevice.cpp:238 | the surface-relative position, plus the surface position, gives back the point's position |
| `Seat.InputDevice.SetKeyboardFocus` | qtwayland/src/compositor/wayland_wrapper/qwlinputdevice.cpp:249-260 | refused exactly for a non-null transient-inactive surface, with focus and log unchanged. Otherwise focus becomes the surface (null included), after the selection notice and before the keyboard focus call |
| `Seat.InputDevice.SetMouseFocus` | qtwayland/src/compositor/wayland_wrapper/qwlinputdevice.cpp:267-274 | pointer focus and touch focus both become the surface; pointer focus call, then touch focus call |
| `Seat.InputDevice.SendSelectionFocus` | qtwayland/src/compositor/wayland_wrapper/qwlinputdevice.cpp:297-305 | the log grows by exactly the selection notice for the surface, nothing else changes |
| `EventDecomposition.SelectionNotice` | qtwayland/src/compositor/wayland_wrapper/qwlinputdevice.cpp:297-305 | at most one notice. There is one exactly when the surface is non-null and its client has a data device, and it goes to a registered device of that client |
| `EventDecomposition.SelectionReachesOnlyOwner` | qtwayland/src/compositor/wayland_wrapper/qwlinputdevice.cpp:297-305 | when no client owns two devices, a registered device is notified if and only if it belongs to the focused surface's client |
| `Seat.InputDevice.CleanupDataDeviceForClient` | qtwayland/src/compositor/wayland_wrapper/qwlinputdevice.cpp:276-288 | the registry becomes `RemoveFirst` of the old one. A destroy effect is logged for the removed entry exactly when `destroyDev` is set and an entry matched. The invariant is kept |
| `DataDeviceRegistry.RemoveFirstRemovesLookup` | qtwayland/src/compositor/wayland_wrapper/qwlinputdevice.cpp:276-288 | removal takes out exactly the entry at the first index owned by the client, keeps all others in order, and leaves the list unchanged when no entry matches |
| `DataDeviceRegistry.RemoveFirstCount` | qtwayland/src/compositor/wayland_wrapper/qwlinputdevice.cpp:276-288 | removal lowers the client's entry count by one if it had any, and leaves every other client's count alone |
| `DataDeviceRegistry.CleanupThenLookupAbsent` | qtwayland/src/compositor/wayland_wrapper/qwlinputdevice.cpp:276-288 | under the one-per-client invariant, lookup after cleanup finds nothing for that client |
| `DataDeviceRegistry.CleanupIdempotent` | qtwayland/src/compositor/wayland_wrapper/qwlinputdevice.cpp:276-288 | under the invariant a second cleanup for the same client is a no-op |
| `DataDeviceRegistry.RemoveFirstKeepsOnePerClient` | qtwayland/src/compositor/wayland_wrapper/qwlinputdevice.cpp:276-288 | removal preserves the one-entry-per-client invariant |
| `DataDeviceRegistry.CleanupKeepsOtherLookups` | qtwayland/src/compositor/wayland_wrapper/qwlinputdevice.cpp:276-288 | cleanup for one client leaves every other client's lookup result unchanged |
| `Seat.InputDevice.ClientRequestedDataDevice` | qtwayland/src/compositor/wayland_wrapper/qwlinputdevice.cpp:290-295 | the registry becomes `Replace` of the old one with a fresh device for the manager, client and id; that device is last and is what lookup returns; nothing is destroyed |
| `DataDeviceRegistry.ReplaceCount` | qtwayland/src/compositor/wayland_wrapper/qwlinputdevice.cpp:290-295 | after a request the client owns one entry if it had none, else as many as before; other clients' counts are unchanged |
| `DataDeviceRegistry.ReplaceKeepsOnePerClient` | qtwayland/src/compositor/wayland_wrapper/qwlinputdevice.cpp:290-295 | a request keeps the invariant, and the client then owns exactly one entry, which is the new one |
| `DataDeviceRegistry.RequestTwiceOneEntry` | qtwayland/src/compositor/wayland_wrapper/qwlinputdevice.cpp:290-295 | two requests in a row for a client with at most one entry leave it exactly one entry, the later one |
| `DataDeviceRegistry.FirstIndex` | qtwayland/src/compositor/wayland_wrapper/qwlinputdevice.cpp:317-325 | the result is the least index whose entry the client owns, or none exactly when no entry belongs to the client |
| `DataDeviceRegistry.Lookup` | qtwayland/src/compositor/wayland_wrapper/qwlinputdevice.cpp:317-325 | a found device is registered and owned by the client; none exactly when the client owns no entry |
| `Seat.InputDevice.FindDataDevice` | qtwayland/src/compositor/wayland_wrapper/qwlinputdevice.cpp:317-325 | the scan returns a registered device of the client, namely the first-match `Lookup`, or none |

## Left out

- The destructor's `qDeleteAll` of the data devices (qtwayland/src/compositor/wayland_wrapper/qwlinputdevice.cpp:71) is not modelled; it is memory management at teardown. Modelled, it would log one `DataDeviceDestroyed` per registered entry.
- Deleting an entry is logged as a `DataDeviceDestroyed` effect. Memory release itself is not modelled.
- The sub-device and const accessors (`pointerDevice`, `keyboardDevice`, `touchDevice`), `compositor()` and `handle()` are not modelled. They only forward.
- `keyboardFocus()` and `mouseFocus()` are not separate members; they are the fields `keyboardFocus` and `pointerFocus`.
- Mouse press, release and wheel forwarding (lines 133-141 and 154-157) is not modelled; it is pure forwarding with no logic.
- The internals of the Pointer, Keyboard, Touch and DataDevice objects are not modelled. That covers per-resource sends, enter/leave events, button and key state, and resource creation in `add`. Only the calls the seat makes on them are recorded.
- The extension hooks (`postQtKeyEvent`, `postGlobalQtKeyEvent`, `postTouchEvent`) and `QTouchDevice::devices()` are foreign library calls. They become parameters.
- The `qWarning` messages for missing focus are I/O and are left out. The wire encoding of `send_capabilities` is also left out: only the computed mask is modelled.
- Coordinates are integer pairs instead of `QPointF` doubles. Floating-point rounding of the surface-relative subtraction is not modelled.
- A data device's construction, which creates its protocol resource, is external. The model records only its manager, client and resource id.
- The cleanup loop leaves with `return` where the source uses `break`. Nothing follows the loop in the source, so the behaviour is the same.
