/** Values and objects shared by the seat model: clients, surfaces, data-device
    entries, the host input events that are injected into the seat, and the
    calls the seat makes on its collaborators (recorded in an effect log). */
module SeatTypes {

  datatype Option<T> = None | Some(value: T)

  /** A connected Wayland client (`wl_client *`), compared by identity only. */
  type ClientId = nat

  /** A data device manager global (`DataDeviceManager *`), passed through. */
  type ManagerId = nat

  /** One entry of the host's list of touch input devices. */
  type TouchDeviceId = nat

  /** A position; the compositor uses floating-point points, this model integers. */
  datatype Point = Point(x: int, y: int) {
    function Minus(o: Point): (r: Point)
      ensures r.Plus(o) == this
    {
      Point(x - o.x, y - o.y)
    }

    function Plus(o: Point): Point {
      Point(x + o.x, y + o.y)
    }
  }

  /** A compositor surface. The seat never owns or changes one: it reads the
      owning client of the surface's resource, the transient-inactive flag and
      the position. */
  class Surface {
    const client: ClientId
    var transientInactive: bool
    var pos: Point

    constructor (client: ClientId, transientInactive: bool, pos: Point)
      ensures this.client == client
      ensures this.transientInactive == transientInactive && this.pos == pos
    {
      this.client := client;
      this.transientInactive := transientInactive;
      this.pos := pos;
    }
  }

  /** A per-client data device (clipboard / drag-and-drop channel), created on
      the client's request and bound to its protocol resource. */
  class DataDevice {
    const manager: ManagerId
    const client: ClientId
    const resourceId: nat

    constructor (manager: ManagerId, client: ClientId, resourceId: nat)
      ensures this.manager == manager && this.client == client && this.resourceId == resourceId
    {
      this.manager := manager;
      this.client := client;
      this.resourceId := resourceId;
    }
  }

  /** Qt's touch point states; `UnknownState` stands for any value outside the
      four enumerators, which the seat's switch sends to its default branch. */
  datatype TouchPointState =
    | TouchPointPressed
    | TouchPointMoved
    | TouchPointStationary
    | TouchPointReleased
    | UnknownState(code: int)

  datatype TouchPoint = TouchPoint(id: int, pos: Point, state: TouchPointState)

  datatype TouchEventType = TouchBegin | TouchUpdate | TouchEnd | TouchCancel

  /** A full (multi-point) host touch event. */
  datatype TouchEvent = TouchEvent(kind: TouchEventType, points: seq<TouchPoint>)

  datatype KeyEventType = KeyPress | KeyRelease | ShortcutOverride

  /** A full host key event; only its type and native scan code reach the
      core keyboard protocol. */
  datatype KeyEvent = KeyEvent(kind: KeyEventType, nativeScanCode: nat)

  /** Calls on the touch sub-device. */
  datatype TouchCall =
    | Down(id: int, p: Point)
    | Motion(id: int, p: Point)
    | Up(id: int)
    | Frame
    | Cancel
    | TouchSetFocus(surface: Surface?)
    | TouchAdd(client: ClientId, newId: nat)

  /** Calls on the keyboard sub-device. */
  datatype KeyboardCall =
    | Press(scanCode: nat)
    | Release(scanCode: nat)
    | KeyboardSetFocus(surface: Surface?)
    | KeyboardAdd(client: ClientId, newId: nat)

  /** Calls on the pointer sub-device. */
  datatype PointerCall =
    | PointerSetFocus(surface: Surface?, local: Point, global: Point)
    | PointerMove(local: Point, global: Point)
    | PointerAdd(client: ClientId, newId: nat)

  /** Everything the seat does to a collaborator, in the order it does it. */
  datatype Effect =
    | OnTouch(t: TouchCall)
    | OnKeyboard(k: KeyboardCall)
    | OnPointer(p: PointerCall)
    | SelectionFocusSent(device: DataDevice)
    | DataDeviceDestroyed(device: DataDevice)
    | QtKeyPosted(focus: Surface, key: KeyEvent)
    | GlobalQtKeyPosted(target: Surface?, key: KeyEvent)
    | TouchPosted(focus: Surface, event: TouchEvent)
}
