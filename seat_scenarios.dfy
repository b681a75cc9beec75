/** Callers of the seat that use only its contracts. */
module SeatScenarios {
  import opened SeatTypes
  import opened DataDeviceRegistry
  import opened EventDecomposition
  import opened Seat

  /** Client A has keyboard focus on S1 and a data device; focus moves to S2
      of client B, which has its own data device: B's device alone is told
      about the selection, then keyboard focus becomes S2. */
  method KeyboardFocusHandover()
  {
    var seat := new InputDevice();
    var s1 := new Surface(1, false, Point(0, 0));
    var s2 := new Surface(2, false, Point(10, 10));
    seat.ClientRequestedDataDevice(0, 1, 100);
    var devA := seat.dataDevices[|seat.dataDevices| - 1];
    seat.ClientRequestedDataDevice(0, 2, 200);
    var devB := seat.dataDevices[|seat.dataDevices| - 1];
    var ok1 := seat.SetKeyboardFocus(s1);
    assert ok1 && seat.keyboardFocus == s1;
    ghost var before := seat.log;
    var ok2 := seat.SetKeyboardFocus(s2);
    assert ok2 && seat.keyboardFocus == s2;
    assert seat.log == before + [SelectionFocusSent(devB), OnKeyboard(KeyboardSetFocus(s2))];
    assert devA != devB;
  }

  /** A key press with no keyboard focus reaches no sub-device. */
  method KeyWithoutFocus(press: KeyEvent)
  {
    var seat := new InputDevice();
    seat.SendFullKeyEvent(press, None);
    assert seat.log == [];
  }

  /** A transient-inactive surface cannot take keyboard focus. */
  method TransientInactiveRefused()
  {
    var seat := new InputDevice();
    var s := new Surface(3, true, Point(0, 0));
    var ok := seat.SetKeyboardFocus(s);
    assert !ok && seat.keyboardFocus == null && seat.log == [];
  }
}
