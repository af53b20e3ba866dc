/**
 A run with an update that announces too much: on a screen of one pixel a window is opened, then its
 client stores a new colour and sends an update whose rectangle is wider than the window.  The request is
 dropped, the colour stays in the shared buffer, and the screen keeps showing the old one.
 */
module StaleWindow {
  import opened Wrappers
  import opened Framebuffer
  import opened Display
  import opened Desk
  import opened Scene

  const EMPTY: Table := seq(32, _ => None)
  const PLAIN := Window(1, 0, 0, 1, 1, [0])
  const PAINTED := Window(1, 0, 0, 1, 1, [5])
  const TABLE: Table := EMPTY[0 := Some(PLAIN)]

  /** A one-pixel cursor that is transparent. */
  const ARROW := Sprite([0], [0], 1, 1, 0, 0)

  /** The compositor as its event loop starts: no windows, a full redraw due. */
  const BARE := Desk(1, 1, [7], ARROW, EMPTY, 1, [], 0, 0, None, true, true)
  const START := Screen(BARE, [7], [0])

  /** With the window open and everything flushed. */
  const DESK := Desk(1, 1, [7], ARROW, TABLE, 2, [1], 0, 0, None, false, false)

  const OPEN := Input([CreateWindow(1, 1, 0, 0, true)], 0, 0)
  const TOO_WIDE := Input([UpdateWindow(1, 0, 0, 2, 1, map[0 := 5])], 0, 0)
  const INPUTS := [OPEN, TOO_WIDE]

  lemma OneRequest(d: Desk, m: Message)
    ensures Steps(d, [m]) == Step(d, m)
  {
    var ms := [m];
    assert ms[..0] == [] && Steps(d, []) == d;
  }

  lemma RowsAre()
    ensures RowBase(1, 0) == 0 && RowBase(1, 1) == 1
  {
  }

  lemma WindowOpens()
    ensures ScreenOk(START) && Receive(START, OPEN).desk == DESK.(sceneUpdate := true, fullRedraw := true)
  {
    var m := OPEN.requests[0];
    OneRequest(BARE, m);
    RowsAre();
    assert FreeSlot(EMPTY) == Some(0) by { assert EMPTY[0].None?; }
    assert NewWindow(1, m) == PLAIN;
  }

  /** The window changes and nothing becomes due. */
  lemma StoreIsSilent(s: Screen)
    requires s.desk == DESK
    ensures Receive(s, TOO_WIDE).desk == DESK.(windows := TABLE[0 := Some(PAINTED)])
  {
    OneRequest(DESK, TOO_WIDE.requests[0]);
    assert SlotOf(TABLE, 1) == Some(0) by { assert TABLE[0] == Some(PLAIN); }
    assert Stored(PLAIN.pixels, map[0 := 5]) == [5];
  }

  /** What the only pixel should look like while the window has the colour `c`. */
  lemma PixelIs(d: Desk, w: Window)
    requires d == DESK.(windows := TABLE[0 := Some(w)]) && w == PLAIN.(pixels := w.pixels) && |w.pixels| == 1
    ensures DeskOk(d) && Shown(d, 0, 0) == w.pixels[0]
  {
    RowsAre();
    assert d.windows[0] == Some(w) && forall k :: 1 <= k < |d.windows| ==> d.windows[k] == None;
    assert SlotOf(d.windows, 1) == Some(0);
    assert d.z[0] == 1;
  }

  /** The first flush is right; the second leaves the old colour on the screen. */
  lemma StaleWindowStays() returns (states: seq<Screen>)
    ensures Run(states, INPUTS) && states[0] == START && AllShown(states[1]) && !AllShown(states[2])
    ensures !InputAnnounced(states[1], TOO_WIDE)
    ensures ScreenOk(states[2]) && FrontAt(states[2], 0, 0) == 0 && Shown(states[2].desk, 0, 0) == 5
  {
    WindowOpens();
    states := RunExists(START, INPUTS);
    var s0, s1, s2 := states[0], states[1], states[2];
    assert Frame(s0, OPEN, s1) && Frame(s1, TOO_WIDE, s2) by {
      assert INPUTS[0] == OPEN && INPUTS[1] == TOO_WIDE;
    }
    hide Run, DeskOk, Ideal, Steps, MovePointer, SceneAfter;
    FlushShows(Receive(s0, OPEN), s1);
    StoreIsSilent(s1);
    assert TABLE == TABLE[0 := Some(PLAIN)];
    PixelIs(s1.desk, PLAIN);
    PixelIs(s2.desk, PAINTED);
    assert FrontAt(s1, 0, 0) == 0 && FrontAt(s2, 0, 0) == FrontAt(s1, 0, 0);
    if InputAnnounced(s1, TOO_WIDE) {
      ReceiveKeepsFresh(s1, TOO_WIDE);
      FlushShows(Receive(s1, TOO_WIDE), s2);
    }
  }
}
