/**
 A run that buries a window, from an empty screen three pixels wide.  Three windows are opened: `low`
 spans the screen, `high` lies on its right end and `small` on its left end.  Updating `small` repaints
 `low` whole, over `high`; the wrong pixel reaches the screen when the pointer moves across it.
 */
module BuriedWindow {
  import opened Wrappers
  import opened Rects
  import opened Framebuffer
  import opened Display
  import opened ZOrder
  import opened Desk
  import opened Scene

  const LOW := Window(1, 0, 0, 3, 1, [0, 0, 0])
  const PLAIN := Window(2, 2, 0, 1, 1, [0])
  const HIGH := Window(2, 2, 0, 1, 1, [2])
  const SMALL := Window(3, 0, 0, 1, 1, [0])

  const EMPTY: Table := seq(32, _ => None)
  const TABLE1: Table := EMPTY[0 := Some(LOW)]
  const TABLE2: Table := TABLE1[1 := Some(PLAIN)]
  const TABLE3: Table := TABLE2[2 := Some(SMALL)]
  const TABLE: Table := TABLE3[1 := Some(HIGH)]

  /** A one-pixel cursor that is transparent. */
  const ARROW := Sprite([0], [0], 1, 1, 0, 0)

  /** The compositor as its event loop starts: no windows, the pointer in the middle, a full redraw due. */
  const BARE := Desk(3, 1, [7, 7, 7], ARROW, EMPTY, 1, [], 1, 0, None, true, true)
  const START := Screen(BARE, [7, 7, 7], [0, 0, 0])

  /** With the three windows open and everything flushed. */
  const DESK := Desk(3, 1, [7, 7, 7], ARROW, TABLE, 4, [1, 2, 3], 1, 0, None, false, false)

  const OPEN_LOW := CreateWindow(3, 1, 0, 0, true)
  const OPEN_HIGH := CreateWindow(1, 1, 2, 0, true)
  const OPEN_SMALL := CreateWindow(1, 1, 0, 0, true)
  const PAINT_HIGH := UpdateWindow(2, 0, 0, 1, 1, map[0 := 2])

  const OPEN := Input([OPEN_LOW, OPEN_HIGH, OPEN_SMALL, PAINT_HIGH], 0, 0)
  const UPDATE_SMALL := Input([UpdateWindow(3, 0, 0, 1, 1, map[])], 0, 0)
  const POINT_RIGHT := Input([], 1, 0)
  const INPUTS := [OPEN, UPDATE_SMALL, POINT_RIGHT]

  lemma RowsAre()
    ensures RowBase(3, 0) == 0 && RowBase(3, 1) == 3 && RowBase(1, 0) == 0 && RowBase(1, 1) == 1
  {
  }

  /** The first three slots of the tables, and how they come about. */
  lemma TableIs()
    ensures |TABLE| == MAX_WINDOWS && forall k :: 3 <= k < |TABLE| ==> TABLE[k] == None
    ensures TABLE[0] == Some(LOW) && TABLE[1] == Some(HIGH) && TABLE[2] == Some(SMALL)
    ensures Find(TABLE, 1) == Some(LOW) && Find(TABLE, 2) == Some(HIGH) && Find(TABLE, 3) == Some(SMALL)
    ensures SlotOf(TABLE, 3) == Some(2)
  {
    assert TABLE[0] == Some(LOW) && TABLE[1] == Some(HIGH) && TABLE[2] == Some(SMALL);
  }

  lemma SlotsAre()
    ensures FreeSlot(EMPTY) == Some(0) && FreeSlot(TABLE1) == Some(1) && FreeSlot(TABLE2) == Some(2)
    ensures SlotOf(TABLE3, 2) == Some(1)
  {
    assert EMPTY[0].None? && TABLE1[0].Some? && TABLE1[1].None?;
    assert TABLE2[0].Some? && TABLE2[1].Some? && TABLE2[2].None?;
    assert TABLE3[0] == Some(LOW) && TABLE3[1] == Some(PLAIN);
  }

  lemma StartIsRight()
    ensures ScreenOk(START)
  {
    RowsAre();
  }

  /** The three requests to open a window. */
  lemma LowOpens()
    ensures Step(BARE, OPEN_LOW) == BARE.(windows := TABLE1, nextId := 2, z := [1])
  {
    SlotsAre();
    RowsAre();
    assert NewWindow(1, OPEN_LOW) == LOW;
  }

  lemma HighOpens()
    ensures Step(BARE.(windows := TABLE1, nextId := 2, z := [1]), OPEN_HIGH) ==
      BARE.(windows := TABLE2, nextId := 3, z := [1, 2])
  {
    SlotsAre();
    RowsAre();
    assert NewWindow(2, OPEN_HIGH) == PLAIN;
  }

  lemma SmallOpens()
    ensures Step(BARE.(windows := TABLE2, nextId := 3, z := [1, 2]), OPEN_SMALL) ==
      BARE.(windows := TABLE3, nextId := 4, z := [1, 2, 3])
  {
    SlotsAre();
    RowsAre();
    assert NewWindow(3, OPEN_SMALL) == SMALL;
  }

  lemma HighPainted()
    ensures Step(BARE.(windows := TABLE3, nextId := 4, z := [1, 2, 3]), PAINT_HIGH) ==
      BARE.(windows := TABLE, nextId := 4, z := [1, 2, 3], pending := Some(Rect(2, 0, 1, 1)))
  {
    SlotsAre();
    assert TABLE3[1] == Some(PLAIN);
    assert Stored(PLAIN.pixels, map[0 := 2]) == [2];
  }

  /** The first batch opens the windows. */
  lemma BatchOpens()
    ensures Cleared(Receive(START, OPEN).desk) == DESK && Receive(START, OPEN).desk.fullRedraw
    ensures Receive(START, OPEN).desk.sceneUpdate
  {
    hide Step;
    LowOpens();
    HighOpens();
    SmallOpens();
    HighPainted();
    var m1: seq<Message>, m2: seq<Message> := [OPEN_LOW], [OPEN_LOW, OPEN_HIGH];
    var m3: seq<Message>, m4 := [OPEN_LOW, OPEN_HIGH, OPEN_SMALL], OPEN.requests;
    assert m1[..0] == [] && m2[..1] == m1 && m3[..2] == m2 && m4[..3] == m3;
    assert Steps(BARE, []) == BARE;
    assert Steps(BARE, m1) == Step(BARE, OPEN_LOW);
    assert Steps(BARE, m2) == Step(Steps(BARE, m1), OPEN_HIGH);
    assert Steps(BARE, m3) == Step(Steps(BARE, m2), OPEN_SMALL);
    assert Steps(BARE, m4) == Step(Steps(BARE, m3), PAINT_HIGH);
  }

  /** The stack [1, 2, 3] at column x. */
  lemma TopIs(x: int, shows: Window -> bool)
    requires 0 <= x < 3 && TableOk(TABLE)
    ensures Top([1, 2, 3], TABLE, shows, x, 0) ==
      if shows(SMALL) && x == 0 then Some(SMALL)
      else if shows(HIGH) && x == 2 then Some(HIGH)
      else if shows(LOW) then Some(LOW) else None
  {
    TableIs();
    var z1: seq<WindowId>, z2: seq<WindowId>, z3: seq<WindowId> := [1], [1, 2], [1, 2, 3];
    assert z1[..0] == [] && z2[..1] == z1 && z3[..2] == z2;
    assert Top(z1, TABLE, shows, x, 0) == if shows(LOW) then Some(LOW) else None;
    assert Top(z2, TABLE, shows, x, 0) == if shows(HIGH) && x == 2 then Some(HIGH) else Top(z1, TABLE, shows, x, 0);
  }

  /** The update damages column 0 only. */
  lemma UpdateDamages(s: Screen)
    requires s.desk == DESK
    ensures Receive(s, UPDATE_SMALL).desk == DESK.(pending := Some(Rect(0, 0, 1, 1)), sceneUpdate := true)
  {
    TableIs();
    var m := UpdateWindow(3, 0, 0, 1, 1, map[]);
    assert Stored(SMALL.pixels, map[]) == SMALL.pixels;
    assert TABLE[2 := Some(SMALL)] == TABLE;
    var ms := [m];
    assert ms[..0] == [];
    assert Steps(DESK, ms) == Step(DESK, m);
  }

  lemma UpdateIsAnnounced(s: Screen)
    requires s.desk == DESK && DeskOk(DESK)
    ensures InputAnnounced(s, UPDATE_SMALL)
  {
    TableIs();
    var ms := UPDATE_SMALL.requests;
    assert ms[..0] == [] && Steps(DESK, []) == DESK && AllAnnounced(DESK, []);
    assert Fits(DESK, ms[0]);
  }

  /** Moving the pointer right damages its old and new place, without recomposing the scene. */
  lemma PointerMoves(d: Desk)
    requires d.width == 3 && d.height == 1 && d.sprite == ARROW && d.cursorX == 1 && d.cursorY == 0 && d.pending == None
    ensures MovePointer(d, 1, 0) == d.(cursorX := 2, pending := Some(Rect(1, 0, 2, 1)))
  {
    hide CursorRect;
    CursorBox(d, 1);
    CursorBox(d.(cursorX := 2), 2);
  }

  lemma CursorBox(d: Desk, x: nat)
    requires d.width == 3 && d.height == 1 && d.sprite == ARROW && d.cursorX == x < 3 && d.cursorY == 0
    ensures CursorRect(d) == Some(Rect(x, 0, 1, 1))
  {
  }

  lemma PointerDamages(s: Screen)
    requires s.desk == DESK
    ensures Receive(s, POINT_RIGHT).desk == DESK.(cursorX := 2, pending := Some(Rect(1, 0, 2, 1)))
  {
    hide MovePointer;
    var d := s.desk;
    assert Steps(d, []) == d;
    PointerMoves(d);
  }

  /** One pixel of a flush. */
  lemma FlushedAt(s: Screen, s': Screen, x: int, y: int)
    requires ScreenOk(s) && Flushed(s, s') && PixelOf(s.desk, x, y)
    ensures ScreenOk(s') && SceneAt(s', x, y) == SceneAfter(s, x, y) && FrontAt(s', x, y) == FrontAfter(s, x, y)
  {
  }

  lemma UpdateBuries(s1: Screen, s2: Screen)
    requires s1.desk == DESK && Frame(s1, UPDATE_SMALL, s2)
    ensures ScreenOk(s2) && s2.desk == DESK && SceneAt(s2, 2, 0) == 0
  {
    UpdateDamages(s1);
    RowsAre();
    var due := Receive(s1, UPDATE_SMALL);
    TopIs(2, Repainted(Rect(0, 0, 1, 1)));
    FlushedAt(due, s2, 2, 0);
  }

  /** The pointer flush copies the wrong pixel to the screen. */
  lemma PointerCopies(s: Screen)
    requires s.desk == DESK.(cursorX := 2, pending := Some(Rect(1, 0, 2, 1))) && ScreenOk(s) && SceneAt(s, 2, 0) == 0
    ensures FrontAfter(s, 2, 0) == 0
  {
  }

  lemma HighIsOnTop(d: Desk)
    requires d == DESK.(cursorX := 2) && DeskOk(d)
    ensures Shown(d, 2, 0) == 2
  {
    TableIs();
    RowsAre();
    TopIs(2, Everything);
  }

  /** In the run that opens the windows, updates one and moves the pointer, the first two flushes are
      right and the third is wrong: column 2 shows `low` although `high` is on top. */
  lemma BuriedWindowShowsThrough() returns (states: seq<Screen>)
    ensures Run(states, INPUTS) && states[0] == START && AllShown(states[1]) && AllShown(states[2])
    ensures !AllShown(states[3])
    ensures ScreenOk(states[3]) && PixelOf(states[3].desk, 2, 0) && FrontAt(states[3], 2, 0) == 0
    ensures Shown(states[3].desk, 2, 0) == 2
  {
    StartIsRight();
    states := RunExists(START, INPUTS);
    var s0, s1, s2, s3 := states[0], states[1], states[2], states[3];
    assert Frame(s0, OPEN, s1) && Frame(s1, UPDATE_SMALL, s2) && Frame(s2, POINT_RIGHT, s3) by {
      assert INPUTS[0] == OPEN && INPUTS[1] == UPDATE_SMALL && INPUTS[2] == POINT_RIGHT;
    }
    hide Run, DeskOk, Ideal, Steps, MovePointer, FrontAfter, SceneAfter, RegionPixel;
    BatchOpens();
    FirstFlush(s0, s1);
    UpdateDamages(s1);
    UpdateIsAnnounced(s1);
    ReceiveKeepsFresh(s1, UPDATE_SMALL);
    FlushShows(Receive(s1, UPDATE_SMALL), s2);
    UpdateBuries(s1, s2);
    PointerDamages(s2);
    PointerCopies(Receive(s2, POINT_RIGHT));
    FlushedAt(Receive(s2, POINT_RIGHT), s3, 2, 0);
    HighIsOnTop(s3.desk);
  }

  /** The first flush makes the whole screen right, whatever it showed. */
  lemma FirstFlush(s0: Screen, s1: Screen)
    requires s0 == START && ScreenOk(s0) && Frame(s0, OPEN, s1) && Cleared(Receive(s0, OPEN).desk) == DESK
    requires Receive(s0, OPEN).desk.sceneUpdate && Receive(s0, OPEN).desk.fullRedraw
    ensures s1.desk == DESK && AllShown(s1) && FrontFresh(s1)
  {
    hide Steps, MovePointer, Ideal, DeskOk;
    FlushShows(Receive(s0, OPEN), s1);
  }
}
