/**
 The stacking order of window ids, bottom-most first, held in a table of MAX_WINDOWS
 entries: pushing onto a full table does nothing.
 */
module ZOrder {
  const MAX_WINDOWS: nat := 32

  type WindowId = nat

  function ZPush(z: seq<WindowId>, id: WindowId): seq<WindowId> {
    if |z| < MAX_WINDOWS then z + [id] else z
  }

  /** Remove the first (bottom-most) occurrence. */
  function ZRemove(z: seq<WindowId>, id: WindowId): (r: seq<WindowId>)
    ensures |r| == if id in z then |z| - 1 else |z|
  {
    if z == [] then []
    else if z[0] == id then z[1..]
    else [z[0]] + ZRemove(z[1..], id)
  }

  function ZRaise(z: seq<WindowId>, id: WindowId): seq<WindowId> {
    ZPush(ZRemove(z, id), id)
  }

  function ZLower(z: seq<WindowId>, id: WindowId): seq<WindowId> {
    var rest := ZRemove(z, id);
    if |rest| < MAX_WINDOWS then [id] + rest else rest
  }

  /** The stacking order of every window except `id`. */
  ghost function Others(z: seq<WindowId>, id: WindowId): seq<WindowId> {
    if z == [] then []
    else if z[0] == id then Others(z[1..], id)
    else [z[0]] + Others(z[1..], id)
  }

  ghost predicate NoDup(z: seq<WindowId>) {
    forall i, j :: 0 <= i < j < |z| ==> z[i] != z[j]
  }

  /** `z` lists every id of `live` exactly once and nothing else. */
  ghost predicate Arranges(z: seq<WindowId>, live: set<WindowId>) {
    NoDup(z) && forall id :: id in z <==> id in live
  }

  lemma {:induction false} OthersOfConcat(a: seq<WindowId>, b: seq<WindowId>, id: WindowId)
    ensures Others(a + b, id) == Others(a, id) + Others(b, id)
  {
    if a == [] {
      assert a + b == b;
    } else {
      var c := a + b;
      assert c[0] == a[0] && c[1..] == a[1..] + b;
      OthersOfConcat(a[1..], b, id);
      var x, y := Others(a[1..], id), Others(b, id);
      if a[0] != id {
        assert ([a[0]] + x) + y == [a[0]] + (x + y);
      }
    }
  }

  lemma {:induction false} OthersOfRemove(z: seq<WindowId>, id: WindowId)
    ensures Others(ZRemove(z, id), id) == Others(z, id)
  {
    if z != [] && z[0] != id {
      OthersOfRemove(z[1..], id);
      assert ZRemove(z, id)[1..] == ZRemove(z[1..], id);
    }
  }

  /** Raising, lowering and removing a window keep the relative order of all the others. */
  lemma RestackKeepsOthers(z: seq<WindowId>, id: WindowId)
    ensures Others(ZPush(z, id), id) == Others(z, id)
    ensures Others(ZRaise(z, id), id) == Others(z, id)
    ensures Others(ZLower(z, id), id) == Others(z, id)
    ensures Others(ZRemove(z, id), id) == Others(z, id)
  {
    OthersOfRemove(z, id);
    OthersOfConcat(ZRemove(z, id), [id], id);
    OthersOfConcat([id], ZRemove(z, id), id);
    OthersOfConcat(z, [id], id);
  }

  lemma {:induction false} RemoveArranged(z: seq<WindowId>, id: WindowId)
    requires NoDup(z)
    ensures NoDup(ZRemove(z, id))
    ensures forall i :: i in ZRemove(z, id) <==> i in z && i != id
  {
    if z != [] {
      assert z == [z[0]] + z[1..];
      if z[0] == id {
        assert id !in z[1..];
      } else {
        RemoveArranged(z[1..], id);
        assert z[0] !in z[1..];
      }
    }
  }

  lemma {:induction false} ArrangedSize(z: seq<WindowId>, live: set<WindowId>)
    requires Arranges(z, live)
    ensures |z| == |live|
  {
    if z == [] {
      assert live == {};
    } else {
      var rest := live - {z[0]};
      assert z == [z[0]] + z[1..];
      assert z[0] !in z[1..];
      ArrangedSize(z[1..], rest);
    }
  }

  /** A raised window is on top and a lowered one at the bottom, and the table stays an arrangement. */
  lemma RestackArranges(z: seq<WindowId>, live: set<WindowId>, id: WindowId)
    requires Arranges(z, live) && id in live && |z| <= MAX_WINDOWS
    ensures Arranges(ZRaise(z, id), live) && Arranges(ZLower(z, id), live)
    ensures ZRaise(z, id) == Others(z, id) + [id] && ZLower(z, id) == [id] + Others(z, id)
  {
    var rest := ZRemove(z, id);
    RemoveArranged(z, id);
    OthersOfRemove(z, id);
    OthersWithoutId(rest, id);
    InsertArranges(rest, live - {id}, id);
    assert live - {id} + {id} == live;
  }

  lemma InsertArranges(z: seq<WindowId>, live: set<WindowId>, id: WindowId)
    requires Arranges(z, live) && id !in live
    ensures Arranges(z + [id], live + {id}) && Arranges([id] + z, live + {id})
  {
  }

  lemma {:induction false} OthersWithoutId(z: seq<WindowId>, id: WindowId)
    requires id !in z
    ensures Others(z, id) == z
  {
    if z != [] { OthersWithoutId(z[1..], id); }
  }

  /** Restacking an id that is not live corrupts the arrangement exactly when the table has room for it. */
  lemma RestackOfDeadId(z: seq<WindowId>, live: set<WindowId>, id: WindowId)
    requires Arranges(z, live) && id !in live && |z| <= MAX_WINDOWS
    ensures Arranges(ZRaise(z, id), live) <==> |z| == MAX_WINDOWS
    ensures Arranges(ZLower(z, id), live) <==> |z| == MAX_WINDOWS
  {
    OthersWithoutId(z, id);
    RemoveOfAbsent(z, id);
    if |z| < MAX_WINDOWS {
      assert (z + [id])[|z|] == id && ([id] + z)[0] == id;
    }
  }

  lemma {:induction false} RemoveOfAbsent(z: seq<WindowId>, id: WindowId)
    requires id !in z
    ensures ZRemove(z, id) == z
  {
    if z != [] { RemoveOfAbsent(z[1..], id); }
  }
}
