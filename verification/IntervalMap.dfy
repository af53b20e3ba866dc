/**
 Maps from addresses to values, kept as a sorted list of disjoint inclusive intervals in which
 touching intervals with equal values are merged.  Each operation is shown to refine the
 point-wise map `Get`, and the list is the only canonical one for its map.
 */
module IntervalMap {
  import opened Wrappers

  datatype Entry<V> = Entry(lo: nat, hi: nat, val: V)

  type IMap<V> = seq<Entry<V>>

  ghost predicate Sorted<V>(m: IMap<V>) {
    && (forall i :: 0 <= i < |m| ==> m[i].lo <= m[i].hi)
    && (forall i, j :: 0 <= i < j < |m| ==> m[i].hi < m[j].lo)
  }

  /** Touching neighbours carry different values. */
  ghost predicate Maximal<V>(m: IMap<V>) {
    forall i, j :: 0 <= i < |m| && 0 <= j < |m| && m[i].hi + 1 == m[j].lo ==> m[i].val != m[j].val
  }

  ghost predicate Canonical<V>(m: IMap<V>) {
    Sorted(m) && Maximal(m)
  }

  /** The value at an address. */
  function Get<V>(m: IMap<V>, x: int): Option<V> {
    if m == [] then None
    else if m[0].lo <= x <= m[0].hi then Some(m[0].val)
    else Get(m[1..], x)
  }

  lemma {:induction false} GetIn<V>(m: IMap<V>, i: nat, x: int)
    requires Sorted(m) && i < |m| && m[i].lo <= x <= m[i].hi
    ensures Get(m, x) == Some(m[i].val)
  {
    if i > 0 { GetIn(m[1..], i - 1, x); }
  }

  lemma {:induction false} GetWhere<V>(m: IMap<V>, x: int) returns (i: nat)
    requires Get(m, x).Some?
    ensures i < |m| && m[i].lo <= x <= m[i].hi && Get(m, x) == Some(m[i].val)
  {
    if m[0].lo <= x <= m[0].hi { return 0; }
    i := GetWhere(m[1..], x);
    i := i + 1;
  }

  lemma GetNone<V>(m: IMap<V>, x: int)
    requires Sorted(m)
    ensures Get(m, x).None? <==> forall i :: 0 <= i < |m| ==> !(m[i].lo <= x <= m[i].hi)
  {
  }

  lemma {:induction false} GetConcat<V>(m: IMap<V>, n: IMap<V>, x: int)
    ensures Get(m + n, x) == if Get(m, x).Some? then Get(m, x) else Get(n, x)
  {
    if m == [] {
      assert m + n == n;
    } else {
      assert (m + n)[0] == m[0] && (m + n)[1..] == m[1..] + n;
      GetConcat(m[1..], n, x);
    }
  }

  /** A run of addresses with one value lies inside one interval. */
  lemma RunInOneEntry<V>(m: IMap<V>, a: int, b: int) returns (i: nat)
    requires Canonical(m) && a <= b && Get(m, a).Some?
    requires forall x :: a <= x <= b ==> Get(m, x) == Get(m, a)
    ensures i < |m| && m[i].lo <= a && b <= m[i].hi && Get(m, a) == Some(m[i].val)
  {
    i := GetWhere(m, a);
    if m[i].hi < b {
      var next := m[i].hi + 1;
      assert Get(m, next) == Get(m, a);
      var j := GetWhere(m, next);
      assert false;
    }
  }

  // --- There is one canonical list per map ---

  lemma {:induction false} CanonicalIsUnique<V>(m: IMap<V>, n: IMap<V>)
    requires Canonical(m) && Canonical(n)
    requires forall x: int :: Get(m, x) == Get(n, x)
    ensures m == n
  {
    hide Canonical;
    if m == [] || n == [] {
      if n != [] { FirstIsIn(n); }
      if m != [] { FirstIsIn(m); }
    } else {
      FirstAgrees(m, n);
      FirstAgrees(n, m);
      TailIsCanonical(m);
      TailIsCanonical(n);
      forall x: int ensures Get(m[1..], x) == Get(n[1..], x) { TailsAgree(m, n, x); }
      CanonicalIsUnique(m[1..], n[1..]);
      assert m == [m[0]] + m[1..] && n == [n[0]] + n[1..];
    }
  }

  lemma FirstIsIn<V>(m: IMap<V>)
    requires Canonical(m) && m != []
    ensures Get(m, m[0].lo).Some?
  {
    GetIn(m, 0, m[0].lo);
  }

  lemma TailIsCanonical<V>(m: IMap<V>)
    requires Canonical(m) && m != []
    ensures Canonical(m[1..])
  {
  }

  lemma TailsAgree<V>(m: IMap<V>, n: IMap<V>, x: int)
    requires Canonical(m) && Canonical(n) && m != [] && n != [] && m[0] == n[0] && Get(m, x) == Get(n, x)
    ensures Get(m[1..], x) == Get(n[1..], x)
  {
    hide Canonical;
    if m[0].lo <= x <= m[0].hi {
      OnlyInFirst(m, x);
      OnlyInFirst(n, x);
    }
  }

  lemma OnlyInFirst<V>(m: IMap<V>, x: int)
    requires Canonical(m) && m != [] && m[0].lo <= x <= m[0].hi
    ensures Get(m[1..], x) == None
  {
    var rest := m[1..];
    if Get(rest, x).Some? { var i := GetWhere(rest, x); }
  }

  lemma FirstAgrees<V>(m: IMap<V>, n: IMap<V>)
    requires Canonical(m) && Canonical(n) && m != [] && n != []
    requires forall x: int :: Get(m, x) == Get(n, x)
    ensures n[0].lo <= m[0].lo && m[0].val == n[0].val && m[0].hi <= n[0].hi
  {
    var e := m[0];
    forall x | e.lo <= x <= e.hi ensures Get(n, x) == Some(e.val) { GetIn(m, 0, x); assert Get(m, x) == Get(n, x); }
    var i := RunInOneEntry(n, e.lo, e.hi);
    if i > 0 {
      GetIn(n, 0, n[0].lo);
      assert Get(m, n[0].lo) == Get(n, n[0].lo);
      var j := GetWhere(m, n[0].lo);
    }
  }

  // --- Removing an interval ---

  function Pieces<V>(e: Entry<V>, a: nat, b: nat): IMap<V>
    requires a <= b && e.lo <= e.hi
  {
    (if e.lo < a then [Entry(e.lo, if e.hi < a then e.hi else a - 1, e.val)] else [])
    + (if b < e.hi then [Entry(if b < e.lo then e.lo else b + 1, e.hi, e.val)] else [])
  }

  /** Remove the addresses a..=b. */
  function Cut<V>(m: IMap<V>, a: nat, b: nat): IMap<V>
    requires a <= b && forall i :: 0 <= i < |m| ==> m[i].lo <= m[i].hi
  {
    if m == [] then [] else Pieces(m[0], a, b) + Cut(m[1..], a, b)
  }

  lemma PiecesAreCanonical<V>(e: Entry<V>, a: nat, b: nat)
    requires a <= b && e.lo <= e.hi
    ensures var p := Pieces(e, a, b);
      Canonical(p) && forall i :: 0 <= i < |p| ==> e.lo <= p[i].lo && p[i].hi <= e.hi && p[i].val == e.val
  {
  }

  /** Each interval left by a cut is part of one interval before it. */
  lemma {:induction false} CutSource<V>(m: IMap<V>, a: nat, b: nat, i: nat) returns (k: nat)
    requires Sorted(m) && a <= b && i < |Cut(m, a, b)|
    ensures var q := Cut(m, a, b)[i];
      k < |m| && m[k].lo <= q.lo <= q.hi <= m[k].hi && q.val == m[k].val
  {
    var p := Pieces(m[0], a, b);
    if i < |p| { return 0; }
    assert Cut(m, a, b)[i] == Cut(m[1..], a, b)[i - |p|];
    k := CutSource(m[1..], a, b, i - |p|);
    k := k + 1;
  }

  lemma {:induction false} CutIsCanonical<V>(m: IMap<V>, a: nat, b: nat)
    requires Canonical(m) && a <= b
    ensures Canonical(Cut(m, a, b))
  {
    if m != [] {
      var p, rest := Pieces(m[0], a, b), Cut(m[1..], a, b);
      CutIsCanonical(m[1..], a, b);
      PiecesAreCanonical(m[0], a, b);
      forall i | 0 <= i < |rest|
        ensures m[0].hi < rest[i].lo
        ensures m[0].hi + 1 == rest[i].lo ==> m[0].val != rest[i].val
      {
        var k := CutSource(m[1..], a, b, i);
        assert m[1..][k] == m[k + 1];
      }
      ConcatIsCanonical(p, rest, m[0]);
    }
  }

  lemma ConcatIsCanonical<V>(p: IMap<V>, q: IMap<V>, e: Entry<V>)
    requires Canonical(p) && Canonical(q)
    requires forall i :: 0 <= i < |p| ==> p[i].hi <= e.hi && p[i].val == e.val
    requires forall i :: 0 <= i < |q| ==> e.hi < q[i].lo && (e.hi + 1 == q[i].lo ==> e.val != q[i].val)
    ensures Canonical(p + q)
  {
  }

  lemma GetPieces<V>(e: Entry<V>, a: nat, b: nat, x: int)
    requires a <= b && e.lo <= e.hi
    ensures Get(Pieces(e, a, b), x) == if e.lo <= x <= e.hi && !(a <= x <= b) then Some(e.val) else None
  {
    var left := if e.lo < a then [Entry(e.lo, if e.hi < a then e.hi else a - 1, e.val)] else [];
    var right := if b < e.hi then [Entry(if b < e.lo then e.lo else b + 1, e.hi, e.val)] else [];
    GetConcat(left, right, x);
  }

  lemma {:induction false} GetCut<V>(m: IMap<V>, a: nat, b: nat, x: int)
    requires Sorted(m) && a <= b
    ensures Get(Cut(m, a, b), x) == if a <= x <= b then None else Get(m, x)
  {
    if m != [] {
      GetCut(m[1..], a, b, x);
      var p := Pieces(m[0], a, b);
      GetConcat(p, Cut(m[1..], a, b), x);
      GetPieces(m[0], a, b, x);
      if m[0].lo <= x <= m[0].hi { GetNone(m[1..], x); }
    }
  }

  // --- Inserting an interval ---

  /** No address of a..=b has a value. */
  ghost predicate Vacant<V>(m: IMap<V>, a: int, b: int) {
    forall x :: a <= x <= b ==> Get(m, x) == None
  }

  predicate Apart<V>(m: IMap<V>, a: nat, b: nat) {
    forall i :: 0 <= i < |m| ==> m[i].hi < a || b < m[i].lo
  }

  lemma VacantIsApart<V>(m: IMap<V>, a: nat, b: nat)
    requires Sorted(m) && a <= b
    ensures Vacant(m, a, b) <==> Apart(m, a, b)
  {
    if Vacant(m, a, b) {
      forall i | 0 <= i < |m| ensures m[i].hi < a || b < m[i].lo {
        var x := if m[i].lo < a then a else m[i].lo;
        if x <= m[i].hi && x <= b { GetIn(m, i, x); }
      }
    }
    if Apart(m, a, b) {
      forall x | a <= x <= b ensures Get(m, x) == None { GetNone(m, x); }
    }
  }

  /** Insert a..=b, merging with touching neighbours of the same value; an overlap is an error. */
  function Insert<V(==)>(m: IMap<V>, a: nat, b: nat, v: V): Option<IMap<V>>
    requires a <= b
  {
    if Apart(m, a, b) then Some(Splice(m, a, b, v)) else None
  }

  function Splice<V(==)>(m: IMap<V>, a: nat, b: nat, v: V): IMap<V> {
    if m == [] then [Entry(a, b, v)]
    else if b + 1 < m[0].lo || (b + 1 == m[0].lo && m[0].val != v) then [Entry(a, b, v)] + m
    else if b + 1 == m[0].lo then [Entry(a, m[0].hi, v)] + m[1..]
    else if m[0].hi + 1 == a && m[0].val == v then Splice(m[1..], m[0].lo, b, v)
    else [m[0]] + Splice(m[1..], a, b, v)
  }

  lemma ConsIsCanonical<V>(e: Entry<V>, m: IMap<V>)
    requires Canonical(m) && e.lo <= e.hi
    requires m != [] ==> e.hi < m[0].lo && (e.hi + 1 == m[0].lo ==> e.val != m[0].val)
    ensures Canonical([e] + m)
  {
    assert Canonical([e]);
    ConcatIsCanonical([e], m, e);
  }

  lemma {:induction false} SpliceIsCanonical<V>(m: IMap<V>, a: nat, b: nat, v: V)
    requires Canonical(m) && a <= b && Apart(m, a, b)
    ensures Canonical(Splice(m, a, b, v)) && Splice(m, a, b, v) != []
    ensures var first := Splice(m, a, b, v)[0];
      if m == [] || a < m[0].lo then first.lo == a && first.val == v
      else first.lo == m[0].lo && first.val == m[0].val
  {
    if m == [] || b + 1 < m[0].lo || (b + 1 == m[0].lo && m[0].val != v) {
      ConsIsCanonical(Entry(a, b, v), m);
      assert [Entry(a, b, v)] + [] == [Entry(a, b, v)];
    } else {
      assert Canonical(m[1..]) && Apart(m[1..], a, b);
      if b + 1 == m[0].lo {
        ConsIsCanonical(Entry(a, m[0].hi, v), m[1..]);
      } else if m[0].hi + 1 == a && m[0].val == v {
        assert Apart(m[1..], m[0].lo, b);
        SpliceIsCanonical(m[1..], m[0].lo, b, v);
      } else {
        SpliceIsCanonical(m[1..], a, b, v);
        ConsIsCanonical(m[0], Splice(m[1..], a, b, v));
      }
    }
  }

  lemma {:induction false} GetSplice<V>(m: IMap<V>, a: nat, b: nat, v: V, x: int)
    requires Sorted(m) && a <= b && Apart(m, a, b)
    ensures Get(Splice(m, a, b, v), x) == if a <= x <= b then Some(v) else Get(m, x)
  {
    if a <= x <= b { GetNone(m, x); }
    if m == [] || b + 1 < m[0].lo || (b + 1 == m[0].lo && m[0].val != v) {
      GetConcat([Entry(a, b, v)], m, x);
    } else {
      assert Sorted(m[1..]) && Apart(m[1..], a, b);
      if b + 1 == m[0].lo {
        GetConcat([Entry(a, m[0].hi, v)], m[1..], x);
      } else if m[0].hi + 1 == a && m[0].val == v {
        assert Apart(m[1..], m[0].lo, b);
        GetSplice(m[1..], m[0].lo, b, v, x);
      } else {
        GetSplice(m[1..], a, b, v, x);
        GetConcat([m[0]], Splice(m[1..], a, b, v), x);
      }
    }
  }

  /** Inserting succeeds exactly on vacant addresses, sets them, and changes nothing else. */
  lemma InsertRefines<V>(m: IMap<V>, a: nat, b: nat, v: V)
    requires Canonical(m) && a <= b
    ensures Insert(m, a, b, v).Some? <==> Vacant(m, a, b)
    ensures Insert(m, a, b, v).Some? ==>
      && Canonical(Insert(m, a, b, v).value)
      && forall x: int :: Get(Insert(m, a, b, v).value, x) == if a <= x <= b then Some(v) else Get(m, x)
  {
    VacantIsApart(m, a, b);
    if Apart(m, a, b) {
      SpliceIsCanonical(m, a, b, v);
      forall x: int ensures Get(Splice(m, a, b, v), x) == if a <= x <= b then Some(v) else Get(m, x) {
        GetSplice(m, a, b, v, x);
      }
    }
  }

  /** Cutting removes exactly the addresses of the interval. */
  lemma CutRefines<V>(m: IMap<V>, a: nat, b: nat)
    requires Canonical(m) && a <= b
    ensures Canonical(Cut(m, a, b)) && Vacant(Cut(m, a, b), a, b)
    ensures forall x: int :: Get(Cut(m, a, b), x) == if a <= x <= b then None else Get(m, x)
  {
    CutIsCanonical(m, a, b);
    forall x: int ensures Get(Cut(m, a, b), x) == if a <= x <= b then None else Get(m, x) {
      GetCut(m, a, b, x);
    }
  }

  /** Give the addresses a..=b the value v, whatever they had. */
  function Assign<V(==)>(m: IMap<V>, a: nat, b: nat, v: V): Option<IMap<V>>
    requires a <= b && forall i :: 0 <= i < |m| ==> m[i].lo <= m[i].hi
  {
    Insert(Cut(m, a, b), a, b, v)
  }

  /** A cut makes room: inserting into the hole never fails. */
  lemma AssignRefines<V>(m: IMap<V>, a: nat, b: nat, v: V)
    requires Canonical(m) && a <= b
    ensures Assign(m, a, b, v).Some? && Canonical(Assign(m, a, b, v).value)
    ensures forall x: int :: Get(Assign(m, a, b, v).value, x) == if a <= x <= b then Some(v) else Get(m, x)
  {
    CutRefines(m, a, b);
    InsertRefines(Cut(m, a, b), a, b, v);
  }

  // --- Gaps ---

  datatype Gap = Gap(lo: nat, hi: nat)

  /** The vacant intervals inside lo..=hi, in order. */
  function Gaps<V>(m: IMap<V>, lo: nat, hi: int): seq<Gap> {
    if lo > hi then []
    else if m == [] then [Gap(lo, hi)]
    else if m[0].hi < lo then Gaps(m[1..], lo, hi)
    else if hi < m[0].lo then [Gap(lo, hi)]
    else (if lo < m[0].lo then [Gap(lo, m[0].lo - 1)] else []) + Gaps(m[1..], m[0].hi + 1, hi)
  }

  lemma TailOf<V>(m: IMap<V>)
    requires Sorted(m) && m != []
    ensures Sorted(m[1..]) && m[0].lo <= m[0].hi
  {
  }

  lemma ApartTail<V>(m: IMap<V>, a: nat, b: nat)
    requires m != []
    ensures Apart(m, a, b) <==> Apart(m[1..], a, b) && (m[0].hi < a || b < m[0].lo)
  {
  }

  ghost predicate GapOk<V>(m: IMap<V>, lo: nat, hi: int, g: Gap) {
    lo <= g.lo <= g.hi <= hi && Apart(m, g.lo, g.hi)
  }

  /** Every gap lies in the range and is vacant, and gaps come in ascending order. */
  lemma {:induction false} GapsAreVacant<V>(m: IMap<V>, lo: nat, hi: int)
    requires Sorted(m)
    ensures forall i :: 0 <= i < |Gaps(m, lo, hi)| ==> GapOk(m, lo, hi, Gaps(m, lo, hi)[i])
    ensures forall i, j :: 0 <= i < j < |Gaps(m, lo, hi)| ==> Gaps(m, lo, hi)[i].hi < Gaps(m, lo, hi)[j].lo
  {
    if lo <= hi && m != [] && (m[0].hi < lo || m[0].lo <= hi) {
      hide Apart, Sorted;
      TailOf(m);
      var from := if m[0].hi < lo then lo else m[0].hi + 1;
      var tail := Gaps(m[1..], from, hi);
      GapsAreVacant(m[1..], from, hi);
      forall i | 0 <= i < |tail| ensures GapOk(m, lo, hi, tail[i]) {
        assert GapOk(m[1..], from, hi, tail[i]);
        ApartTail(m, tail[i].lo, tail[i].hi);
      }
      if lo <= m[0].hi && lo < m[0].lo { BeforeFirst(m); }
    } else if lo <= hi && m != [] {
      BeforeFirst(m);
    }
  }

  /** Nothing of a sorted map lies before its first interval. */
  lemma BeforeFirst<V>(m: IMap<V>)
    requires Sorted(m) && m != []
    ensures forall a: nat, b: nat :: b < m[0].lo ==> Apart(m, a, b)
  {
  }

  lemma GapsAfterFirst<V>(m: IMap<V>, lo: nat, hi: int)
    requires m != [] && lo <= hi && lo <= m[0].hi && m[0].lo <= hi
    ensures Gaps(m, lo, hi) ==
      (if lo < m[0].lo then [Gap(lo, m[0].lo - 1)] else []) + Gaps(m[1..], m[0].hi + 1, hi)
  {
  }

  lemma GapsOutside<V>(m: IMap<V>, lo: nat, hi: int)
    requires lo <= hi
    ensures m == [] ==> Gaps(m, lo, hi) == [Gap(lo, hi)]
    ensures m != [] && m[0].hi < lo ==> Gaps(m, lo, hi) == Gaps(m[1..], lo, hi)
    ensures m != [] && lo <= m[0].hi && hi < m[0].lo ==> Gaps(m, lo, hi) == [Gap(lo, hi)]
  {
  }

  ghost predicate Encloses(gaps: seq<Gap>, i: nat, a: nat, b: nat) {
    i < |gaps| && gaps[i].lo <= a && b <= gaps[i].hi
  }

  /** A vacant run inside the range lies inside one gap. */
  lemma {:induction false} VacantRunInGap<V>(m: IMap<V>, lo: nat, hi: int, a: nat, b: nat) returns (i: nat)
    requires Sorted(m) && lo <= a <= b <= hi && Apart(m, a, b)
    ensures Encloses(Gaps(m, lo, hi), i, a, b)
  {
    hide Apart, Sorted, Gaps;
    GapsOutside(m, lo, hi);
    if m == [] || (lo <= m[0].hi && hi < m[0].lo) { return 0; }
    TailOf(m);
    ApartTail(m, a, b);
    if m[0].hi < lo {
      i := VacantRunInGap(m[1..], lo, hi, a, b);
    } else {
      GapsAfterFirst(m, lo, hi);
      i := 0;
      if m[0].lo <= b {
        i := VacantRunInGap(m[1..], m[0].hi + 1, hi, a, b);
        i := if lo < m[0].lo then i + 1 else i;
      }
    }
  }
}
