/**
 Writing to user memory from the kernel: bytes go through the task's page tables to frames, and every
 page that maps the same frame sees them.
 */
module UserMemory {
  import opened Wrappers
  import opened PhysicalMemory
  import opened PageTables

  // --- Words ---

  function LittleEndian(w: nat, n: nat): (r: seq<Byte>)
    ensures |r| == n && (n > 0 ==> r[0] == w % 256)
  {
    if n == 0 then [] else [w % 256] + LittleEndian(w / 256, n - 1)
  }

  function FromLittleEndian(bytes: seq<Byte>): nat {
    if bytes == [] then 0 else bytes[0] + 256 * FromLittleEndian(bytes[1..])
  }

  function Bound(n: nat): nat { if n == 0 then 1 else 256 * Bound(n - 1) }

  lemma {:induction false} WordRoundTrip(w: nat, n: nat)
    requires w < Bound(n)
    ensures FromLittleEndian(LittleEndian(w, n)) == w
  {
    if n > 0 {
      WordRoundTrip(w / 256, n - 1);
      assert LittleEndian(w, n)[1..] == LittleEndian(w / 256, n - 1);
    }
  }

  // --- Stores ---

  predicate Maps(s: Space, v: nat) {
    v / PAGE_SIZE in s.pages
  }

  /** The n addresses from `at` on are mapped. */
  predicate Reaches(s: Space, at: nat, n: nat) {
    forall v: nat :: at <= v < at + n ==> Maps(s, v)
  }

  function StoreByte(s: Space, ram: Ram, v: nat, b: Byte): Ram
    requires Maps(s, v)
  {
    var f := s.pages[v / PAGE_SIZE];
    Write(ram, f, ram(f)[v % PAGE_SIZE := b])
  }

  function Store(s: Space, ram: Ram, at: nat, bytes: seq<Byte>): Ram
    requires Reaches(s, at, |bytes|)
  {
    if bytes == [] then ram
    else
      var n := |bytes| - 1;
      StoreByte(s, Store(s, ram, at, bytes[..n]), at + n, bytes[n])
  }

  /** Two addresses of two tasks lead to the same byte of the same frame. */
  predicate SamePlace(s: Space, v: nat, s': Space, v': nat) {
    && Maps(s, v) && Maps(s', v')
    && s.pages[v / PAGE_SIZE] == s'.pages[v' / PAGE_SIZE] && v % PAGE_SIZE == v' % PAGE_SIZE
  }

  /** What a task reads at v after `bytes` went to addresses `at`.. of another: a stored byte where the two
      lead to the same place, and what it read before anywhere else. */
  ghost predicate Seen(s': Space, v: nat, ram: Ram, ram': Ram, s: Space, at: nat, bytes: seq<Byte>) {
    && (forall u: nat :: at <= u < at + |bytes| && SamePlace(s', v, s, u) ==>
          ByteAt(s', ram', v) == Some(bytes[u - at]))
    && (Misses(s', v, s, at, |bytes|) ==> ByteAt(s', ram', v) == ByteAt(s', ram, v))
  }

  ghost predicate Misses(s': Space, v: nat, s: Space, at: nat, n: nat) {
    forall u: nat :: at <= u < at + n ==> !SamePlace(s', v, s, u)
  }

  lemma StoreByteSeen(s: Space, ram: Ram, at: nat, b: Byte, s': Space, v: nat)
    requires Maps(s, at)
    ensures ByteAt(s', StoreByte(s, ram, at, b), v) == if SamePlace(s', v, s, at) then Some(b) else ByteAt(s', ram, v)
  {
  }

  lemma {:induction false} StoreSeen(s: Space, ram: Ram, at: nat, bytes: seq<Byte>, s': Space, v: nat)
    requires Reaches(s, at, |bytes|) && |bytes| <= PAGE_SIZE
    ensures Seen(s', v, ram, Store(s, ram, at, bytes), s, at, bytes)
  {
    hide ByteAt, StoreByte, SamePlace;
    if bytes != [] {
      var n := |bytes| - 1;
      var before := Store(s, ram, at, bytes[..n]);
      StoreSeen(s, ram, at, bytes[..n], s', v);
      StoreByteSeen(s, before, at + n, bytes[n], s', v);
      forall u: nat | at <= u < at + |bytes| && SamePlace(s', v, s, u)
        ensures ByteAt(s', Store(s, ram, at, bytes), v) == Some(bytes[u - at])
      {
        if u < at + n { OnePlace(s', v, s, u, at + n); }
      }
    }
  }

  /** Addresses less than a page apart lead to different places. */
  lemma OnePlace(s': Space, v: nat, s: Space, u: nat, w: nat)
    requires SamePlace(s', v, s, u) && u < w < u + PAGE_SIZE
    ensures !SamePlace(s', v, s, w)
  {
  }

  // --- Reading back ---

  function ReadBytes(s: Space, ram: Ram, at: nat, n: nat): (r: seq<Byte>)
    requires Reaches(s, at, n)
    ensures |r| == n && forall i :: 0 <= i < n ==> Some(r[i]) == ByteAt(s, ram, at + i)
  {
    if n == 0 then [] else
      assert Maps(s, at + n - 1);
      ReadBytes(s, ram, at, n - 1) + [ByteAt(s, ram, at + n - 1).value]
  }

  /** A stored word reads back. */
  lemma StoreThenRead(s: Space, ram: Ram, at: nat, w: nat, n: nat)
    requires Reaches(s, at, n) && n <= PAGE_SIZE && w < Bound(n)
    ensures FromLittleEndian(ReadBytes(s, Store(s, ram, at, LittleEndian(w, n)), at, n)) == w
  {
    hide Store, ByteAt, LittleEndian, FromLittleEndian;
    var bytes := LittleEndian(w, n);
    var ram' := Store(s, ram, at, bytes);
    forall i | 0 <= i < n ensures ByteAt(s, ram', at + i) == Some(bytes[i]) {
      StoreSeen(s, ram, at, bytes, s, at + i);
      assert Maps(s, at + i) && SamePlace(s, at + i, s, at + i);
    }
    assert ReadBytes(s, ram', at, n) == bytes;
    WordRoundTrip(w, n);
  }
}
