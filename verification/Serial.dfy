/** Serial-number arithmetic: 16-bit RTP sequence numbers and 32-bit RTP timestamps
    compared modulo their width, as in RFC 1982. */
module Serial {
  import opened Common

  // ---- 16-bit sequence numbers ---------------------------------------------

  function SeqAdd(a: u16, n: int): u16 {
    (a + n) % 0x1_0000
  }

  function SeqNext(a: u16): u16 {
    if a == 0xFFFF then 0 else a + 1
  }

  /** `b - a` in 16-bit unsigned arithmetic. */
  function SeqDistance(a: u16, b: u16): u16 {
    if a <= b then b - a else b - a + 0x1_0000
  }

  predicate SeqLess(a: u16, b: u16) {
    SeqDistance(a, b) < 0x8000 && a != b
  }

  lemma SeqAddIs(a: u16, n: nat)
    requires n < 0x1_0000
    ensures SeqAdd(a, n) == if a + n < 0x1_0000 then a + n else a + n - 0x1_0000
    ensures SeqDistance(a, SeqAdd(a, n)) == n
  {
  }

  lemma SeqAddDistance(a: u16, b: u16)
    ensures SeqAdd(a, SeqDistance(a, b)) == b
  {
  }

  lemma SeqAddAdd(a: u16, m: int, n: int)
    ensures SeqAdd(SeqAdd(a, m), n) == SeqAdd(a, m + n)
  {
  }

  /** Every key lies in the half of the sequence space that starts at `base`. */
  ghost predicate SeqWindow(base: u16, keys: set<u16>) {
    forall k :: k in keys ==> SeqDistance(base, k) < 0x8000
  }

  ghost predicate InSeqWindow(keys: set<u16>) {
    exists base: u16 :: SeqWindow(base, keys)
  }

  /** Inside a half window, comparing serially is comparing distances from its base. */
  lemma SeqLessInWindow(base: u16, a: u16, b: u16)
    requires SeqDistance(base, a) < 0x8000 && SeqDistance(base, b) < 0x8000
    ensures SeqLess(a, b) <==> SeqDistance(base, a) < SeqDistance(base, b)
    ensures SeqDistance(base, a) <= SeqDistance(base, b) ==>
              SeqDistance(a, b) == SeqDistance(base, b) - SeqDistance(base, a)
  {
  }

  // ---- 32-bit timestamps ------------------------------------------------------

  /** `b - a` in 32-bit unsigned arithmetic. */
  function TsDistance(a: u32, b: u32): u32 {
    if a <= b then b - a else b - a + 0x1_0000_0000
  }

  predicate TsLess(a: u32, b: u32) {
    TsDistance(a, b) < 0x8000_0000 && a != b
  }

  /** Every key lies in the half of the timestamp space that starts at `base`. */
  predicate TsWindow(base: u32, keys: set<u32>) {
    forall k :: k in keys ==> TsDistance(base, k) < 0x8000_0000
  }

  /** The keys can be ordered by `TsLess`: they all lie in one half of the space. */
  ghost predicate Orderable(keys: set<u32>) {
    exists base: u32 :: TsWindow(base, keys)
  }

  /** What an ordered container demands of its comparison on the keys it holds. */
  ghost predicate StrictTotalOrder(keys: set<u32>) {
    && (forall a :: a in keys ==> !TsLess(a, a))
    && (forall a, b :: a in keys && b in keys && a != b ==> TsLess(a, b) || TsLess(b, a))
    && (forall a, b, c :: a in keys && b in keys && c in keys && TsLess(a, b) && TsLess(b, c) ==> TsLess(a, c))
  }

  predicate IsOldest(k: u32, keys: set<u32>) {
    k in keys && forall j :: j in keys ==> j == k || TsLess(k, j)
  }

  lemma TsLessInWindow(base: u32, a: u32, b: u32)
    requires TsDistance(base, a) < 0x8000_0000 && TsDistance(base, b) < 0x8000_0000
    ensures TsLess(a, b) <==> TsDistance(base, a) < TsDistance(base, b)
    ensures a == b <==> TsDistance(base, a) == TsDistance(base, b)
  {
  }

  lemma WindowIsOrdered(base: u32, keys: set<u32>)
    requires TsWindow(base, keys)
    ensures StrictTotalOrder(keys)
  {
    forall a, b | a in keys && b in keys
      ensures TsLess(a, b) <==> TsDistance(base, a) < TsDistance(base, b)
      ensures a == b <==> TsDistance(base, a) == TsDistance(base, b)
    {
      TsLessInWindow(base, a, b);
    }
  }

  lemma {:induction false} OrderedHasOldest(keys: set<u32>) returns (k: u32)
    requires keys != {} && StrictTotalOrder(keys)
    ensures IsOldest(k, keys)
    decreases keys
  {
    var x :| x in keys;
    if keys == {x} {
      k := x;
    } else {
      var rest := keys - {x};
      var y := OrderedHasOldest(rest);
      k := if TsLess(x, y) then x else y;
      assert keys == rest + {x};
    }
  }

  /** `TsLess` is not an order on all timestamps. It is one on exactly those key sets
      that fit in one half of the space, which is what a caller of the jitter buffer
      has to guarantee until the first frame has been emitted. */
  lemma OrderableExactly(keys: set<u32>)
    ensures StrictTotalOrder(keys) <==> Orderable(keys)
  {
    if StrictTotalOrder(keys) {
      if keys == {} {
        assert TsWindow(0, keys);
      } else {
        var k := OrderedHasOldest(keys);
        assert TsWindow(k, keys);
      }
    }
    if base: u32 :| TsWindow(base, keys) {
      WindowIsOrdered(base, keys);
    }
  }

  // ---- Timestamps that the comparison cannot tell apart ---------------------------------

  predicate TsEquivalent(a: u32, b: u32) {
    !TsLess(a, b) && !TsLess(b, a)
  }

  /** The timestamp exactly half the space away. */
  function Antipode(ts: u32): u32 {
    if ts < 0x8000_0000 then ts + 0x8000_0000 else ts - 0x8000_0000
  }

  lemma EquivalentExactly(a: u32, b: u32)
    ensures TsEquivalent(a, b) <==> b == a || b == Antipode(a)
    ensures Antipode(Antipode(a)) == a != Antipode(a)
  {
  }

  /** What an ordered map demands of its comparison, on all keys it is given. */
  ghost predicate StrictWeakOrder(keys: set<u32>) {
    && (forall a :: a in keys ==> !TsLess(a, a))
    && (forall a, b, c :: a in keys && b in keys && c in keys && TsLess(a, b) && TsLess(b, c) ==> TsLess(a, c))
    && (forall a, b, c :: a in keys && b in keys && c in keys && TsEquivalent(a, b) && TsEquivalent(b, c) ==>
          TsEquivalent(a, c))
  }

  lemma AntipodeIsOutside(base: u32, keys: set<u32>, ts: u32)
    requires TsWindow(base, keys) && ts in keys
    ensures Antipode(ts) !in keys
  {
    assert TsDistance(base, ts) >= 0x8000_0000 || TsDistance(base, Antipode(ts)) >= 0x8000_0000;
  }

  /** A third key next to an antipodal pair closes a circle. */
  lemma PairStandsAlone(keys: set<u32>, a: u32, c: u32)
    requires StrictWeakOrder(keys) && a in keys && Antipode(a) in keys && c in keys
    ensures c == a || c == Antipode(a)
  {
    var b := Antipode(a);
    assert !TsLess(a, b) && !TsLess(b, a);
    if c != a && c != b {
      BetweenAntipodes(a, c);
    }
  }

  lemma BetweenAntipodes(a: u32, c: u32)
    requires c != a && c != Antipode(a)
    ensures var b := Antipode(a); (TsLess(a, c) && TsLess(c, b)) || (TsLess(b, c) && TsLess(c, a))
  {
  }

  /** The comparison is one that an ordered map can work with on exactly the key sets that
      fit in one half of the space and on pairs half the space apart, whose two keys the
      map takes for one. */
  lemma StrictWeakExactly(keys: set<u32>)
    ensures StrictWeakOrder(keys) <==> Orderable(keys) || exists a: u32 :: keys == {a, Antipode(a)}
  {
    if Orderable(keys) {
      OrderableExactly(keys);
      assert StrictWeakOrder(keys);
    }
    if a: u32 :| keys == {a, Antipode(a)} {
      EquivalentExactly(a, Antipode(a));
      assert StrictWeakOrder({a, Antipode(a)});
    }
    if StrictWeakOrder(keys) {
      if a: u32 :| a in keys && Antipode(a) in keys {
        forall c | c in keys ensures c in {a, Antipode(a)} {
          PairStandsAlone(keys, a, c);
        }
        assert keys == {a, Antipode(a)};
      } else {
        forall a, b | a in keys && b in keys && a != b ensures TsLess(a, b) || TsLess(b, a) {
          EquivalentExactly(a, b);
        }
        assert StrictTotalOrder(keys);
        OrderableExactly(keys);
      }
    }
  }

  /** Three timestamps a third of the space apart precede each other in a circle, and
      two timestamps half the space apart are not ordered at all. */
  lemma TsLessIsNotAnOrder()
    ensures TsLess(0, 0x5555_5555) && TsLess(0x5555_5555, 0xAAAA_AAAA) && TsLess(0xAAAA_AAAA, 0)
    ensures !TsLess(7, 0x8000_0007) && !TsLess(0x8000_0007, 7)
  {
  }

  /** The oldest key of an orderable set is unique, so an ordered map's first entry is
      well defined. */
  function Oldest(keys: set<u32>): (k: u32)
    requires keys != {} && Orderable(keys)
    ensures IsOldest(k, keys)
  {
    var base: u32 :| TsWindow(base, keys);
    WindowIsOrdered(base, keys);
    OldestExists(keys);
    var k: u32 :| k in keys && IsOldest(k, keys);
    k
  }

  lemma OldestExists(keys: set<u32>)
    requires keys != {} && StrictTotalOrder(keys)
    ensures exists k: u32 :: k in keys && IsOldest(k, keys)
  {
    var k := OrderedHasOldest(keys);
  }
}
