/** Hybrid logical clock stamps and their total order (`crdt/hlc.rs`). */
module HybridClock {
  import opened Basics
  import Text

  type U32 = x: int | 0 <= x <= 0xFFFF_FFFF

  datatype Hlc = Hlc(wallClock: U64, counter: U32, nodeId: string)

  /** `a < b`: wall clock, then counter, then node id. */
  predicate Before(a: Hlc, b: Hlc) {
    || a.wallClock < b.wallClock
    || (a.wallClock == b.wallClock && a.counter < b.counter)
    || (a.wallClock == b.wallClock && a.counter == b.counter && Text.Less(a.nodeId, b.nodeId))
  }

  /** `Before` is a strict total order: two stamps compare equal only when they are the same stamp. */
  lemma HlcOrder(a: Hlc, b: Hlc)
    ensures !Before(a, a)
    ensures Before(a, b) ==> !Before(b, a)
    ensures a == b || Before(a, b) || Before(b, a)
    ensures Before(a, b) ==> a.wallClock <= b.wallClock
  {
    Text.LessIsStrict(a.nodeId, b.nodeId);
  }

  /** The wall clock decides, then the counter, then the node id as text. */
  lemma HlcLexicographic(a: Hlc, b: Hlc)
    ensures a.wallClock != b.wallClock ==> (Before(a, b) <==> a.wallClock < b.wallClock)
    ensures a.wallClock == b.wallClock && a.counter != b.counter ==> (Before(a, b) <==> a.counter < b.counter)
    ensures a.wallClock == b.wallClock && a.counter == b.counter ==>
              (Before(a, b) <==> exists k: nat :: Text.DiffersAt(a.nodeId, b.nodeId, k))
  {
    Text.LessIff(a.nodeId, b.nodeId);
  }

  lemma HlcTransitive(a: Hlc, b: Hlc, c: Hlc)
    requires Before(a, b) && Before(b, c)
    ensures Before(a, c)
  {
    if Text.Less(a.nodeId, b.nodeId) && Text.Less(b.nodeId, c.nodeId) {
      Text.LessIsTransitive(a.nodeId, b.nodeId, c.nodeId);
    }
  }

  /** A non-empty finite collection of stamps has one that none precedes. */
  lemma {:induction false} EarliestExists<K>(keys: set<K>, stamp: K -> Hlc) returns (first: K)
    requires keys != {}
    ensures first in keys && forall k :: k in keys ==> !Before(stamp(k), stamp(first))
  {
    var x :| x in keys;
    if keys == {x} {
      HlcOrder(stamp(x), stamp(x));
      first := x;
    } else {
      var y := EarliestExists(keys - {x}, stamp);
      HlcOrder(stamp(x), stamp(y));
      HlcOrder(stamp(y), stamp(x));
      first := if Before(stamp(x), stamp(y)) then x else y;
      forall k | k in keys ensures !Before(stamp(k), stamp(first)) {
        if first == x && k != x && Before(stamp(k), stamp(x)) {
          HlcTransitive(stamp(k), stamp(x), stamp(y));
        }
      }
    }
  }
}
