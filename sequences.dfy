/** Small facts about sequence concatenation, stated once for every module. */
module Sequences {

  lemma ConcatAssoc<T>(x: seq<T>, y: seq<T>, z: seq<T>)
    ensures x + (y + z) == (x + y) + z
  {
  }

  /** Joining three parts with a separator does not depend on how the joins are grouped. */
  lemma JoinAssoc<T>(x: seq<T>, sep: seq<T>, y: seq<T>, z: seq<T>)
    ensures x + sep + (y + sep + z) == (x + sep + y) + sep + z
  {
  }

  /** Dropping a prefix of the first part of a concatenation. */
  lemma DropAppended<T>(v: seq<T>, w: seq<T>, n: nat)
    requires n <= |v|
    ensures (v + w)[n..] == v[n..] + w
  {
  }

  /** A sequence is its first `n` elements followed by the rest. */
  lemma TakeDrop<T>(s: seq<T>, n: nat)
    requires n <= |s|
    ensures s[..n] + s[n..] == s
  {
  }

  /** Two sequences with the same head, one of whose tails extends the other's, differ by that extension. */
  lemma HeadThenTail<T>(x: seq<T>, v: seq<T>, head: seq<T>, y: seq<T>, w: seq<T>, tail: seq<T>)
    requires x == head + y && v == head + w && y == w + tail
    ensures x == v + tail
  {
  }
}
