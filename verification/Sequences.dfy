/** Equalities of sequences that are cheaper to cite than to find again. */
module Sequences {

  lemma HeadTail<T>(s: seq<T>)
    requires s != []
    ensures [s[0]] + s[1..] == s
  {
  }

  lemma Regroup<T>(x: seq<T>, y: seq<T>, z: seq<T>)
    ensures x + y + z == x + (y + z)
  {
  }

  lemma Regroup4<T>(x: seq<T>, y: seq<T>, z: seq<T>, w: seq<T>)
    ensures x + y + z + w == x + (y + z + w)
    ensures x + (y + z) + w == x + y + z + w
  {
  }

  lemma CutAt<T>(x: seq<T>, y: seq<T>)
    ensures (x + y)[..|x|] == x && (x + y)[|x|..] == y
  {
  }

  /** The last element of a list moves to the front of what follows it. */
  lemma LastMoved<T>(s: seq<T>, more: seq<T>)
    requires s != []
    ensures s[..|s| - 1] + ([s[|s| - 1]] + more) == s + more
  {
  }
}
