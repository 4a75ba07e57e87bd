/** Sequence helpers shared by the buffer-cache and page-allocator models. */
module SeqUtil {

  /** The lists of `ls`, concatenated in index order. */
  function Flat(ls: seq<seq<nat>>): seq<nat>
  {
    if ls == [] then [] else ls[0] + Flat(ls[1..])
  }

  /** `s` in reverse order: what pushing s[0], s[1], ... one by one onto
      the head of an empty list leaves there. */
  function Rev(s: seq<nat>): seq<nat>
  {
    if s == [] then [] else [s[|s| - 1]] + Rev(s[..|s| - 1])
  }

  lemma {:induction false} RevIndex(s: seq<nat>)
    ensures |Rev(s)| == |s|
    ensures forall k | 0 <= k < |s| :: Rev(s)[k] == s[|s| - 1 - k]
  {
    if s != [] {
      RevIndex(s[..|s| - 1]);
    }
  }

  lemma {:induction false} RevMultiset(s: seq<nat>)
    ensures multiset(Rev(s)) == multiset(s)
  {
    if s != [] {
      RevMultiset(s[..|s| - 1]);
      assert s == s[..|s| - 1] + [s[|s| - 1]];
    }
  }

  /** Pushing one more element at the head of a reversed prefix. */
  lemma RevSnoc(s: seq<nat>, x: nat)
    ensures Rev(s + [x]) == [x] + Rev(s)
  {
    assert (s + [x])[..|s|] == s;
  }

  /** The head of Rev(s) is the last element of s, and the rest is the
      reversal of the others. */
  lemma PopLast(s: seq<nat>)
    requires s != []
    ensures Rev(s)[0] == s[|s| - 1] && Rev(s)[1..] == Rev(s[..|s| - 1])
  {
  }

  /** Dropping the first t elements of list i takes exactly those
      elements out of the flattened whole. */
  lemma {:induction false} FlatDrop(ls: seq<seq<nat>>, i: nat, t: nat)
    requires i < |ls| && t <= |ls[i]|
    ensures multiset(Flat(ls)) == multiset(Flat(ls[i := ls[i][t..]])) + multiset(ls[i][..t])
  {
    if i == 0 {
      assert ls[i := ls[i][t..]][1..] == ls[1..];
      assert ls[0] == ls[0][..t] + ls[0][t..];
    } else {
      FlatDrop(ls[1..], i - 1, t);
      assert ls[i := ls[i][t..]][1..] == ls[1..][i - 1 := ls[i][t..]];
    }
  }
}
