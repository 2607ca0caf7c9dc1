/**
 Small facts about sequence slicing and concatenation. Each follows from
 Dafny's built-in sequence axioms and verifies with an empty body. They are
 kept as separate lemmas to hold down proof cost: asserted directly inside a
 proof that also unfolds `Escape`, these facts make the solver search far
 longer, and some of those proofs then run out of resource.
 */
module SeqFacts {

  lemma ConsTail<T>(x: T, s: seq<T>)
    ensures ([x] + s)[0] == x && ([x] + s)[1..] == s
  {
  }

  lemma HeadTail<T>(s: seq<T>)
    requires s != []
    ensures s == [s[0]] + s[1..]
  {
  }

  lemma ConcatEmpty<T>(b: seq<T>)
    ensures [] + b == b
  {
  }

  lemma ConcatTail<T>(a: seq<T>, b: seq<T>)
    requires a != []
    ensures (a + b)[0] == a[0] && (a + b)[1..] == a[1..] + b
  {
  }

  lemma DropPrefix<T>(x: seq<T>, y: seq<T>)
    ensures (x + y)[..|x|] == x && (x + y)[|x|..] == y
  {
  }

  lemma PrefixSplit<T>(x: seq<T>, t: seq<T>)
    requires x <= t
    ensures t == x + t[|x|..]
  {
  }

  lemma SplitAt<T>(s: seq<T>, i: nat)
    requires i < |s|
    ensures s == s[..i] + ([s[i]] + s[i + 1..])
  {
  }

  lemma Assoc<T>(x: seq<T>, y: seq<T>, z: seq<T>)
    ensures x + (y + z) == x + y + z
  {
  }

  lemma PrefixOfPrefix<T>(s: seq<T>, i: nat, j: nat)
    requires i < j <= |s|
    ensures s[..j][..i] == s[..i] && s[..j][i] == s[i]
    ensures s == s[..j] + s[j..]
  {
  }

  lemma MultisetCons<T>(s: seq<T>)
    requires s != []
    ensures multiset(s) == multiset{s[0]} + multiset(s[1..])
  {
    HeadTail(s);
  }
}
