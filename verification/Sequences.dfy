/** Regroupings of concatenations, stated on their own to keep other proofs small. */
module Sequences {

  lemma Assoc<T>(a: seq<T>, b: seq<T>, c: seq<T>, d: seq<T>, e: seq<T>)
    ensures a + (b + c + d) + e == (a + b) + c + (d + e)
  {
  }

  lemma AssocLeft<T>(a: seq<T>, b: seq<T>, c: seq<T>, d: seq<T>)
    ensures a + (b + c + d) == (a + b) + c + d
  {
  }

  lemma Regroup<T>(a: seq<T>, b: seq<T>, c: seq<T>, d: seq<T>)
    ensures a + b + c + d == a + (b + (c + d))
    ensures a + b + c + d == a + (b + c + d)
  {
    assert b + c + d == b + (c + d);
  }

  lemma GlueHead<T>(s: seq<T>, a: seq<T>, b: seq<T>, c: seq<T>)
    requires s != [] && a + b == s[1..] + c
    ensures [s[0]] + a + b == s + c
  {
    assert [s[0]] + a + b == [s[0]] + (a + b);
    assert [s[0]] + (s[1..] + c) == s + c;
  }

  /** A vector used as a stack, read from its back. */
  function FromBack<T>(stack: seq<T>): (r: seq<T>)
    ensures |r| == |stack|
  {
    if stack == [] then [] else [stack[|stack| - 1]] + FromBack(stack[..|stack| - 1])
  }

  lemma FromBackPush<T>(stack: seq<T>, x: T)
    ensures FromBack(stack + [x]) == [x] + FromBack(stack)
  {
    assert (stack + [x])[..|stack|] == stack;
  }
}
