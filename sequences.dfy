/** Generic sequence helpers shared by the text and page models. */
module Sequences {
  /** Concatenation of a sequence of sequences, in order (`Array.prototype.join("")` on strings). */
  function Concat<T>(ss: seq<seq<T>>): (r: seq<T>)
    ensures ss == [] ==> r == []
  {
    if ss == [] then [] else Concat(ss[..|ss| - 1]) + ss[|ss| - 1]
  }

  lemma ConcatAppend<T>(ss: seq<seq<T>>, s: seq<T>)
    ensures Concat(ss + [s]) == Concat(ss) + s
  {
    assert (ss + [s])[..|ss|] == ss;
  }

  lemma {:induction false} ConcatSplit<T>(a: seq<seq<T>>, b: seq<seq<T>>)
    ensures Concat(a + b) == Concat(a) + Concat(b)
    decreases |b|
  {
    if b == [] {
      assert a + b == a;
    } else {
      var b' := b[..|b| - 1];
      assert a + b == (a + b') + [b[|b| - 1]];
      ConcatAppend(a + b', b[|b| - 1]);
      ConcatSplit(a, b');
      ConcatAppend(b', b[|b| - 1]);
      assert b == b' + [b[|b| - 1]];
    }
  }

  lemma ConcatSingle<T>(s: seq<T>)
    ensures Concat([s]) == s
  {
    ConcatAppend([], s);
  }

  lemma ConcatCons<T>(s: seq<T>, ss: seq<seq<T>>)
    ensures Concat([s] + ss) == s + Concat(ss)
  {
    ConcatSplit([s], ss);
    ConcatSingle(s);
  }
}
