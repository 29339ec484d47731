module Sequences {

  ghost function SetOf<X>(s: seq<X>): set<X> {
    set x | x in s
  }

  lemma SetOfConcat<X>(a: seq<X>, b: seq<X>)
    ensures SetOf(a + b) == SetOf(a) + SetOf(b)
  {
  }
}
