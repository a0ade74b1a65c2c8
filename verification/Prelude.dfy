/** Small shared datatypes, and paths of a transition system. */
module Prelude {

  datatype Option<+T> = None | Some(value: T)

  /** One octet, C's `unsigned char`. */
  newtype Byte = x: int | 0 <= x < 256

  /** The number of values of a 32-bit unsigned integer. */
  const TWO32: int := 0x1_0000_0000

  /** States ss joined by the actions acts, each step by the relation step. */
  ghost predicate Linked<S(!new), A(!new)>(ss: seq<S>, acts: seq<A>, step: (S, A, S) -> bool) {
    |ss| == |acts| + 1 && forall i :: 0 <= i < |acts| ==> step(ss[i], acts[i], ss[i + 1])
  }

  lemma JoinLinked<S(!new), A(!new)>(ss: seq<S>, acts: seq<A>, ss': seq<S>, acts': seq<A>, step: (S, A, S) -> bool)
    requires Linked(ss, acts, step) && Linked(ss', acts', step) && ss[|acts|] == ss'[0]
    ensures Linked(ss + ss'[1..], acts + acts', step)
    ensures (ss + ss'[1..])[0] == ss[0] && (ss + ss'[1..])[|acts + acts'|] == ss'[|acts'|]
  {
    var zs, as' := ss + ss'[1..], acts + acts';
    forall i | 0 <= i < |as'| ensures step(zs[i], as'[i], zs[i + 1]) {
      if i < |acts| {
        assert step(ss[i], acts[i], ss[i + 1]);
      } else {
        var j := i - |acts|;
        assert step(ss'[j], acts'[j], ss'[j + 1]);
      }
    }
  }
}
