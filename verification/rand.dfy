/** The random source the generator is handed (the `rand` crate's `RngCore`
    and `SliceRandom::shuffle`). The generator relies on one thing only: a
    shuffle returns a rearrangement of its input. */
module Rand {

  /** A random source: `draw(i)` is the i-th number it produces and `used`
      counts the numbers consumed so far. Any function is allowed, so every
      behaviour of a real generator is one of these. */
  datatype Rng = Rng(draw: nat -> nat, used: nat)

  /** Shuffles `s`: each draw picks which of the remaining items comes next.
      The result is as long as `s`, and the source moves on by one draw per
      item; `ShufflePermutes` shows it is a rearrangement of `s`. */
  function Shuffle<T>(s: seq<T>, rng: Rng): (r: (seq<T>, Rng))
    ensures |r.0| == |s|
    ensures r.1.used == rng.used + |s|
    decreases |s|
  {
    if |s| == 0 then ([], rng)
    else
      var j := rng.draw(rng.used) % |s|;
      var (tail, rng') := Shuffle(s[..j] + s[j + 1..], Rng(rng.draw, rng.used + 1));
      ([s[j]] + tail, rng')
  }

  /** The shuffled sequence holds every item of `s` as often as `s` does. */
  lemma {:induction false} ShufflePermutes<T>(s: seq<T>, rng: Rng)
    ensures multiset(Shuffle(s, rng).0) == multiset(s)
    decreases |s|
  {
    if |s| > 0 {
      var j := rng.draw(rng.used) % |s|;
      var rest := s[..j] + s[j + 1..];
      ShufflePermutes(rest, Rng(rng.draw, rng.used + 1));
      assert s == s[..j] + [s[j]] + s[j + 1..];
    }
  }

  /** An item is in the shuffled sequence exactly when it is in the input. */
  lemma ShuffleSameElements<T>(s: seq<T>, rng: Rng, x: T)
    ensures x in Shuffle(s, rng).0 <==> x in s
  {
    ShufflePermutes(s, rng);
    var r := Shuffle(s, rng).0;
    assert x in r <==> x in multiset(r);
    assert x in s <==> x in multiset(s);
  }
}
