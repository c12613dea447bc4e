/** A membership set over the digits 0..9, backed by ten booleans
    (src/engine/hashsetnum.rs). Index 0 exists but a Sudoku digit never uses it. */
module HashSetNum {

  /** Rust's `u8`: every value the source can hand to `insert` or `contains`. */
  type Byte = n: int | 0 <= n < 256

  /** The number of slots in the backing array: `BOARD_SIZE + 1`. */
  const Capacity: nat := 10

  datatype SudokuHashSet = SudokuHashSet(data: seq<bool>)

  /** The backing array always has exactly `Capacity` slots. */
  predicate ValidSet(s: SudokuHashSet) {
    |s.data| == Capacity
  }

  /** The digits the set holds, as a mathematical set: the indices of the
      slots that are set. */
  function Elements(s: SudokuHashSet): (e: set<Byte>)
    requires ValidSet(s)
    ensures forall n :: n in e ==> n < Capacity
  {
    set n: Byte | 0 <= n < Capacity && s.data[n]
  }

  /** `contains`: membership of `n`; indexing past slot 9 is out of bounds in
      the source. */
  function Contains(s: SudokuHashSet, n: Byte): (r: bool)
    requires ValidSet(s) && n < Capacity
    ensures r <==> n in Elements(s)
  {
    s.data[n]
  }

  /** `SudokuHashSet::new`: no digit is a member. */
  function New(): (s: SudokuHashSet)
    ensures ValidSet(s)
    ensures forall n: Byte :: n < Capacity ==> !Contains(s, n)
    ensures Elements(s) == {}
  {
    SudokuHashSet(seq(Capacity, _ => false))
  }

  /** `insert`: afterwards `n` is a member and every other digit keeps its membership. */
  function Insert(s: SudokuHashSet, n: Byte): (r: SudokuHashSet)
    requires ValidSet(s) && n < Capacity
    ensures ValidSet(r)
    ensures Contains(r, n)
    ensures forall m: Byte :: m < Capacity && m != n ==> Contains(r, m) == Contains(s, m)
  {
    SudokuHashSet(s.data[n := true])
  }

  /** After `insert`, the set's digits are the old ones plus `n`. */
  lemma InsertElements(s: SudokuHashSet, n: Byte)
    requires ValidSet(s) && n < Capacity
    ensures Elements(Insert(s, n)) == Elements(s) + {n}
  {
  }

  /** Inserting the same digit twice gives the same set as inserting it once. */
  lemma InsertIdempotent(s: SudokuHashSet, n: Byte)
    requires ValidSet(s) && n < Capacity
    ensures Insert(Insert(s, n), n) == Insert(s, n)
  {
  }

  /** Inserting a digit that is already present changes nothing. */
  lemma InsertPresent(s: SudokuHashSet, n: Byte)
    requires ValidSet(s) && n < Capacity && Contains(s, n)
    ensures Insert(s, n) == s
  {
    assert Insert(s, n).data == s.data;
  }

  /** Every element of `xs` is a legal slot index. */
  predicate AllDigits(xs: seq<Byte>) {
    forall i :: 0 <= i < |xs| ==> xs[i] < Capacity
  }

  /** `from_iter`: start from `new()` and insert the items in iteration order;
      a digit is a member exactly when it occurs among the items. */
  function FromIter(xs: seq<Byte>): (s: SudokuHashSet)
    requires AllDigits(xs)
    ensures ValidSet(s)
    ensures forall n: Byte :: n < Capacity ==> (Contains(s, n) <==> n in xs)
    decreases |xs|
  {
    if |xs| == 0 then New()
    else
      var init := FromIter(xs[..|xs| - 1]);
      assert forall n: Byte :: n in xs <==> n in xs[..|xs| - 1] || n == xs[|xs| - 1] by {
        assert xs == xs[..|xs| - 1] + [xs[|xs| - 1]];
      }
      Insert(init, xs[|xs| - 1])
  }
}
