/** The list move used to reorder a row's cells: take the element at `from` out
    of the list and put it back in at `to`, shifting everything in between by
    one slot. This is the behaviour the table gets from the `lodash-move`
    package. */
module ListMove {

  /** Removes the element at `from`, then inserts it at `to` in what is left.
      A target past the end puts the element last, as lodash-move does; a
      source past the end leaves the list as it is. */
  function Move<T>(s: seq<T>, from: nat, to: nat): (r: seq<T>)
    ensures |r| == |s|
    ensures from < |s| ==> r[if to < |s| then to else |s| - 1] == s[from]
  {
    if from >= |s| then s
    else
      var rest := s[..from] + s[from + 1..];
      var at := if to < |s| then to else |s| - 1;
      rest[..at] + [s[from]] + rest[at..]
  }

  /** The position in the original list of the element that a move from
      `from` to `to` places at position `i`. */
  function Origin(from: nat, to: nat, i: nat): nat
  {
    if i == to then from
    else if from < to && from <= i < to then i + 1
    else if to < from && to < i <= from then i - 1
    else i
  }

  /** Every slot of the moved list holds the element of the original list at
      `Origin`: the moved element lands at `to`, the elements between the two
      positions shift by one towards `from`, the rest stay where they were. */
  lemma {:induction false} MoveAt<T>(s: seq<T>, from: nat, to: nat, i: nat)
    requires from < |s| && to < |s| && i < |s|
    ensures Origin(from, to, i) < |s|
    ensures Move(s, from, to)[i] == s[Origin(from, to, i)]
  {
    var rest := s[..from] + s[from + 1..];
    assert |rest| == |s| - 1;
    assert forall j :: 0 <= j < |rest| ==> rest[j] == (if j < from then s[j] else s[j + 1]);
    var r := rest[..to] + [s[from]] + rest[to..];
    assert Move(s, from, to) == r;
    if i < to {
      assert r[i] == rest[i];
    } else if i > to {
      assert r[i] == rest[i - 1];
    }
  }

  /** A move is a permutation: the same elements, each as often. */
  lemma {:induction false} MovePermutes<T>(s: seq<T>, from: nat, to: nat)
    ensures multiset(Move(s, from, to)) == multiset(s)
  {
    if from < |s| {
      var rest := s[..from] + s[from + 1..];
      var at := if to < |s| then to else |s| - 1;
      assert s == s[..from] + [s[from]] + s[from + 1..];
      calc {
        multiset(Move(s, from, to));
        { assert Move(s, from, to) == rest[..at] + [s[from]] + rest[at..]; }
        multiset(rest[..at]) + multiset{s[from]} + multiset(rest[at..]);
        { assert rest == rest[..at] + rest[at..]; }
        multiset(rest) + multiset{s[from]};
        multiset(s[..from]) + multiset(s[from + 1..]) + multiset{s[from]};
        multiset(s);
      }
    }
  }

  lemma OriginInverse(from: nat, to: nat, i: nat)
    ensures Origin(from, to, Origin(to, from, i)) == i
  {
  }

  /** Moving back from `to` to `from` undoes a move. */
  lemma {:induction false} MoveUndone<T>(s: seq<T>, from: nat, to: nat)
    requires from < |s| && to < |s|
    ensures Move(Move(s, from, to), to, from) == s
  {
    var m := Move(s, from, to);
    forall i | 0 <= i < |s|
      ensures Move(m, to, from)[i] == s[i]
    {
      MoveAt(m, to, from, i);
      MoveAt(s, from, to, Origin(to, from, i));
      OriginInverse(from, to, i);
    }
  }

  /** A move onto the same position changes nothing. */
  lemma {:induction false} MoveInPlace<T>(s: seq<T>, k: nat)
    ensures Move(s, k, k) == s
  {
    if k < |s| {
      forall i | 0 <= i < |s|
        ensures Move(s, k, k)[i] == s[i]
      {
        MoveAt(s, k, k, i);
      }
    }
  }
}
