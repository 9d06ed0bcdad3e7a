/** The list and random-number primitives the generator's loop calls:
    `random.randrange`, `random.choice` and `list.remove`.

    Randomness is an arbitrary stream of draws `draws: nat -> nat`; the k-th
    call to the random module sees `draws(k)`, reduced into its range, so any
    sequence of in-range choices is possible. */
module Frontier {
  import opened Outcomes

  /** `random.randrange(0, n)`: a value in [0, n), or ValueError for an
      empty range. */
  function RandRange(n: int, draw: nat): (r: Result<int>)
    ensures r.Ok? <==> 0 < n
    ensures r.Err? ==> r.error == ValueError
    ensures r.Ok? ==> 0 <= r.value < n
  {
    if n <= 0 then Err(ValueError) else Ok(draw % n)
  }

  /** `random.choice(s)`: an element of `s`, or IndexError when `s` is empty. */
  function Choice<T>(s: seq<T>, draw: nat): (r: Result<T>)
    ensures r.Ok? <==> 0 < |s|
    ensures r.Err? ==> r.error == IndexError
    ensures r.Ok? ==> r.value in s
  {
    if |s| == 0 then Err(IndexError) else Ok(s[draw % |s|])
  }

  /** Every draw is possible: for each index of a non-empty list there is a
      draw that chooses it. */
  lemma ChoiceReachesEveryIndex<T>(s: seq<T>, i: nat)
    requires i < |s|
    ensures Choice(s, i) == Ok(s[i])
  {
  }

  /** The position of the first occurrence of `x` in `s`. */
  function FirstIndex<T(==)>(s: seq<T>, x: T): (i: nat)
    requires x in s
    ensures i < |s| && s[i] == x && x !in s[..i]
  {
    if s[0] == x then 0 else 1 + FirstIndex(s[1..], x)
  }

  /** `s.remove(x)`: deletes the first occurrence of `x`, or raises
      ValueError when there is none. */
  function Remove<T(==)>(s: seq<T>, x: T): (r: Result<seq<T>>)
    ensures r.Ok? <==> x in s
    ensures r.Err? ==> r.error == ValueError
    ensures r.Ok? ==> |r.value| == |s| - 1
    ensures r.Ok? ==> multiset(r.value) == multiset(s) - multiset{x}
  {
    if s == [] then Err(ValueError)
    else if s[0] == x then
      assert s == [s[0]] + s[1..];
      Ok(s[1..])
    else
      var rest :- Remove(s[1..], x);
      assert s == [s[0]] + s[1..];
      Ok([s[0]] + rest)
  }

  /** `remove` deletes exactly the first occurrence: the elements before it
      and after it stay, in order. */
  lemma {:induction false} RemoveDeletesFirst<T>(s: seq<T>, x: T)
    requires x in s
    ensures Remove(s, x).value == s[..FirstIndex(s, x)] + s[FirstIndex(s, x) + 1..]
  {
    if s[0] == x {
      assert FirstIndex(s, x) == 0;
      assert s[..0] == [];
    } else {
      var t := s[1..];
      RemoveDeletesFirst(t, x);
      var i := FirstIndex(t, x);
      assert FirstIndex(s, x) == i + 1;
      assert Remove(s, x).value == [s[0]] + Remove(t, x).value;
      assert s[..i + 1] == [s[0]] + t[..i];
      assert s[i + 2..] == t[i + 1..];
    }
  }

  /** Removing an occurrence keeps every other element, and keeps `x` itself
      exactly when it occurred more than once. */
  lemma {:induction false} RemoveKeepsOthers<T>(s: seq<T>, x: T, y: T)
    requires x in s
    ensures y in Remove(s, x).value <==> y in s && (y != x || multiset(s)[x] > 1)
  {
    var r := Remove(s, x).value;
    assert y in r <==> multiset(r)[y] > 0;
    assert y in s <==> multiset(s)[y] > 0;
  }
}
