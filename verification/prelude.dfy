// Shared result types, the source's optional values and thrown errors, and lists read as sets.
module Prelude {
  datatype Option<+T> = None | Some(value: T)

  datatype Result<+T, +E> = Ok(value: T) | Err(error: E)

  // Whether `x` is among the first `n` elements.
  ghost predicate Listed<T>(xs: seq<T>, n: nat, x: T)
    requires n <= |xs|
  {
    exists i | 0 <= i < n :: xs[i] == x
  }

  lemma ListedNext<T>(xs: seq<T>, n: nat, x: T)
    requires 0 < n <= |xs|
    ensures Listed(xs, n, x) <==> Listed(xs, n - 1, x) || xs[n - 1] == x
  {
    if Listed(xs, n, x) && xs[n - 1] != x {
      var i :| 0 <= i < n && xs[i] == x;
      assert i < n - 1;
    }
  }

  // The parts end to end.
  function Flatten<T>(parts: seq<seq<T>>): seq<T> {
    if parts == [] then [] else parts[0] + Flatten(parts[1..])
  }

  lemma {:induction false} FlattenAppend<T>(parts: seq<seq<T>>, last: seq<T>)
    ensures Flatten(parts + [last]) == Flatten(parts) + last
  {
    if parts == [] {
      assert parts + [last] == [last] && [last][1..] == [];
    } else {
      FlattenAppend(parts[1..], last);
      assert (parts + [last])[1..] == parts[1..] + [last];
      assert parts[0] + (Flatten(parts[1..]) + last) == parts[0] + Flatten(parts[1..]) + last;
    }
  }

  // The values that are there, in order.
  function Somes<T>(options: seq<Option<T>>): seq<T> {
    if options == [] then []
    else (if options[0].Some? then [options[0].value] else []) + Somes(options[1..])
  }

  lemma {:induction false} SomesAppend<T>(options: seq<Option<T>>, last: Option<T>)
    ensures Somes(options + [last]) == Somes(options) + if last.Some? then [last.value] else []
  {
    if options == [] {
      assert options + [last] == [last] && [last][1..] == [];
    } else {
      SomesAppend(options[1..], last);
      assert (options + [last])[1..] == options[1..] + [last];
    }
  }
}
