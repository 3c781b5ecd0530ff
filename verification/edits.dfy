// The splice loop of src/commands/re-export-hunks.ts over opened buffers: block edits placed by
// content, searched outward from the line they expect, with an offset and a floor carried from
// one edit to the next.
module Edits {
  import opened Prelude

  // Replace the block `from`, expected at line `start` of the unedited buffer, by `to`.
  datatype Edit<T> = Edit(start: int, from: seq<T>, to: seq<T>)

  // ----- Search -----------------------------------------------------------------------------

  predicate MatchesAt<T(==)>(lines: seq<T>, block: seq<T>, at: int) {
    0 <= at && at + |block| <= |lines| && lines[at..at + |block|] == block
  }

  predicate Admissible<T(==)>(lines: seq<T>, block: seq<T>, floor: int, at: int) {
    floor <= at && MatchesAt(lines, block, at)
  }

  function Distance(a: int, b: int): nat { if a < b then b - a else a - b }

  // The order the search prefers places in: nearer to `expected` first, the lower of two equals.
  predicate Preferred(expected: int, at: int, other: int) {
    || Distance(at, expected) < Distance(other, expected)
    || (Distance(at, expected) == Distance(other, expected) && at <= other)
  }

  // The outward search from `distance` on, as far as the buffer is long.
  function Search<T(==)>(lines: seq<T>, block: seq<T>, expected: int, floor: int, distance: nat): Option<nat>
    decreases |lines| + 1 - distance
  {
    if distance > |lines| then None
    else if Admissible(lines, block, floor, expected - distance) then Some(expected - distance)
    else if Admissible(lines, block, floor, expected + distance) then Some(expected + distance)
    else Search(lines, block, expected, floor, distance + 1)
  }

  function Find<T(==)>(lines: seq<T>, block: seq<T>, expected: int, floor: int): Option<nat> {
    Search(lines, block, expected, floor, 0)
  }

  // What a search result means: the most preferred admissible place within reach, and none only
  // when no admissible place is within reach.
  ghost predicate IsNearest<T>(lines: seq<T>, block: seq<T>, expected: int, floor: int, found: Option<nat>) {
    match found
    case Some(at) =>
      && Admissible(lines, block, floor, at)
      && Distance(at, expected) <= |lines|
      && forall other | Admissible(lines, block, floor, other) :: Preferred(expected, at, other)
    case None =>
      forall other | Admissible(lines, block, floor, other) :: Distance(other, expected) > |lines|
  }

  lemma {:induction false} SearchIsNearest<T>(lines: seq<T>, block: seq<T>, expected: int, floor: int, distance: nat)
    requires forall other | Admissible(lines, block, floor, other) :: Distance(other, expected) >= distance
    ensures IsNearest(lines, block, expected, floor, Search(lines, block, expected, floor, distance))
    decreases |lines| + 1 - distance
  {
    if distance <= |lines|
       && !Admissible(lines, block, floor, expected - distance)
       && !Admissible(lines, block, floor, expected + distance) {
      SearchIsNearest(lines, block, expected, floor, distance + 1);
    }
  }

  lemma FindIsNearest<T>(lines: seq<T>, block: seq<T>, expected: int, floor: int)
    ensures IsNearest(lines, block, expected, floor, Find(lines, block, expected, floor))
  {
    SearchIsNearest(lines, block, expected, floor, 0);
  }

  // The meaning determines the result.
  lemma NearestIsFind<T>(lines: seq<T>, block: seq<T>, expected: int, floor: int, found: Option<nat>)
    requires IsNearest(lines, block, expected, floor, found)
    ensures found == Find(lines, block, expected, floor)
  {
    FindIsNearest(lines, block, expected, floor);
    var result := Find(lines, block, expected, floor);
    if found.Some? && result.Some? {
      assert Preferred(expected, found.value, result.value) && Preferred(expected, result.value, found.value);
    }
  }

  method FindBlock<T(==)>(lines: seq<T>, block: seq<T>, expected: int, floor: int) returns (found: Option<nat>)
    ensures found == Find(lines, block, expected, floor)
    ensures IsNearest(lines, block, expected, floor, found)
  {
    FindIsNearest(lines, block, expected, floor);
    for distance := 0 to |lines| + 1
      invariant Find(lines, block, expected, floor) == Search(lines, block, expected, floor, distance)
    {
      var candidates := if distance == 0 then [expected] else [expected - distance, expected + distance];
      for i := 0 to |candidates|
        invariant forall k | 0 <= k < i :: !Admissible(lines, block, floor, candidates[k])
      {
        var at := candidates[i];
        if floor <= at && MatchesAt(lines, block, at) {
          assert i == 1 ==> !Admissible(lines, block, floor, candidates[0]);
          return Some(at);
        }
      }
      assert !Admissible(lines, block, floor, candidates[0]);
      assert !Admissible(lines, block, floor, candidates[|candidates| - 1]);
    }
    return None;
  }

  ghost predicate FindsAll<T(!new)>(lines: seq<T>, expected: int, floor: int) {
    forall block, at | block != [] && Admissible(lines, block, floor, at) ::
      Find(lines, block, expected, floor).Some?
  }

  // The search radius is the buffer's length, so a far expected line can miss a block that is
  // there. From a non-negative expected line no block at or after `floor` is missed exactly when
  // that line is at most a buffer's length past `floor`, or nothing lies at or after `floor`.
  lemma SearchIsComplete<T(!new)>(lines: seq<T>, expected: nat, floor: nat)
    requires expected <= |lines| + floor || |lines| <= floor
    ensures FindsAll(lines, expected, floor)
  {
    forall block, at: int | block != [] && Admissible(lines, block, floor, at)
      ensures Find(lines, block, expected, floor).Some?
    {
      FindIsNearest(lines, block, expected, floor);
    }
  }

  lemma SearchMisses<T(!new)>(lines: seq<T>, expected: nat, floor: nat)
    requires |lines| + floor < expected && floor < |lines|
    requires forall i | 0 <= i < |lines| && i != floor :: lines[i] != lines[floor]
    ensures !FindsAll(lines, expected, floor)
  {
    var block := [lines[floor]];
    FindIsNearest(lines, block, expected, floor);
    assert Admissible(lines, block, floor, floor);
    forall at | Admissible(lines, block, floor, at)
      ensures at == floor
    {
      assert lines[at] == lines[at..at + 1][0];
    }
  }

  // ----- Application ------------------------------------------------------------------------

  // The loop's variables between two edits.
  datatype Cursor<T> = Cursor(lines: seq<T>, offset: int, floor: nat)

  // `lines.splice(at, count, ...to)`; a start past the end is pulled back to the end.
  function Splice<T>(lines: seq<T>, at: nat, count: nat, to: seq<T>): seq<T>
    requires count == 0 || at + count <= |lines|
  {
    var cut := if at < |lines| then at else |lines|;
    lines[..cut] + to + lines[cut + count..]
  }

  function Expected<T>(cursor: Cursor<T>, edit: Edit<T>): nat {
    if edit.start + cursor.offset < 0 then 0 else edit.start + cursor.offset
  }

  // An empty block skips the search and the floor.
  function Place<T(==)>(cursor: Cursor<T>, edit: Edit<T>): Option<nat> {
    if edit.from == [] then Some(Expected(cursor, edit))
    else Find(cursor.lines, edit.from, Expected(cursor, edit), cursor.floor)
  }

  predicate Fits<T>(cursor: Cursor<T>, edit: Edit<T>, at: nat) {
    edit.from == [] || at + |edit.from| <= |cursor.lines|
  }

  lemma PlaceFits<T>(cursor: Cursor<T>, edit: Edit<T>)
    ensures Place(cursor, edit).Some? ==> Fits(cursor, edit, Place(cursor, edit).value)
    ensures Place(cursor, edit).Some? && edit.from != [] ==>
      Admissible(cursor.lines, edit.from, cursor.floor, Place(cursor, edit).value)
  {
    FindIsNearest(cursor.lines, edit.from, Expected(cursor, edit), cursor.floor);
  }

  function Advance<T>(cursor: Cursor<T>, edit: Edit<T>, at: nat): Cursor<T>
    requires Fits(cursor, edit, at)
  {
    Cursor(
      Splice(cursor.lines, at, |edit.from|, edit.to),
      cursor.offset + |edit.to| - |edit.from| + (at - Expected(cursor, edit)),
      at + |edit.to|)
  }

  // The edits from index `i` on. The error is the index of the first edit whose block is not found.
  function Run<T(==)>(cursor: Cursor<T>, edits: seq<Edit<T>>, i: nat): (result: Result<seq<T>, nat>)
    requires i <= |edits|
    ensures result.Err? ==> i <= result.error < |edits|
    decreases |edits| - i
  {
    if i == |edits| then Ok(cursor.lines)
    else
      var place := Place(cursor, edits[i]);
      if place.None? then Err(i)
      else
        PlaceFits(cursor, edits[i]);
        Run(Advance(cursor, edits[i], place.value), edits, i + 1)
  }

  function ApplyEdits<T(==)>(lines: seq<T>, edits: seq<Edit<T>>): Result<seq<T>, nat> {
    Run(Cursor(lines, 0, 0), edits, 0)
  }

  lemma RunStep<T>(cursor: Cursor<T>, edits: seq<Edit<T>>, i: nat, at: nat, next: Cursor<T>)
    requires i < |edits| && Place(cursor, edits[i]) == Some(at) && Fits(cursor, edits[i], at)
    requires Advance(cursor, edits[i], at) == next
    ensures Run(cursor, edits, i) == Run(next, edits, i + 1)
  {
  }

  // One pass of the source's loop: find the block, splice it, move the offset and the floor.
  method SpliceEdit<T(==)>(cursor: Cursor<T>, edit: Edit<T>) returns (next: Option<Cursor<T>>)
    ensures next.None? <==> Place(cursor, edit).None?
    ensures next.Some? ==>
      var at := Place(cursor, edit).value;
      Fits(cursor, edit, at) && next.value == Advance(cursor, edit, at)
  {
    PlaceFits(cursor, edit);
    var lines, offset, floor := cursor.lines, cursor.offset, cursor.floor;
    var expected := if edit.start + offset < 0 then 0 else edit.start + offset;
    var at: Option<nat> := Some(expected);
    if edit.from != [] {
      at := FindBlock(lines, edit.from, expected, floor);
    }
    if at.None? {
      return None;
    }
    lines := Splice(lines, at.value, |edit.from|, edit.to);
    offset := offset + |edit.to| - |edit.from| + (at.value - expected);
    floor := at.value + |edit.to|;
    return Some(Cursor(lines, offset, floor));
  }
}
