// `renumberPatchesInManifest` of src/core/patch-manifest-io.ts: patch files and manifest rows move
// together along a rename map, or nothing moves.
module Renumbering {
  import opened Prelude
  import opened PlacementPlan
  import opened RenameMap
  import StableSort

  // Patch files by name, and the manifest when there is one.
  datatype State = State(disk: map<string, string>, manifest: Option<seq<Patch>>)

  // The order a filename carries, if any.
  type Lead = string -> Option<nat>

  predicate IsSource(renames: seq<Rename>, name: string) {
    exists i | 0 <= i < |renames| :: renames[i].from == name
  }

  predicate IsTarget(renames: seq<Rename>, name: string) {
    exists i | 0 <= i < |renames| :: renames[i].to == name
  }

  // ----- Files ------------------------------------------------------------------------------

  // Every source is there to stage and, with the sources staged, every target is free.
  predicate Movable(disk: map<string, string>, renames: seq<Rename>) {
    && (forall i | 0 <= i < |renames| :: renames[i].from in disk)
    && (forall i | 0 <= i < |renames| :: renames[i].to in disk ==> IsSource(renames, renames[i].to))
    && (forall i, j | 0 <= i < j < |renames| :: renames[i].to != renames[j].to)
  }

  function Sources(renames: seq<Rename>): set<string> {
    set i | 0 <= i < |renames| :: renames[i].from
  }

  // The first `count` staged files at their targets.
  function Placed(disk: map<string, string>, renames: seq<Rename>, count: nat): map<string, string>
    requires count <= |renames| && forall i | 0 <= i < |renames| :: renames[i].from in disk
  {
    if count == 0 then disk - Sources(renames)
    else Placed(disk, renames, count - 1)[renames[count - 1].to := disk[renames[count - 1].from]]
  }

  function MovedFiles(disk: map<string, string>, renames: seq<Rename>): map<string, string>
    requires Movable(disk, renames)
  {
    Placed(disk, renames, |renames|)
  }

  lemma {:induction false} PlacedKeeps(disk: map<string, string>, renames: seq<Rename>, count: nat, name: string)
    requires Movable(disk, renames) && count <= |renames|
    requires forall i | 0 <= i < count :: renames[i].to != name
    ensures name in Placed(disk, renames, count) <==> name in disk && !IsSource(renames, name)
    ensures name in Placed(disk, renames, count) ==> Placed(disk, renames, count)[name] == disk[name]
  {
    if count > 0 {
      PlacedKeeps(disk, renames, count - 1, name);
    }
  }

  lemma {:induction false} PlacedMoves(disk: map<string, string>, renames: seq<Rename>, count: nat, i: nat)
    requires Movable(disk, renames) && i < count <= |renames|
    ensures renames[i].to in Placed(disk, renames, count)
    ensures Placed(disk, renames, count)[renames[i].to] == disk[renames[i].from]
  {
    if i < count - 1 {
      PlacedMoves(disk, renames, count - 1, i);
    }
  }

  // ----- The way back -----------------------------------------------------------------------

  // The inverse map of the rollback, with orders parsed back from the old filenames.
  function Inverse(renames: seq<Rename>, lead: Lead): (inverse: seq<Rename>)
    requires forall i | 0 <= i < |renames| :: lead(renames[i].from).Some?
    ensures |inverse| == |renames|
  {
    seq(|renames|, i requires 0 <= i < |renames| =>
      Rename(renames[i].to, renames[i].from, lead(renames[i].from).value))
  }

  // `back` swaps the ends of every rename in `renames`.
  ghost predicate Reverses(renames: seq<Rename>, back: seq<Rename>) {
    && |back| == |renames|
    && forall i | 0 <= i < |renames| :: back[i].from == renames[i].to && back[i].to == renames[i].from
  }

  lemma FilesMoveBack(disk: map<string, string>, renames: seq<Rename>, back: seq<Rename>)
    requires IsMap(renames) && Movable(disk, renames) && Reverses(renames, back)
    ensures Movable(MovedFiles(disk, renames), back)
  {
    var moved := MovedFiles(disk, renames);
    forall i | 0 <= i < |back|
      ensures back[i].from in moved
      ensures back[i].to in moved ==> IsSource(back, back[i].to)
    {
      PlacedMoves(disk, renames, |renames|, i);
      if !IsTarget(renames, renames[i].from) {
        PlacedKeeps(disk, renames, |renames|, renames[i].from);
      } else {
        var j :| 0 <= j < |renames| && renames[j].to == renames[i].from;
        assert back[j].from == back[i].to;
      }
    }
  }

  lemma FileReturns(disk: map<string, string>, renames: seq<Rename>, back: seq<Rename>, name: string)
    requires IsMap(renames) && Movable(disk, renames) && Reverses(renames, back)
    requires Movable(MovedFiles(disk, renames), back)
    ensures name in MovedFiles(MovedFiles(disk, renames), back) <==> name in disk
    ensures name in disk ==> MovedFiles(MovedFiles(disk, renames), back)[name] == disk[name]
  {
    var moved := MovedFiles(disk, renames);
    if IsSource(renames, name) {
      var i :| 0 <= i < |renames| && renames[i].from == name;
      PlacedMoves(disk, renames, |renames|, i);
      PlacedMoves(moved, back, |back|, i);
    } else {
      PlacedKeeps(moved, back, |back|, name);
      if IsTarget(renames, name) {
        var i :| 0 <= i < |renames| && renames[i].to == name;
        assert back[i].from == name;
      } else {
        PlacedKeeps(disk, renames, |renames|, name);
      }
    }
  }

  // Moving the files along the inverse map undoes moving them along the map.
  lemma FilesRoundTrip(disk: map<string, string>, renames: seq<Rename>, back: seq<Rename>)
    requires IsMap(renames) && Movable(disk, renames) && Reverses(renames, back)
    ensures Movable(MovedFiles(disk, renames), back)
    ensures MovedFiles(MovedFiles(disk, renames), back) == disk
  {
    FilesMoveBack(disk, renames, back);
    var returned := MovedFiles(MovedFiles(disk, renames), back);
    forall name
      ensures name in returned <==> name in disk
      ensures name in disk ==> returned[name] == disk[name]
    {
      FileReturns(disk, renames, back, name);
    }
  }

  // ----- Rows -------------------------------------------------------------------------------

  // `renameMap.get(name)`
  function Entry(renames: seq<Rename>, name: string): (entry: Option<Rename>)
    ensures entry.Some? <==> IsSource(renames, name)
    ensures entry.Some? ==> entry.value in renames && entry.value.from == name
  {
    if renames == [] then None
    else if renames[|renames| - 1].from == name then Some(renames[|renames| - 1])
    else
      var entry := Entry(renames[..|renames| - 1], name);
      assert entry.None? ==> !IsSource(renames, name);
      entry
  }

  function Relabel(row: Patch, renames: seq<Rename>): Patch {
    var entry := Entry(renames, row.filename);
    if entry.None? then row else row.(filename := entry.value.to, order := entry.value.order)
  }

  function Relabelled(rows: seq<Patch>, renames: seq<Rename>): (relabelled: seq<Patch>)
    ensures |relabelled| == |rows|
  {
    StableSort.Mapped(rows, (row: Patch) => Relabel(row, renames))
  }

  predicate NamesCarryOrders(rows: seq<Patch>, lead: Lead) {
    forall i | 0 <= i < |rows| :: lead(rows[i].filename) == Some(rows[i].order)
  }

  predicate OrdersAreUnique(rows: seq<Patch>) {
    StableSort.DistinctBy(rows, PatchOrder)
  }

  predicate IsWellFormed(rows: seq<Patch>, lead: Lead) {
    NamesCarryOrders(rows, lead) && OrdersAreUnique(rows)
  }

  predicate Renumbers(state: State, renames: seq<Rename>, lead: Lead) {
    && state.manifest.Some?
    && Movable(state.disk, renames)
    && IsWellFormed(StableSort.SortBy(Relabelled(state.manifest.value, renames), PatchOrder), lead)
  }

  // What a renumber leaves, or nothing when it refuses and puts everything back.
  function Renumber(state: State, renames: seq<Rename>, lead: Lead): Option<State> {
    if renames == [] then Some(state)
    else if Renumbers(state, renames, lead) then
      Some(State(MovedFiles(state.disk, renames),
                 Some(StableSort.SortBy(Relabelled(state.manifest.value, renames), PatchOrder))))
    else None
  }

  lemma EntryOf(renames: seq<Rename>, i: nat)
    requires IsMap(renames) && i < |renames|
    ensures Entry(renames, renames[i].from) == Some(renames[i])
  {
    var entry := Entry(renames, renames[i].from);
    var j :| 0 <= j < |renames| && renames[j] == entry.value;
  }

  // A row comes back exactly, when its own name carried its order and no other row takes a name it
  // gave up.
  lemma RowReturns(row: Patch, renames: seq<Rename>, lead: Lead)
    requires IsMap(renames) && forall i | 0 <= i < |renames| :: lead(renames[i].from).Some?
    requires forall i, j | 0 <= i < j < |renames| :: renames[i].to != renames[j].to
    requires lead(row.filename) == Some(row.order)
    requires !IsSource(renames, row.filename) ==> !IsTarget(renames, row.filename)
    ensures Relabel(Relabel(row, renames), Inverse(renames, lead)) == row
  {
    var back := Inverse(renames, lead);
    if IsSource(renames, row.filename) {
      var i :| 0 <= i < |renames| && renames[i].from == row.filename;
      EntryOf(renames, i);
      EntryOf(back, i);
    }
  }
}
