/**
 * Target-member resolution inside `password_matches` (src/main.rs:122-136):
 * the archive's member table is scanned in index order and the first
 * loadable, non-directory member is chosen, which must also carry the
 * requested name when one is given.
 */
module Resolver {
  import opened Wrappers

  /**
   * One slot of the member table. `loadable` is false when `by_index` fails
   * for that index; `name` and `isDir` are then never looked at.
   */
  datatype Entry = Entry(name: string, isDir: bool, loadable: bool)

  datatype ResolveError =
    | TargetNotFound(name: string)  // "Target file ... not found in archive"
    | NoFilesToTest                 // "Archive contains no files to test"

  datatype Resolution = Resolved(index: nat) | Unresolved(error: ResolveError)

  /** The predicate handed to `find`: the entry loads, is a file, and has the target name if there is one. */
  predicate Qualifies(e: Entry, target: Option<string>) {
    e.loadable && !e.isDir && (target.Some? ==> e.name == target.value)
  }

  /** `(from..entries.len()).find(Qualifies)`. */
  function FindFrom(entries: seq<Entry>, target: Option<string>, from: nat): (r: Option<nat>)
    requires from <= |entries|
    ensures r.Some? ==> from <= r.value < |entries| && Qualifies(entries[r.value], target)
    ensures r.Some? ==> forall j :: from <= j < r.value ==> !Qualifies(entries[j], target)
    ensures r.None? <==> forall j :: from <= j < |entries| ==> !Qualifies(entries[j], target)
    decreases |entries| - from
  {
    if from == |entries| then None
    else if Qualifies(entries[from], target) then Some(from)
    else FindFrom(entries, target, from + 1)
  }

  /**
   * The `match target` of src/main.rs:122-136. The chosen index is the least
   * one whose entry qualifies, so it is in range and never a directory; there
   * is no index exactly when no entry qualifies, and the error then says
   * which of the two searches failed.
   */
  function Resolve(entries: seq<Entry>, target: Option<string>): (r: Resolution)
    ensures r.Resolved? ==> r.index < |entries| && !entries[r.index].isDir && Qualifies(entries[r.index], target)
    ensures r.Resolved? ==> forall j :: 0 <= j < r.index ==> !Qualifies(entries[j], target)
    ensures r.Unresolved? <==> forall j :: 0 <= j < |entries| ==> !Qualifies(entries[j], target)
    ensures r.Unresolved? && target.Some? ==> r.error == TargetNotFound(target.value)
    ensures r.Unresolved? && target.None? ==> r.error == NoFilesToTest
  {
    match FindFrom(entries, target, 0)
    case Some(i) => Resolved(i)
    case None =>
      if target.Some? then Unresolved(TargetNotFound(target.value)) else Unresolved(NoFilesToTest)
  }
}
