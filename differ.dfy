/**
 The differ: `compare(old, new)` splits the union of two snapshots' paths into
 the sorted lists `added`, `deleted`, `changed` and `unchanged`.
 */
module Differ {
  import opened Records
  import opened PathOrder

  /** The four lists of `compare`; `unaltered` is the list the source calls
      `unchanged` (a reserved word here). */
  datatype DiffResult = DiffResult(
    added: seq<string>,
    deleted: seq<string>,
    changed: seq<string>,
    unaltered: seq<string>)

  /** Paths in both snapshots whose size or modification text differs. */
  ghost function ChangedPaths(baseline: Snapshot, current: Snapshot): (paths: set<string>)
  {
    set p | p in baseline && p in current && Differs(baseline[p], current[p])
  }

  /** Paths in both snapshots whose size and modification texts agree. */
  ghost function UnchangedPaths(baseline: Snapshot, current: Snapshot): (paths: set<string>)
  {
    set p | p in baseline && p in current && !Differs(baseline[p], current[p])
  }

  /** What `compare(baseline, current)` returns: each list is the sorted list of
      its set of paths. */
  ghost predicate IsDiffOf(baseline: Snapshot, current: Snapshot, d: DiffResult)
  {
    && SortedListOf(d.added, current.Keys - baseline.Keys)
    && SortedListOf(d.deleted, baseline.Keys - current.Keys)
    && SortedListOf(d.changed, ChangedPaths(baseline, current))
    && SortedListOf(d.unaltered, UnchangedPaths(baseline, current))
  }

  /** `compare`: the set differences and the intersection are sorted, then the
      sorted common paths are visited in order, each appended to `changed` or to
      `unchanged`. */
  method Compare(baseline: Snapshot, current: Snapshot) returns (d: DiffResult)
    ensures IsDiffOf(baseline, current, d)
  {
    var added := SortPaths(current.Keys - baseline.Keys);
    var deleted := SortPaths(baseline.Keys - current.Keys);
    var common := SortPaths(baseline.Keys * current.Keys);
    var changed, unaltered := [], [];
    for i := 0 to |common|
      invariant StrictlySorted(changed) && StrictlySorted(unaltered)
      invariant forall p :: p in changed <==> p in common[..i] && p in ChangedPaths(baseline, current)
      invariant forall p :: p in unaltered <==> p in common[..i] && p in UnchangedPaths(baseline, current)
      invariant forall k, j :: 0 <= k < |changed| && i <= j < |common| ==> Less(changed[k], common[j])
      invariant forall k, j :: 0 <= k < |unaltered| && i <= j < |common| ==> Less(unaltered[k], common[j])
    {
      var p := common[i];
      assert p in common;
      assert common[..i + 1] == common[..i] + [p];
      if Differs(baseline[p], current[p]) {
        changed := changed + [p];
      } else {
        unaltered := unaltered + [p];
      }
    }
    assert common[..|common|] == common;
    d := DiffResult(added, deleted, changed, unaltered);
  }

  /** Every path of either snapshot is reported in exactly one list, no list
      repeats a path, and nothing else is reported. */
  lemma Partition(baseline: Snapshot, current: Snapshot, d: DiffResult)
    requires IsDiffOf(baseline, current, d)
    ensures forall p :: p in baseline || p in current <==>
      p in d.added || p in d.deleted || p in d.changed || p in d.unaltered
    ensures forall p :: p in d.added ==> p !in d.deleted && p !in d.changed && p !in d.unaltered
    ensures forall p :: p in d.deleted ==> p !in d.changed && p !in d.unaltered
    ensures forall p :: p in d.changed ==> p !in d.unaltered
    ensures forall i, j :: 0 <= i < j < |d.added| ==> d.added[i] != d.added[j]
    ensures forall i, j :: 0 <= i < j < |d.deleted| ==> d.deleted[i] != d.deleted[j]
    ensures forall i, j :: 0 <= i < j < |d.changed| ==> d.changed[i] != d.changed[j]
    ensures forall i, j :: 0 <= i < j < |d.unaltered| ==> d.unaltered[i] != d.unaltered[j]
  {
    SortedNoDuplicates(d.added);
    SortedNoDuplicates(d.deleted);
    SortedNoDuplicates(d.changed);
    SortedNoDuplicates(d.unaltered);
  }

  /** A common path is `changed` exactly when its size or modification text
      differs, and `unchanged` exactly when both agree. */
  lemma ChangedRule(baseline: Snapshot, current: Snapshot, d: DiffResult, p: string)
    requires IsDiffOf(baseline, current, d)
    requires p in baseline && p in current
    ensures p in d.changed <==>
      baseline[p].size != current[p].size || baseline[p].modified != current[p].modified
    ensures p in d.unaltered <==>
      baseline[p].size == current[p].size && baseline[p].modified == current[p].modified
  {
  }

  /** The result is determined by the two snapshots. */
  lemma Deterministic(baseline: Snapshot, current: Snapshot, d1: DiffResult, d2: DiffResult)
    requires IsDiffOf(baseline, current, d1) && IsDiffOf(baseline, current, d2)
    ensures d1 == d2
  {
    SortedListUnique(d1.added, d2.added, current.Keys - baseline.Keys);
    SortedListUnique(d1.deleted, d2.deleted, baseline.Keys - current.Keys);
    SortedListUnique(d1.changed, d2.changed, ChangedPaths(baseline, current));
    SortedListUnique(d1.unaltered, d2.unaltered, UnchangedPaths(baseline, current));
  }

  /** Comparing a snapshot with itself reports every path unchanged, in order,
      and nothing else. */
  lemma CompareWithItself(s: Snapshot, d: DiffResult)
    requires IsDiffOf(s, s, d)
    ensures d.added == [] && d.deleted == [] && d.changed == []
    ensures SortedListOf(d.unaltered, s.Keys)
  {
    assert s.Keys - s.Keys == {};
    assert ChangedPaths(s, s) == {};
    assert UnchangedPaths(s, s) == s.Keys;
    SortedListOfEmpty(d.added);
    SortedListOfEmpty(d.deleted);
    SortedListOfEmpty(d.changed);
  }

  /** Against an empty baseline every current path is added. */
  lemma CompareFromEmpty(current: Snapshot, d: DiffResult)
    requires IsDiffOf(map[], current, d)
    ensures SortedListOf(d.added, current.Keys)
    ensures d.deleted == [] && d.changed == [] && d.unaltered == []
  {
    assert ChangedPaths(map[], current) == {};
    assert UnchangedPaths(map[], current) == {};
    SortedListOfEmpty(d.deleted);
    SortedListOfEmpty(d.changed);
    SortedListOfEmpty(d.unaltered);
  }

  /** Against an empty current scan every baseline path is deleted. */
  lemma CompareToEmpty(baseline: Snapshot, d: DiffResult)
    requires IsDiffOf(baseline, map[], d)
    ensures SortedListOf(d.deleted, baseline.Keys)
    ensures d.added == [] && d.changed == [] && d.unaltered == []
  {
    assert ChangedPaths(baseline, map[]) == {};
    assert UnchangedPaths(baseline, map[]) == {};
    SortedListOfEmpty(d.added);
    SortedListOfEmpty(d.changed);
    SortedListOfEmpty(d.unaltered);
  }

  /** A readable record, for the scenarios below. */
  function Readable(name: string, size: string, modified: string): (r: FileRecord)
  {
    FileInfo(name, name, true, Stat(size, modified, modified, modified))
  }

  /** A file whose size is unchanged but whose modification time moved by five
      seconds is reported as changed. */
  lemma ModifiedTimeChange(d: DiffResult)
    requires IsDiffOf(map["f.txt" := Readable("f.txt", "1.00 KB", "2024-01-01 00:00:00")],
                      map["f.txt" := Readable("f.txt", "1.00 KB", "2024-01-01 00:00:05")], d)
    ensures d == DiffResult([], [], ["f.txt"], [])
  {
    var b := map["f.txt" := Readable("f.txt", "1.00 KB", "2024-01-01 00:00:00")];
    var c := map["f.txt" := Readable("f.txt", "1.00 KB", "2024-01-01 00:00:05")];
    assert b.Keys - c.Keys == {} && c.Keys - b.Keys == {};
    assert ChangedPaths(b, c) == {"f.txt"};
    assert UnchangedPaths(b, c) == {};
    SortedListOfEmpty(d.added);
    SortedListOfEmpty(d.deleted);
    SortedListOfEmpty(d.unaltered);
    SortedListUnique(d.changed, ["f.txt"], {"f.txt"});
  }

  /** A file gone from disk is deleted and a new one is added. */
  lemma FileReplaced(d: DiffResult, r: FileRecord)
    requires IsDiffOf(map["old.txt" := r], map["new.txt" := r], d)
    ensures d == DiffResult(["new.txt"], ["old.txt"], [], [])
  {
    var b, c := map["old.txt" := r], map["new.txt" := r];
    assert c.Keys - b.Keys == {"new.txt"};
    assert b.Keys - c.Keys == {"old.txt"};
    assert ChangedPaths(b, c) == {};
    assert UnchangedPaths(b, c) == {};
    SortedListUnique(d.added, ["new.txt"], {"new.txt"});
    SortedListUnique(d.deleted, ["old.txt"], {"old.txt"});
    SortedListOfEmpty(d.changed);
    SortedListOfEmpty(d.unaltered);
  }
}
