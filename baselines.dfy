/**
 The baseline store behind `save_baseline_for` and `load_baseline_for`: one
 stored baseline per folder string, overwritten on every save.

 The source names each record file by the SHA-1 digest of the folder string;
 here the slot is keyed by the folder string itself, which is what that digest
 stands for when no two folder strings collide. Files, JSON and the clock are
 not modelled: the creation time is a parameter.
 */
module Baselines {
  import opened Records

  /** A stored baseline: the folder string as given, its creation time and the
      snapshot taken. */
  datatype Baseline = Baseline(folder: string, createdAt: string, files: Snapshot)

  class BaselineStore {
    var records: map<string, Baseline>

    /** Every stored baseline sits under the folder string it was saved for. */
    ghost predicate Valid()
      reads this
    {
      forall f :: f in records ==> records[f].folder == f
    }

    constructor ()
      ensures Valid() && records == map[]
    {
      records := map[];
    }

    /** `save_baseline_for`: replaces the baseline of `pathStr` and leaves every
        other folder's baseline as it was. */
    method Save(pathStr: string, data: Snapshot, now: string)
      requires Valid()
      modifies this
      ensures Valid()
      ensures records == old(records)[pathStr := Baseline(pathStr, now, data)]
    {
      records := records[pathStr := Baseline(pathStr, now, data)];
    }

    /** `load_baseline_for`: the stored baseline, or `None` when the folder has none. */
    method Load(pathStr: string) returns (r: Option<Baseline>)
      requires Valid()
      ensures r.None? <==> pathStr !in records
      ensures r.Some? ==> r.value == records[pathStr] && r.value.folder == pathStr
    {
      if pathStr !in records {
        return None;
      }
      return Some(records[pathStr]);
    }
  }

  /** Loading right after saving returns exactly what was saved, and saving under
      one folder string never disturbs another's baseline. */
  method SaveThenLoad(store: BaselineStore, pathStr: string, other: string, data: Snapshot, now: string)
    returns (loaded: Option<Baseline>, untouched: Option<Baseline>)
    requires store.Valid()
    requires other != pathStr
    modifies store
    ensures loaded == Some(Baseline(pathStr, now, data))
    ensures untouched == if other in old(store.records) then Some(old(store.records)[other]) else None
  {
    store.Save(pathStr, data, now);
    loaded := store.Load(pathStr);
    untouched := store.Load(other);
  }
}
