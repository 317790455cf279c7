/**
 The metadata record that one scan stores per file, and the snapshot that maps
 each scanned path to its record.
 */
module Records {

  datatype Option<T> = None | Some(value: T)

  /** A scan outcome: the snapshot, or the error that stopped the scan. */
  datatype Result<T> = Ok(value: T) | Err(error: ScanError)

  datatype ScanError = FileNotFound(path: string)

  /** The record built by `get_file_info`. Fields the stat call could not
      deliver are `None`; `error` is `Some` only on the failure path. */
  datatype FileRecord = FileRecord(
    name: string,
    relpath: string,
    size: Option<string>,
    created: Option<string>,
    modified: Option<string>,
    accessed: Option<string>,
    isFile: bool,
    error: Option<string>)

  /** A snapshot: path string to record. */
  type Snapshot = map<string, FileRecord>

  /** What a stat call yields: formatted size and timestamps, or a failure message. */
  datatype StatOutcome =
    | Stat(sizeText: string, created: string, modified: string, accessed: string)
    | StatFailed(message: string)

  /** `get_file_info`: the record for one path, given the outcome of its stat call.
      A failed stat never aborts: it yields a record whose size and timestamps are
      all absent and whose `error` carries the message. */
  function FileInfo(name: string, relpath: string, isFile: bool, stat: StatOutcome): (r: FileRecord)
    ensures r.name == name && r.relpath == relpath && r.isFile == isFile
    ensures r.error.Some? <==> stat.StatFailed?
    ensures r.error.Some? ==>
      r.size == None && r.created == None && r.modified == None && r.accessed == None
    ensures stat.Stat? ==> r.size == Some(stat.sizeText) && r.modified == Some(stat.modified)
  {
    match stat
    case Stat(sizeText, created, modified, accessed) =>
      FileRecord(name, relpath, Some(sizeText), Some(created), Some(modified), Some(accessed), isFile, None)
    case StatFailed(message) =>
      FileRecord(name, relpath, None, None, None, None, isFile, Some(message))
  }

  /** The change rule of `compare`: two records of the same path differ when
      their size texts or their modification texts differ. All other fields,
      the error message included, are ignored. */
  predicate Differs(o: FileRecord, n: FileRecord): (r: bool)
    ensures r ==> o != n
    ensures !r <==> (o.size, o.modified) == (n.size, n.modified)
  {
    o.size != n.size || o.modified != n.modified
  }

  /** Two records whose stat calls both failed never count as a change, whatever
      their messages say. */
  lemma FailedStatsNeverDiffer(name: string, relpath: string, isFile: bool, m1: string, m2: string, isFile2: bool)
    ensures !Differs(FileInfo(name, relpath, isFile, StatFailed(m1)),
                     FileInfo(name, relpath, isFile2, StatFailed(m2)))
  {
  }

  /** A failed stat on one side and a readable size on the other always counts as
      a change: the absent size never equals a size text. */
  lemma FailedAgainstReadableDiffers(name: string, relpath: string, isFile: bool, message: string, n: FileRecord)
    requires n.size.Some?
    ensures Differs(FileInfo(name, relpath, isFile, StatFailed(message)), n)
    ensures Differs(n, FileInfo(name, relpath, isFile, StatFailed(message)))
  {
  }
}
