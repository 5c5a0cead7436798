/** The JSON file store: one key file and a directory of capsule files named
    `capsule_<timestamp>.json`. The file system is a value: the key file's
    contents if it exists, and the capsule directory (when it exists) as a map
    from file name to the capsule record the file holds. */
module Storage {
  import opened Wrappers
  import opened Records
  import StrOrder
  import Utils

  datatype Store = Store(keys: Option<KeyBundle>, capsuleDir: Option<map<string, Capsule>>)

  /** No key file and no capsule directory. */
  const Empty := Store(None, None)

  const FilePrefix := "capsule_"
  const FileSuffix := ".json"

  /** `f"capsule_{timestamp}.json"`. */
  function FileName(timestamp: string): string
  {
    FilePrefix + timestamp + FileSuffix
  }

  /** `filename.startswith("capsule_") and filename.endswith(".json")`. */
  predicate IsCapsuleFile(name: string)
  {
    && |name| >= |FilePrefix| && name[..|FilePrefix|] == FilePrefix
    && |name| >= |FileSuffix| && name[|name| - |FileSuffix|..] == FileSuffix
  }

  /** The prefix and the suffix cannot overlap, so a matching name has room for both. */
  lemma CapsuleFileLength(name: string)
    requires IsCapsuleFile(name)
    ensures |name| >= |FilePrefix| + |FileSuffix|
  {
    assert name[7] == '_' by {
      assert name[..8][7] == name[7];
    }
    assert forall i | |name| - 5 <= i < |name| :: name[i] != '_' by {
      forall i | |name| - 5 <= i < |name|
        ensures name[i] != '_'
      {
        assert name[|name| - 5..][i - (|name| - 5)] == name[i];
      }
    }
  }

  /** `filename[8:-5]`: the timestamp between prefix and suffix. */
  function TimestampOf(name: string): (ts: string)
    requires IsCapsuleFile(name)
    ensures FileName(ts) == name
  {
    CapsuleFileLength(name);
    var ts := name[8..|name| - 5];
    assert name == name[..8] + ts + name[|name| - 5..];
    ts
  }

  /** Every capsule file name is recognised and gives back its timestamp. */
  lemma TimestampOfFileName(ts: string)
    ensures IsCapsuleFile(FileName(ts))
    ensures TimestampOf(FileName(ts)) == ts
  {
    var n := FileName(ts);
    assert n[..8] == FilePrefix;
    assert n[|n| - 5..] == FileSuffix;
    assert n[8..|n| - 5] == ts;
  }

  lemma FileNameInjective(a: string, b: string)
    requires FileName(a) == FileName(b)
    ensures a == b
  {
    TimestampOfFileName(a);
    TimestampOfFileName(b);
  }

  /** `save_keys(keys)`: the key file is overwritten. */
  function SaveKeys(st: Store, keys: KeyBundle): (r: Store)
    ensures LoadKeys(r) == Some(keys)
    ensures r.capsuleDir == st.capsuleDir
  {
    st.(keys := Some(keys))
  }

  /** `load_keys()`: `None` when the key file does not exist. */
  function LoadKeys(st: Store): Option<KeyBundle>
  {
    st.keys
  }

  /** `save_capsule(capsule_data)`: creates the directory if needed and writes
      the file named after the capsule's timestamp, replacing any file of
      that name. */
  function SaveCapsule(st: Store, c: Capsule): (r: Store)
    ensures LoadCapsule(r, c.timestamp) == Some(c)
    ensures forall ts | ts != c.timestamp :: LoadCapsule(r, ts) == LoadCapsule(st, ts)
    ensures LoadKeys(r) == LoadKeys(st)
  {
    var dir := if st.capsuleDir.Some? then st.capsuleDir.value else map[];
    var r := Store(st.keys, Some(dir[FileName(c.timestamp) := c]));
    forall ts | ts != c.timestamp
      ensures LoadCapsule(r, ts) == LoadCapsule(st, ts)
    {
      if FileName(ts) == FileName(c.timestamp) {
        FileNameInjective(ts, c.timestamp);
      }
    }
    r
  }

  /** `load_capsule(timestamp)`: `None` when the file does not exist. */
  function LoadCapsule(st: Store, timestamp: string): Option<Capsule>
  {
    match st.capsuleDir
    case None => None
    case Some(dir) => if FileName(timestamp) in dir then Some(dir[FileName(timestamp)]) else None
  }

  /** The timestamps of the capsule files in a directory. */
  function Timestamps(dir: map<string, Capsule>): set<string>
  {
    set name | name in dir && IsCapsuleFile(name) :: TimestampOf(name)
  }

  /** `list_capsules()`: the timestamps of the capsule files, ascending; other
      files are ignored and a missing directory lists nothing. Exactly the
      listed timestamps can be loaded. */
  function ListCapsules(st: Store): (r: seq<string>)
    ensures StrOrder.StrictlySorted(r)
    ensures forall ts :: ts in r <==> LoadCapsule(st, ts).Some?
  {
    match st.capsuleDir
    case None => []
    case Some(dir) =>
      forall ts
        ensures ts in Timestamps(dir) <==> FileName(ts) in dir
      {
        TimestampOfFileName(ts);
      }
      StrOrder.SortedElements(Timestamps(dir))
  }

  /** A capsule is listed once it has been saved, whatever was stored before. */
  lemma ListedAfterSave(st: Store, c: Capsule)
    ensures c.timestamp in ListCapsules(SaveCapsule(st, c))
    ensures forall ts | ts in ListCapsules(st) :: ts in ListCapsules(SaveCapsule(st, c))
  {
  }

  /** Writes to the store, in the order the program performs them. */
  datatype Write = PutKeys(keys: KeyBundle) | PutCapsule(capsule: Capsule)

  function Apply(st: Store, writes: seq<Write>): Store
    decreases |writes|
  {
    if |writes| == 0 then st
    else
      var next := match writes[0]
        case PutKeys(k) => SaveKeys(st, k)
        case PutCapsule(c) => SaveCapsule(st, c);
      Apply(next, writes[1..])
  }

  /** The key bundle of the last `PutKeys`, searching from the end. */
  function LastKeys(writes: seq<Write>, initial: Option<KeyBundle>): Option<KeyBundle>
    decreases |writes|
  {
    if |writes| == 0 then initial
    else if writes[|writes| - 1].PutKeys? then Some(writes[|writes| - 1].keys)
    else LastKeys(writes[..|writes| - 1], initial)
  }

  /** The capsule of the last `PutCapsule` with the given timestamp, searching from the end. */
  function LastCapsule(writes: seq<Write>, ts: string, initial: Option<Capsule>): Option<Capsule>
    decreases |writes|
  {
    if |writes| == 0 then initial
    else if writes[|writes| - 1].PutCapsule? && writes[|writes| - 1].capsule.timestamp == ts then
      Some(writes[|writes| - 1].capsule)
    else LastCapsule(writes[..|writes| - 1], ts, initial)
  }

  lemma {:induction false} ApplyLast(st: Store, writes: seq<Write>)
    requires |writes| > 0
    ensures Apply(st, writes) == match writes[|writes| - 1]
      case PutKeys(k) => SaveKeys(Apply(st, writes[..|writes| - 1]), k)
      case PutCapsule(c) => SaveCapsule(Apply(st, writes[..|writes| - 1]), c)
    decreases |writes|
  {
    var next := match writes[0]
      case PutKeys(k) => SaveKeys(st, k)
      case PutCapsule(c) => SaveCapsule(st, c);
    if |writes| > 1 {
      ApplyLast(next, writes[1..]);
      assert writes[1..][..|writes| - 2] == writes[..|writes| - 1][1..];
    }
  }

  /** Last write wins: after any sequence of writes, the key file holds the
      last bundle written and each capsule file the last capsule written
      under its timestamp; what was never written is as before. */
  lemma {:induction false} LastWriteWins(st: Store, writes: seq<Write>)
    ensures LoadKeys(Apply(st, writes)) == LastKeys(writes, LoadKeys(st))
    ensures forall ts :: LoadCapsule(Apply(st, writes), ts) == LastCapsule(writes, ts, LoadCapsule(st, ts))
    decreases |writes|
  {
    if |writes| > 0 {
      ApplyLast(st, writes);
      LastWriteWins(st, writes[..|writes| - 1]);
    }
  }

  /** Capsules stamped at two moments list in the order they were created. */
  lemma ListingFollowsCreation(st: Store, a: Utils.DateTime, b: Utils.DateTime, i: int, j: int)
    requires Utils.ValidDateTime(a) && Utils.ValidDateTime(b) && Utils.Before(a, b)
    requires 0 <= i < |ListCapsules(st)| && ListCapsules(st)[i] == Utils.CurrentTimestamp(a)
    requires 0 <= j < |ListCapsules(st)| && ListCapsules(st)[j] == Utils.CurrentTimestamp(b)
    ensures i < j
  {
    Utils.TimestampOrder(a, b);
    StrOrder.SortedPositions(ListCapsules(st), i, j);
  }
}
