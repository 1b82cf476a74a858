/** The values the backup script receives from its parsed configuration and
    the record of problems it keeps. */
module Config {
  import opened Paths

  /** An element of a path list: a string, or any other value (a number, a
      nested list, a mapping, null), identified by an opaque token. */
  datatype Elem = Str(path: Path) | NonStr(token: nat)

  /** The value under a configuration key: a list, or something else whose
      Python truth value is `truthy`. */
  datatype Value = List(items: seq<Elem>) | NonList(truthy: bool)

  /** One key of the configuration mapping with its value, in mapping order. */
  datatype Entry = Entry(name: string, value: Value)

  /** A validated group: its key and its paths. */
  datatype SourceGroup = SourceGroup(name: string, paths: seq<Path>)

  /** The exception classes the script raises while validating. */
  datatype ErrorKind = Exception | TypeError | ValueError | FileNotFoundError

  datatype Outcome = Ok | Raised(kind: ErrorKind)

  /** The `__problems` dictionary: one list per fixed key. */
  datatype Problems = Problems(
    nonStr: seq<Elem>,          // 'nonstr_paths'
    nonAbs: seq<Path>,          // 'nonabs_paths'
    nonExistent: seq<Path>,     // 'nonexistent_paths'
    failedTargets: seq<Path>,   // 'failed_targets'
    other: seq<string>)         // 'other'

  const NO_PROBLEMS: Problems := Problems([], [], [], [], [])

  const NO_DIRS: string := "no dirs"
  const DIRS_NOT_LIST: string := "dirs is not list"

  /** Python's truth value: a list is true when it is not empty. */
  predicate Truthy(v: Value) {
    match v
    case List(items) => items != []
    case NonList(t) => t
  }

  predicate AllStrings(items: seq<Elem>) {
    forall e <- items :: e.Str?
  }

  /** The strings of a list that holds nothing else. */
  function Texts(items: seq<Elem>): (r: seq<Path>)
    requires AllStrings(items)
    ensures |r| == |items|
    ensures forall k :: 0 <= k < |items| ==> items[k] == Str(r[k])
  {
    assert forall k :: 0 <= k < |items| ==> items[k] in items;
    seq(|items|, k requires 0 <= k < |items| => items[k].path)
  }

  /** `to_backup.values()` */
  function Values(config: seq<Entry>): (r: seq<Value>)
    ensures |r| == |config|
    ensures forall i :: 0 <= i < |config| ==> r[i] == config[i].value
  {
    seq(|config|, i requires 0 <= i < |config| => config[i].value)
  }

  /** Every value of the configuration is a list of strings. */
  predicate PathLists(config: seq<Entry>) {
    forall i :: 0 <= i < |config| ==> config[i].value.List? && AllStrings(config[i].value.items)
  }

  /** The validated configuration as groups of paths, in mapping order. */
  function ToGroups(config: seq<Entry>): (r: seq<SourceGroup>)
    requires PathLists(config)
    ensures |r| == |config|
    ensures forall i :: 0 <= i < |config| ==>
      r[i].name == config[i].name && config[i].value.items == seq(|r[i].paths|, k requires 0 <= k < |r[i].paths| => Str(r[i].paths[k]))
  {
    seq(|config|, i requires 0 <= i < |config| => SourceGroup(config[i].name, Texts(config[i].value.items)))
  }

  /** The problem lists only grow: each old list is a prefix of the new one. */
  predicate Extends(p: Problems, q: Problems) {
    && p.nonStr <= q.nonStr
    && p.nonAbs <= q.nonAbs
    && p.nonExistent <= q.nonExistent
    && p.failedTargets <= q.failedTargets
    && p.other <= q.other
  }
}
