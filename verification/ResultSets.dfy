/** A job's named results (result.rs): ordered sets, the last one current. */
module ResultSets {
  import opened Wrappers
  import opened Words
  import opened MachineState
  import opened Text

  datatype ResultData =
    | ByteResult(b: byte)
    | WordResult(w: u16)
    | DwordResult(d: u32)
    | IntResult(i: int)
    | RealResult(r: F64)
    | TextResult(t: Text)
    | BinaryResult(y: seq<byte>)

  type Entry = (Text, ResultData)

  /** There is always a current set: the last of a non-empty list. */
  type Sets = s: seq<seq<Entry>> | |s| > 0 witness [[]]

  function Current(sets: Sets): seq<Entry> {
    sets[|sets| - 1]
  }

  function PushNamed(sets: Sets, name: Text, value: ResultData): Sets {
    sets[|sets| - 1 := Current(sets) + [(name, value)]]
  }

  function NewSet(sets: Sets): Sets {
    sets + [[]]
  }

  /** `get`: the first entry of the current set with this name. */
  function Get(entries: seq<Entry>, name: Text): Option<ResultData> {
    if entries == [] then None
    else if entries[0].0 == name then Some(entries[0].1)
    else Get(entries[1..], name)
  }

  /** All entries in push order, across sets. */
  function Flatten(sets: seq<seq<Entry>>): seq<Entry> {
    if sets == [] then [] else Flatten(sets[..|sets| - 1]) + sets[|sets| - 1]
  }

  /** Every committed set, that is every one but the current, holds something. */
  predicate CommittedNonEmpty(sets: Sets) {
    forall i :: 0 <= i < |sets| - 1 ==> sets[i] != []
  }

  /** A push appends to the whole order and keeps every committed set as it is. */
  lemma PushAppends(sets: Sets, name: Text, value: ResultData)
    ensures Flatten(PushNamed(sets, name, value)) == Flatten(sets) + [(name, value)]
    ensures |PushNamed(sets, name, value)| == |sets|
    ensures forall i :: 0 <= i < |sets| - 1 ==> PushNamed(sets, name, value)[i] == sets[i]
    ensures CommittedNonEmpty(sets) ==> CommittedNonEmpty(PushNamed(sets, name, value))
  {
  }

  lemma {:induction false} GetAppended(entries: seq<Entry>, name: Text, value: ResultData)
    ensures Get(entries + [(name, value)], name) == if Get(entries, name).Some? then Get(entries, name) else Some(value)
  {
    if entries == [] {
      assert entries + [(name, value)] == [(name, value)];
    } else {
      assert (entries + [(name, value)])[1..] == entries[1..] + [(name, value)];
      GetAppended(entries[1..], name, value);
    }
  }

  /** A pushed result is found by its name if and only if the set had none of that name, or the same. */
  lemma PushIsFound(sets: Sets, name: Text, value: ResultData)
    ensures Get(Current(PushNamed(sets, name, value)), name) == Some(value)
            <==> Get(Current(sets), name) in {None, Some(value)}
  {
    GetAppended(Current(sets), name, value);
  }

  /** Starting a set moves no entry, and commits the old current one. */
  lemma NewSetKeepsOrder(sets: Sets)
    ensures Flatten(NewSet(sets)) == Flatten(sets)
    ensures CommittedNonEmpty(sets) && Current(sets) != [] ==> CommittedNonEmpty(NewSet(sets))
  {
  }

  class ResultSet {
    var sets: Sets

    constructor ()
      ensures sets == [[]]
    {
      sets := [[]];
    }

    method Push(name: Text, value: ResultData)
      modifies this
      ensures sets == PushNamed(old(sets), name, value)
    {
      var current := sets[|sets| - 1];
      current := current + [(name, value)];
      sets := sets[|sets| - 1 := current];
    }

    method StartSet()
      modifies this
      ensures sets == NewSet(old(sets))
    {
      sets := sets + [[]];
    }

    method Lookup(name: Text) returns (found: Option<ResultData>)
      ensures found == Get(Current(sets), name)
    {
      var current := sets[|sets| - 1];
      for i := 0 to |current|
        invariant Get(current, name) == Get(current[i..], name)
      {
        if current[i].0 == name {
          return Some(current[i].1);
        }
      }
      return None;
    }
  }
}
