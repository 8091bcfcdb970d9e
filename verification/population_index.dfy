/**
 * The id -> record index that `init` builds with a reduce over the loaded
 * records: `accum[d.id] = d` for every record in input order.
 */
module PopulationIndex {
  import opened Records

  /** The ids carried by the records of `rs`. */
  function Ids(rs: seq<PopRecord>): set<string>
  {
    set i | 0 <= i < |rs| :: rs[i].id
  }

  /** The reduce: every record is stored under its id, later records overwriting earlier ones. */
  function BuildIndex(rs: seq<PopRecord>): (index: map<string, PopRecord>)
    ensures index.Keys == Ids(rs)
    ensures forall id :: id in index ==> index[id].id == id
    ensures forall id :: id in index ==> index[id] in rs
    decreases |rs|
  {
    if |rs| == 0 then map[]
    else
      var last := rs[|rs| - 1];
      var prefix := rs[..|rs| - 1];
      assert Ids(rs) == Ids(prefix) + {last.id} by {
        assert forall i :: 0 <= i < |prefix| ==> prefix[i] == rs[i];
      }
      BuildIndex(prefix)[last.id := last]
  }

  /** When an id occurs more than once, the record stored is its last occurrence. */
  lemma {:induction false} LaterRecordWins(rs: seq<PopRecord>, i: nat)
    requires i < |rs|
    requires forall j :: i < j < |rs| ==> rs[j].id != rs[i].id
    ensures rs[i].id in BuildIndex(rs)
    ensures BuildIndex(rs)[rs[i].id] == rs[i]
    decreases |rs|
  {
    if i < |rs| - 1 {
      var prefix := rs[..|rs| - 1];
      assert prefix[i] == rs[i];
      LaterRecordWins(prefix, i);
    }
  }
}
