/** Tables of optional entries by cache id and index, grown on demand. */
module Tables {
  import opened Options

  type Table<T> = seq<seq<Option<T>>>

  function Lookup<T>(t: Table<T>, id: nat, index: nat): Option<T> {
    if id < |t| && index < |t[id]| then t[id][index] else None
  }

  function Grown<T>(s: seq<T>, n: nat, filler: T): (r: seq<T>)
    ensures |r| == if |s| < n then n else |s|
    ensures s <= r
    ensures forall i :: |s| <= i < |r| ==> r[i] == filler
  {
    if |s| < n then s + seq(n - |s|, _ => filler) else s
  }

  function Inserted<T>(t: Table<T>, id: nat, index: nat, v: T): Table<T> {
    var t' := Grown(t, id + 1, []);
    t'[id := Grown(t'[id], index + 1, None)[index := Some(v)]]
  }

  /** An insertion is seen at its own place and nowhere else. */
  lemma LookupInserted<T>(t: Table<T>, id: nat, index: nat, v: T, id2: nat, index2: nat)
    ensures Lookup(Inserted(t, id, index, v), id2, index2)
            == if (id2, index2) == (id, index) then Some(v) else Lookup(t, id2, index2)
  {
    var t' := Grown(t, id + 1, []);
    if id2 < |t| {
      assert t'[id2] == t[id2];
    }
  }
}
