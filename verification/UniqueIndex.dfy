/** A unique secondary index: a map from normalized keys to the ids of the records that carry them. */
module UniqueIndex {
  import opened Prelude

  /** The index holds exactly the pairs (key of a record, id of that record). */
  ghost predicate Exact<T(!new)>(index: map<string, string>, records: map<string, T>, keyOf: T -> Option<string>) {
    && (forall k :: k in index ==> index[k] in records && keyOf(records[index[k]]) == Some(k))
    && (forall id :: id in records && keyOf(records[id]).Some? ==>
          keyOf(records[id]).value in index && index[keyOf(records[id]).value] == id)
  }

  /** Every record is filed under its own id, and no id is empty. */
  ghost predicate Filed<T(!new)>(records: map<string, T>, idOf: T -> string) {
    forall id :: id in records ==> idOf(records[id]) == id && id != ""
  }

  lemma {:induction false} FiledIff<T(!new)>(records: map<string, T>, idOf: T -> string, r: T)
    requires Filed(records, idOf)
    ensures Filed(records[idOf(r) := r], idOf) <==> idOf(r) != ""
  {
    assert idOf(r) in records[idOf(r) := r];
  }

  function Unindex(index: map<string, string>, key: Option<string>, id: string): map<string, string> {
    if key.Some? && key.value in index && index[key.value] == id then index - {key.value} else index
  }

  function Reindex(index: map<string, string>, key: Option<string>, id: string): map<string, string> {
    if key.Some? then index[key.value := id] else index
  }

  /** No record other than `id` carries `key`. */
  ghost predicate Free<T(!new)>(records: map<string, T>, keyOf: T -> Option<string>, key: Option<string>, id: string) {
    key.Some? ==> forall i :: i in records && keyOf(records[i]) == key ==> i == id
  }

  /** In an exact index, a taken key is one whose entry names another record. */
  lemma FreeIff<T(!new)>(index: map<string, string>, records: map<string, T>, keyOf: T -> Option<string>, key: Option<string>, id: string)
    requires Exact(index, records, keyOf)
    ensures Free(records, keyOf, key, id) <==> (key.Some? && key.value in index ==> index[key.value] == id)
  {
  }

  /** Some record, other than the excluded one if there is one, carries `key`: a scan of all records. */
  ghost predicate Taken<T(!new)>(records: map<string, T>, keyOf: T -> Option<string>, key: Option<string>, exclude: Option<string>) {
    key.Some? && exists i :: i in records && keyOf(records[i]) == key && exclude != Some(i)
  }

  /** In an exact index the entry of a key tells whether it is taken. */
  lemma {:induction false} TakenIff<T(!new)>(index: map<string, string>, records: map<string, T>, keyOf: T -> Option<string>,
                                             key: Option<string>, exclude: Option<string>)
    requires Exact(index, records, keyOf)
    ensures Taken(records, keyOf, key, exclude) <==> key.Some? && key.value in index && exclude != Some(index[key.value])
  {
    if key.Some? && key.value in index && exclude != Some(index[key.value]) {
      var i := index[key.value];
      assert i in records && keyOf(records[i]) == key;
    }
  }

  /** Storing a record with a free key over whatever its id held keeps the index exact exactly when the id held
      nothing with a key: the old entry is not taken out. */
  lemma {:induction false} OverwriteExactIff<T(!new)>(index: map<string, string>, records: map<string, T>,
                                                      keyOf: T -> Option<string>, id: string, r: T)
    requires Exact(index, records, keyOf) && !Taken(records, keyOf, keyOf(r), None)
    ensures Exact(Reindex(index, keyOf(r), id), records[id := r], keyOf) <==> (id in records ==> keyOf(records[id]) == None)
  {
    var index', records' := Reindex(index, keyOf(r), id), records[id := r];
    if id !in records {
      ExactInsert(index, records, keyOf, id, r);
    } else if keyOf(records[id]).Some? {
      var k := keyOf(records[id]).value;
      assert keyOf(r) != Some(k);
      assert k in index' && index'[k] == id && keyOf(records'[id]) != Some(k);
    } else {
      assert forall k :: k in index ==> index[k] != id;
    }
  }

  /** An exact index makes keys unique. */
  lemma KeysUnique<T(!new)>(index: map<string, string>, records: map<string, T>, keyOf: T -> Option<string>, i: string, j: string)
    requires Exact(index, records, keyOf) && i in records && j in records
    requires keyOf(records[i]).Some? && keyOf(records[i]) == keyOf(records[j])
    ensures i == j
  {
  }

  lemma ExactRemove<T(!new)>(index: map<string, string>, records: map<string, T>, keyOf: T -> Option<string>, id: string)
    requires Exact(index, records, keyOf) && id in records
    ensures Exact(Unindex(index, keyOf(records[id]), id), records - {id}, keyOf)
  {
  }

  lemma ExactInsert<T(!new)>(index: map<string, string>, records: map<string, T>, keyOf: T -> Option<string>, id: string, r: T)
    requires Exact(index, records, keyOf) && id !in records && Free(records, keyOf, keyOf(r), id)
    ensures Exact(Reindex(index, keyOf(r), id), records[id := r], keyOf)
  {
    FreeIff(index, records, keyOf, keyOf(r), id);
  }

  /** Un-index, change the record, re-index: exact again when the new key was free. */
  lemma ExactReplace<T(!new)>(index: map<string, string>, records: map<string, T>, keyOf: T -> Option<string>, id: string, r: T)
    requires Exact(index, records, keyOf) && id in records && Free(records, keyOf, keyOf(r), id)
    ensures Exact(Reindex(Unindex(index, keyOf(records[id]), id), keyOf(r), id), records[id := r], keyOf)
  {
    ExactRemove(index, records, keyOf, id);
    ExactInsert(Unindex(index, keyOf(records[id]), id), records - {id}, keyOf, id, r);
    assert (records - {id})[id := r] == records[id := r];
  }

  /** A change that leaves the key alone leaves the index exact. */
  lemma ExactSameKey<T(!new)>(index: map<string, string>, records: map<string, T>, keyOf: T -> Option<string>, id: string, r: T)
    requires Exact(index, records, keyOf) && id in records && keyOf(r) == keyOf(records[id])
    ensures Exact(index, records[id := r], keyOf)
  {
  }

  /** Whether a key is free for `id` does not depend on what `id` itself carries. */
  lemma FreeOwnChange<T(!new)>(records: map<string, T>, keyOf: T -> Option<string>, key: Option<string>, id: string, r: T)
    ensures Free(records[id := r], keyOf, key, id) <==> Free(records, keyOf, key, id)
  {
    forall i | i != id ensures i in records[id := r] <==> i in records {
    }
  }
}
