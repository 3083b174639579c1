/** GenericRepository<T>: the reads every repository inherits. Its source is
    not part of this model, so each read gets the contract its name promises,
    over one table of the rows the session reads. */
module Repository {
  import opened Models

  /** GetByIdAsync: the row stored under `id`, or null when there is none. */
  function GetById<T>(table: map<Id, T>, id: Id): (r: Option<T>)
    ensures r.Some? <==> id in table
    ensures r.Some? ==> r.value == table[id]
  {
    if id in table then Some(table[id]) else None
  }

  /** GetAllAsync(filter): every row the filter accepts, under its key, and
      no other. */
  function GetAll<K(!new), T>(table: map<K, T>, accept: (K, T) -> bool): (r: map<K, T>)
    ensures forall k :: k in r <==> k in table && accept(k, table[k])
    ensures forall k :: k in r ==> r[k] == table[k]
  {
    map k | k in table && accept(k, table[k]) :: table[k]
  }

  /** GetFirstOrDefaultAsync(filter): the key of some row the filter accepts,
      or null exactly when it accepts none. Which row comes first is the
      database's choice, so any accepted row may come back. */
  method GetFirstOrDefault<K(!new), T>(table: map<K, T>, accept: (K, T) -> bool) returns (r: Option<K>)
    ensures r.Some? ==> r.value in table && accept(r.value, table[r.value])
    ensures r.None? <==> GetAll(table, accept) == map[]
  {
    if k :| k in table && accept(k, table[k]) {
      assert k in GetAll(table, accept);
      r := Some(k);
    } else {
      r := None;
    }
  }

  /** A filter that accepts more rows returns more rows. */
  lemma GetAllMonotone<K(!new), T>(table: map<K, T>, narrow: (K, T) -> bool, wide: (K, T) -> bool)
    requires forall k :: k in table && narrow(k, table[k]) ==> wide(k, table[k])
    ensures GetAll(table, narrow).Keys <= GetAll(table, wide).Keys
  {
  }
}
