/**
 * The `registro` table: rows keyed by an auto-increment primary key.  Insert, point lookup
 * (`filter_by(id=id).first()`), full scan (`query.all()`, in primary-key order) and delete.
 */
module RecordStore {
  import opened Wrappers
  import CivilTime
  import opened Registros

  /** Every row is stored under its own id. */
  ghost predicate KeyedById(rows: map<int, Registro>) {
    forall k :: k in rows ==> rows[k].id == k
  }

  /** The rows whose ids lie in [lo, hi), in ascending id order. */
  function Collect(rows: map<int, Registro>, lo: int, hi: int): (rs: seq<Registro>)
    requires KeyedById(rows)
    ensures forall i :: 0 <= i < |rs| ==> lo <= rs[i].id < hi && rs[i].id in rows && rows[rs[i].id] == rs[i]
    ensures forall k :: k in rows && lo <= k < hi ==> rows[k] in rs
    ensures forall i, j :: 0 <= i < j < |rs| ==> rs[i].id < rs[j].id
    decreases hi - lo
  {
    if hi <= lo then []
    else
      var init := Collect(rows, lo, hi - 1);
      if hi - 1 in rows then init + [rows[hi - 1]] else init
  }

  /** The sequence without the record whose id is `id`. */
  function RemoveId(rs: seq<Registro>, id: int): (r: seq<Registro>)
    ensures forall x :: x in r <==> x in rs && x.id != id
  {
    if rs == [] then []
    else RemoveId(rs[..|rs| - 1], id) + (if rs[|rs| - 1].id == id then [] else [rs[|rs| - 1]])
  }

  lemma {:induction false} CollectIgnoresAbove(rows: map<int, Registro>, lo: int, hi: int, n: int, r: Registro)
    requires KeyedById(rows) && r.id == n && hi <= n
    ensures Collect(rows[n := r], lo, hi) == Collect(rows, lo, hi)
    decreases hi - lo
  {
    if lo < hi {
      CollectIgnoresAbove(rows, lo, hi - 1, n, r);
    }
  }

  /** Inserting under a key above all others appends to the scan. */
  lemma CollectInsert(rows: map<int, Registro>, lo: int, n: int, r: Registro)
    requires KeyedById(rows) && r.id == n && lo <= n
    ensures Collect(rows[n := r], lo, n + 1) == Collect(rows, lo, n) + [r]
  {
    CollectIgnoresAbove(rows, lo, n, n, r);
  }

  lemma RemoveIdSnoc(rs: seq<Registro>, x: Registro, id: int)
    ensures RemoveId(rs + [x], id) == RemoveId(rs, id) + (if x.id == id then [] else [x])
  {
    assert (rs + [x])[..|rs|] == rs;
  }

  /** Deleting a key removes exactly that record from the scan. */
  lemma {:induction false} CollectDelete(rows: map<int, Registro>, lo: int, hi: int, id: int)
    requires KeyedById(rows)
    ensures KeyedById(rows - {id}) && Collect(rows - {id}, lo, hi) == RemoveId(Collect(rows, lo, hi), id)
    decreases hi - lo
  {
    if lo < hi {
      CollectDelete(rows, lo, hi - 1, id);
      CollectDeleteStep(rows, lo, hi, id);
    }
  }

  /** One step of CollectDelete: the key hi - 1 is dropped exactly when it is the deleted one. */
  lemma CollectDeleteStep(rows: map<int, Registro>, lo: int, hi: int, id: int)
    requires KeyedById(rows) && KeyedById(rows - {id}) && lo < hi
    requires Collect(rows - {id}, lo, hi - 1) == RemoveId(Collect(rows, lo, hi - 1), id)
    ensures Collect(rows - {id}, lo, hi) == RemoveId(Collect(rows, lo, hi), id)
  {
    var d := rows - {id};
    var init := Collect(rows, lo, hi - 1);
    assert Collect(d, lo, hi) == Collect(d, lo, hi - 1) + (if hi - 1 in d then [d[hi - 1]] else []);
    if hi - 1 in rows {
      assert Collect(rows, lo, hi) == init + [rows[hi - 1]];
      RemoveIdSnoc(init, rows[hi - 1], id);
    } else {
      assert Collect(rows, lo, hi) == init;
    }
  }

  class Table {
    var rows: map<int, Registro>
    /** The value the auto-increment counter gives the next insert. */
    var nextId: int
    /** Every id ever assigned, including those of deleted rows. */
    ghost var issued: set<int>

    ghost predicate Valid()
      reads this
    {
      && 1 <= nextId
      && rows.Keys <= issued
      && (forall k :: k in issued ==> 1 <= k < nextId)
      && KeyedById(rows)
      && (forall k :: k in rows ==> CivilTime.Valid(rows[k].row.tempoRegistro))
    }

    constructor ()
      ensures Valid() && rows == map[] && nextId == 1 && issued == {}
    {
      rows := map[];
      nextId := 1;
      issued := {};
    }

    /** `Registro.query.filter_by(id=id).first()`. */
    function Get(id: int): (r: Option<Registro>)
      reads this
      requires Valid()
      ensures r.Some? <==> id in rows
      ensures r.Some? ==> r.value == rows[id] && r.value.id == id && CivilTime.Valid(r.value.row.tempoRegistro)
    {
      if id in rows then Some(rows[id]) else None
    }

    /** `Registro.query.all()`: every row once, in ascending id order. */
    function Scan(): (rs: seq<Registro>)
      reads this
      requires Valid()
      ensures AllTimesValid(rs)
      ensures forall i :: 0 <= i < |rs| ==> Get(rs[i].id) == Some(rs[i])
      ensures forall k :: k in rows ==> rows[k] in rs
      ensures forall i, j :: 0 <= i < j < |rs| ==> rs[i].id < rs[j].id
    {
      Collect(rows, 1, nextId)
    }

    /** `session.add(registro)` and a successful `commit()`: the row gets a fresh id. */
    method Insert(row: Row) returns (id: int)
      requires Valid() && CivilTime.Valid(row.tempoRegistro)
      modifies this
      ensures Valid()
      ensures id == old(nextId) && id !in old(issued) && (forall k :: k in old(issued) ==> k < id)
      ensures rows == old(rows)[id := Registro(id, row)]
      ensures nextId == old(nextId) + 1 && issued == old(issued) + {id}
      ensures Scan() == old(Scan()) + [Registro(id, row)]
    {
      id := nextId;
      CollectInsert(rows, 1, id, Registro(id, row));
      rows := rows[id := Registro(id, row)];
      nextId := nextId + 1;
      issued := issued + {id};
    }

    /** `session.delete(registro)` and a successful `commit()`. */
    method Delete(id: int)
      requires Valid()
      modifies this
      ensures Valid()
      ensures rows == old(rows) - {id} && nextId == old(nextId) && issued == old(issued)
      ensures Scan() == RemoveId(old(Scan()), id)
    {
      CollectDelete(rows, 1, nextId, id);
      rows := rows - {id};
    }
  }
}
