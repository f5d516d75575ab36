/**
  The three R2DBC repositories (franquicia, sucursal, producto) as pure
  functions over in-memory tables.

  A table maps each stored id to its row and carries the next value of the
  table's AUTO_INCREMENT counter. `save` of a record without an id is an
  INSERT that assigns that counter and stamps both timestamps with `now`;
  `save` of a record with an id is a hand-written `UPDATE ... WHERE id = :id`
  that writes only some columns, followed by a re-read of the row. The
  wall clock is the parameter `now`.
 */
module Store {
  import opened Common

  /** A surrogate key (a MySQL BIGINT AUTO_INCREMENT, never negative). */
  type Id = nat

  /** A reading of the clock (`LocalDateTime`), totally ordered. */
  type Time = int

  /** Domain record and entity of table `franquicia`; `None` fields are Java nulls before persistence. */
  datatype Franquicia = Franquicia(
    id: Option<Id>,
    nombre: string,
    createdAt: Option<Time>,
    updatedAt: Option<Time>)

  /** Domain record and entity of table `sucursal`. */
  datatype Sucursal = Sucursal(
    id: Option<Id>,
    nombre: string,
    franquiciaId: Id,
    createdAt: Option<Time>,
    updatedAt: Option<Time>)

  /** Domain record and entity of table `producto`. */
  datatype Producto = Producto(
    id: Option<Id>,
    nombre: string,
    stock: int,
    sucursalId: Id,
    createdAt: Option<Time>,
    updatedAt: Option<Time>)

  /** One table: its rows by primary key and the next AUTO_INCREMENT value. */
  datatype Table<R> = Table(rows: map<Id, R>, nextId: Id)

  /** What a repository `save`/`update` emits (an empty `Mono` is `None`) and the table after it. */
  datatype Saved<R> = Saved(result: Option<R>, table: Table<R>)

  /** The whole database: the three tables. */
  datatype Db = Db(
    franquicias: Table<Franquicia>,
    sucursales: Table<Sucursal>,
    productos: Table<Producto>)

  /** A freshly created table; MySQL's AUTO_INCREMENT starts at 1. */
  function EmptyTable<R>(): Table<R> {
    Table(map[], 1)
  }

  /** A freshly created database. */
  function EmptyDb(): Db {
    Db(EmptyTable(), EmptyTable(), EmptyTable())
  }

  /**
    What the repositories keep true of every stored row: its `id` field is
    its key (the database assigns it on insert), the AUTO_INCREMENT counter
    is above every key, and both timestamps are set, since the insert path
    of `save` writes them and the update path never clears them.
   */
  predicate FranquiciasWf(t: Table<Franquicia>) {
    forall k :: k in t.rows ==>
      k < t.nextId && t.rows[k].id == Some(k) && t.rows[k].createdAt.Some? && t.rows[k].updatedAt.Some?
  }

  predicate SucursalesWf(t: Table<Sucursal>) {
    forall k :: k in t.rows ==>
      k < t.nextId && t.rows[k].id == Some(k) && t.rows[k].createdAt.Some? && t.rows[k].updatedAt.Some?
  }

  predicate ProductosWf(t: Table<Producto>) {
    forall k :: k in t.rows ==>
      k < t.nextId && t.rows[k].id == Some(k) && t.rows[k].createdAt.Some? && t.rows[k].updatedAt.Some?
  }

  /** `findById`: the row stored under `id`, or an empty `Mono` when there is none. */
  function FindById<R>(t: Table<R>, id: Id): (r: Option<R>)
    ensures r.Some? <==> id in t.rows
    ensures r.Some? ==> r.value == t.rows[id]
  {
    if id in t.rows then Some(t.rows[id]) else None
  }

  /** `existsById`: true exactly when `findById` would emit a row. */
  predicate ExistsById<R>(t: Table<R>, id: Id): (b: bool)
    ensures b <==> FindById(t, id).Some?
  {
    id in t.rows
  }

  /** The rows stored under the keys `ks`, in the order of `ks`. */
  function RowsAt<R(==)>(rows: map<Id, R>, ks: seq<Id>): (r: seq<R>)
    requires forall i :: 0 <= i < |ks| ==> ks[i] in rows
    ensures |r| == |ks|
    ensures forall i :: 0 <= i < |ks| ==> r[i] == rows[ks[i]]
    ensures forall i :: 0 <= i < |r| ==> r[i] in rows.Values
  {
    if ks == [] then [] else [rows[ks[0]]] + RowsAt(rows, ks[1..])
  }

  // ---------------------------------------------------------------- franquicia

  /**
    `FranquiciaR2dbcRepository.save`. Without an id it inserts the record
    with a new id and `createdAt == updatedAt == now`. With an id it runs
    `UPDATE franquicia SET nombre, updated_at WHERE id` and returns the row
    read back, which is empty when no row has that id.
   */
  function SaveFranquicia(t: Table<Franquicia>, f: Franquicia, now: Time): (w: Saved<Franquicia>)
    ensures f.id.None? ==>
      && w.result == Some(Franquicia(Some(t.nextId), f.nombre, Some(now), Some(now)))
      && w.table.rows == t.rows[t.nextId := w.result.value]
      && w.table.nextId > t.nextId
    ensures f.id.Some? && f.id.value !in t.rows ==> w == Saved(None, t)
    ensures f.id.Some? && f.id.value in t.rows ==>
      var old_ := t.rows[f.id.value];
      && w.result == FindById(w.table, f.id.value)
      && w.result == Some(old_.(nombre := f.nombre, updatedAt := Some(now)))
      && w.table.rows - {f.id.value} == t.rows - {f.id.value}
      && w.table.nextId == t.nextId
  {
    match f.id
    case None =>
      var stored := f.(id := Some(t.nextId), createdAt := Some(now), updatedAt := Some(now));
      Saved(Some(stored), Table(t.rows[t.nextId := stored], t.nextId + 1))
    case Some(k) =>
      var t' := if k in t.rows
                then t.(rows := t.rows[k := t.rows[k].(nombre := f.nombre, updatedAt := Some(now))])
                else t;
      Saved(FindById(t', k), t')
  }

  /** `FranquiciaR2dbcRepository.update` delegates to `save` unchanged, so it has the same contract. */
  function UpdateFranquicia(t: Table<Franquicia>, f: Franquicia, now: Time): (w: Saved<Franquicia>)
    ensures f.id.None? ==>
      && w.result == Some(Franquicia(Some(t.nextId), f.nombre, Some(now), Some(now)))
      && w.table.rows == t.rows[t.nextId := w.result.value]
      && w.table.nextId > t.nextId
    ensures f.id.Some? && f.id.value !in t.rows ==> w == Saved(None, t)
    ensures f.id.Some? && f.id.value in t.rows ==>
      var old_ := t.rows[f.id.value];
      && w.result == FindById(w.table, f.id.value)
      && w.result == Some(old_.(nombre := f.nombre, updatedAt := Some(now)))
      && w.table.rows - {f.id.value} == t.rows - {f.id.value}
      && w.table.nextId == t.nextId
  {
    SaveFranquicia(t, f, now)
  }

  // ---------------------------------------------------------------- sucursal

  /**
    `SucursalR2dbcRepository.save`. The UPDATE path writes only `nombre` and
    `updated_at`: the stored `franquiciaId` and `createdAt` survive whatever
    the caller's record holds.
   */
  function SaveSucursal(t: Table<Sucursal>, s: Sucursal, now: Time): (w: Saved<Sucursal>)
    ensures s.id.None? ==>
      && w.result == Some(Sucursal(Some(t.nextId), s.nombre, s.franquiciaId, Some(now), Some(now)))
      && w.table.rows == t.rows[t.nextId := w.result.value]
      && w.table.nextId > t.nextId
    ensures s.id.Some? && s.id.value !in t.rows ==> w == Saved(None, t)
    ensures s.id.Some? && s.id.value in t.rows ==>
      var old_ := t.rows[s.id.value];
      && w.result == FindById(w.table, s.id.value)
      && w.result == Some(old_.(nombre := s.nombre, updatedAt := Some(now)))
      && w.table.rows - {s.id.value} == t.rows - {s.id.value}
      && w.table.nextId == t.nextId
  {
    match s.id
    case None =>
      var stored := s.(id := Some(t.nextId), createdAt := Some(now), updatedAt := Some(now));
      Saved(Some(stored), Table(t.rows[t.nextId := stored], t.nextId + 1))
    case Some(k) =>
      var t' := if k in t.rows
                then t.(rows := t.rows[k := t.rows[k].(nombre := s.nombre, updatedAt := Some(now))])
                else t;
      Saved(FindById(t', k), t')
  }

  /** `SucursalR2dbcRepository.update` delegates to `save` unchanged, so it has the same contract. */
  function UpdateSucursal(t: Table<Sucursal>, s: Sucursal, now: Time): (w: Saved<Sucursal>)
    ensures s.id.None? ==>
      && w.result == Some(Sucursal(Some(t.nextId), s.nombre, s.franquiciaId, Some(now), Some(now)))
      && w.table.rows == t.rows[t.nextId := w.result.value]
      && w.table.nextId > t.nextId
    ensures s.id.Some? && s.id.value !in t.rows ==> w == Saved(None, t)
    ensures s.id.Some? && s.id.value in t.rows ==>
      var old_ := t.rows[s.id.value];
      && w.result == FindById(w.table, s.id.value)
      && w.result == Some(old_.(nombre := s.nombre, updatedAt := Some(now)))
      && w.table.rows - {s.id.value} == t.rows - {s.id.value}
      && w.table.nextId == t.nextId
  {
    SaveSucursal(t, s, now)
  }

  /** Keys of the stored branches of franchise `fid`. */
  function SucursalKeys(t: Table<Sucursal>, fid: Id): set<Id> {
    set k | k in t.rows && t.rows[k].franquiciaId == fid
  }

  /** `findByFranquiciaId`: exactly the stored branches of franchise `fid`, each once, by ascending id. */
  function FindSucursalesByFranquicia(t: Table<Sucursal>, fid: Id): (r: seq<Sucursal>)
    ensures forall i :: 0 <= i < |r| ==> r[i] in t.rows.Values && r[i].franquiciaId == fid
    ensures forall k :: k in t.rows && t.rows[k].franquiciaId == fid ==> t.rows[k] in r
    ensures |r| == |SucursalKeys(t, fid)|
  {
    var keys := SucursalKeys(t, fid);
    var ks := SortedElements(keys);
    var r := RowsAt(t.rows, ks);
    forall k | k in t.rows && t.rows[k].franquiciaId == fid ensures t.rows[k] in r {
      assert k in keys;
      var i :| 0 <= i < |ks| && ks[i] == k;
      assert r[i] == t.rows[k];
    }
    r
  }

  // ---------------------------------------------------------------- producto

  /**
    `ProductoR2dbcRepository.save`. The UPDATE path writes only `nombre`,
    `stock` and `updated_at`: the stored `sucursalId` and `createdAt`
    survive whatever the caller's record holds.
   */
  function SaveProducto(t: Table<Producto>, p: Producto, now: Time): (w: Saved<Producto>)
    ensures p.id.None? ==>
      && w.result == Some(Producto(Some(t.nextId), p.nombre, p.stock, p.sucursalId, Some(now), Some(now)))
      && w.table.rows == t.rows[t.nextId := w.result.value]
      && w.table.nextId > t.nextId
    ensures p.id.Some? && p.id.value !in t.rows ==> w == Saved(None, t)
    ensures p.id.Some? && p.id.value in t.rows ==>
      var old_ := t.rows[p.id.value];
      && w.result == FindById(w.table, p.id.value)
      && w.result == Some(old_.(nombre := p.nombre, stock := p.stock, updatedAt := Some(now)))
      && w.table.rows - {p.id.value} == t.rows - {p.id.value}
      && w.table.nextId == t.nextId
  {
    match p.id
    case None =>
      var stored := p.(id := Some(t.nextId), createdAt := Some(now), updatedAt := Some(now));
      Saved(Some(stored), Table(t.rows[t.nextId := stored], t.nextId + 1))
    case Some(k) =>
      var t' := if k in t.rows
                then t.(rows := t.rows[k := t.rows[k].(nombre := p.nombre, stock := p.stock, updatedAt := Some(now))])
                else t;
      Saved(FindById(t', k), t')
  }

  /** `ProductoR2dbcRepository.update` delegates to `save` unchanged, so it has the same contract. */
  function UpdateProducto(t: Table<Producto>, p: Producto, now: Time): (w: Saved<Producto>)
    ensures p.id.None? ==>
      && w.result == Some(Producto(Some(t.nextId), p.nombre, p.stock, p.sucursalId, Some(now), Some(now)))
      && w.table.rows == t.rows[t.nextId := w.result.value]
      && w.table.nextId > t.nextId
    ensures p.id.Some? && p.id.value !in t.rows ==> w == Saved(None, t)
    ensures p.id.Some? && p.id.value in t.rows ==>
      var old_ := t.rows[p.id.value];
      && w.result == FindById(w.table, p.id.value)
      && w.result == Some(old_.(nombre := p.nombre, stock := p.stock, updatedAt := Some(now)))
      && w.table.rows - {p.id.value} == t.rows - {p.id.value}
      && w.table.nextId == t.nextId
  {
    SaveProducto(t, p, now)
  }

  /** `deleteById`: the row with that id is gone, every other row and the counter are untouched. */
  function DeleteProducto(t: Table<Producto>, id: Id): (t': Table<Producto>)
    ensures id !in t'.rows
    ensures t'.rows.Keys == t.rows.Keys - {id}
    ensures forall k :: k in t'.rows ==> t'.rows[k] == t.rows[k]
    ensures t'.nextId == t.nextId
  {
    t.(rows := t.rows - {id})
  }

  /** Keys of the stored products of branch `sid`. */
  function ProductoKeys(t: Table<Producto>, sid: Id): set<Id> {
    set k | k in t.rows && t.rows[k].sucursalId == sid
  }

  /** `findBySucursalId`: exactly the stored products of branch `sid`, each once, by ascending id. */
  function FindProductosBySucursal(t: Table<Producto>, sid: Id): (r: seq<Producto>)
    ensures forall i :: 0 <= i < |r| ==> r[i] in t.rows.Values && r[i].sucursalId == sid
    ensures forall k :: k in t.rows && t.rows[k].sucursalId == sid ==> t.rows[k] in r
    ensures |r| == |ProductoKeys(t, sid)|
  {
    var keys := ProductoKeys(t, sid);
    var ks := SortedElements(keys);
    var r := RowsAt(t.rows, ks);
    forall k | k in t.rows && t.rows[k].sucursalId == sid ensures t.rows[k] in r {
      assert k in keys;
      var i :| 0 <= i < |ks| && ks[i] == k;
      assert r[i] == t.rows[k];
    }
    r
  }
}
