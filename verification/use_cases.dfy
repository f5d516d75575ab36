/**
  The nine application use cases. Each validates its arguments in a fixed
  order (null id, blank name, missing or negative stock); one that takes an
  id or a parent id then checks that the row it needs exists; then each
  performs exactly one repository write (or, for the report, one query).

  Every failure a use case raises itself is the same Java exception,
  `IllegalArgumentException`, which `GlobalExceptionHandler` answers with
  HTTP 400 whatever its message; `Reason` only records which check raised
  it, the way the message text does. Reactor's `Mono` completes with a
  value, completes empty, or fails: that is `Outcome`. Java nulls among the
  arguments are `None`.
 */
module UseCases {
  import opened Common
  import opened JavaText
  import opened Store
  import opened MaxStock

  /** Which check raised the exception; the source tells them apart only in the message text. */
  datatype Reason = IdIsNull | NameIsBlank | StockIsInvalid | NotFound

  /** The one exception type every use case raises. */
  datatype Error = IllegalArgumentException(reason: Reason)

  /** How a `Mono`/`Flux` completes: with a value, empty, or with an error. */
  datatype Outcome<T> = Ok(value: T) | Empty | Failed(error: Error)

  /** What a use case emits and the database after it. */
  datatype Response<T> = Response(outcome: Outcome<T>, db: Db)

  /** The HTTP status `GlobalExceptionHandler` gives every `IllegalArgumentException`. */
  const BAD_REQUEST: int := 400

  /** The status of the response to a failed use case: the same for every reason. */
  function Status(e: Error): int {
    BAD_REQUEST
  }

  /** Fails with `reason`, leaving the database as it was. */
  function Fail<T>(db: Db, reason: Reason): Response<T> {
    Response(Failed(IllegalArgumentException(reason)), db)
  }

  /** `nombre == null || nombre.trim().isEmpty()`. */
  predicate NameMissing(nombre: Option<string>) {
    nombre.None? || IsBlank(nombre.value)
  }

  /** `stock == null || stock < 0`. */
  predicate StockMissing(stock: Option<int>) {
    stock.None? || stock.value < 0
  }

  /** A repository `Mono` as the use case passes it on. */
  function Emit<R>(o: Option<R>): Outcome<R> {
    match o
    case Some(v) => Ok(v)
    case None => Empty
  }

  // ------------------------------------------------------------ invariant

  /**
    What every reachable database satisfies: the key, counter and timestamp
    facts the repositories keep (`FranquiciasWf` and its siblings),
    every name is trimmed and non-blank, every stock is at least 0, and the
    parent of every branch and of every product is stored.
   */
  predicate Valid(db: Db) {
    && FranquiciasValid(db.franquicias)
    && SucursalesValid(db.sucursales, db.franquicias.rows.Keys)
    && ProductosValid(db.productos, db.sucursales.rows.Keys)
  }

  /** The franchise table is well formed and every franchise name is clean. */
  predicate FranquiciasValid(t: Table<Franquicia>) {
    && FranquiciasWf(t)
    && forall k :: k in t.rows ==> IsCleanName(t.rows[k].nombre)
  }

  /** The branch table is well formed, every branch name is clean and every parent is among `parents`. */
  predicate SucursalesValid(t: Table<Sucursal>, parents: set<Id>) {
    && SucursalesWf(t)
    && forall k :: k in t.rows ==> IsCleanName(t.rows[k].nombre) && t.rows[k].franquiciaId in parents
  }

  /** The product table is well formed, names are clean, stocks are at least 0 and every parent is among `parents`. */
  predicate ProductosValid(t: Table<Producto>, parents: set<Id>) {
    && ProductosWf(t)
    && forall k :: k in t.rows ==>
         IsCleanName(t.rows[k].nombre) && t.rows[k].stock >= 0 && t.rows[k].sucursalId in parents
  }

  // ------------------------------------------------------------ create

  /** `CrearFranquiciaUseCase.execute(nombre)`. */
  function CrearFranquicia(db: Db, nombre: Option<string>, now: Time): (r: Response<Franquicia>)
    ensures NameMissing(nombre) ==> r == Fail(db, NameIsBlank)
    ensures !NameMissing(nombre) ==>
      var id := db.franquicias.nextId;
      && r.outcome == Ok(Franquicia(Some(id), Trim(nombre.value), Some(now), Some(now)))
      && r.db.franquicias.rows == db.franquicias.rows[id := r.outcome.value]
      && r.db.franquicias.nextId > id
      && r.db.sucursales == db.sucursales && r.db.productos == db.productos
  {
    if NameMissing(nombre) then Fail(db, NameIsBlank)
    else
      var w := SaveFranquicia(db.franquicias, Franquicia(None, Trim(nombre.value), None, None), now);
      Response(Emit(w.result), db.(franquicias := w.table))
  }

  /** `AgregarSucursalUseCase.execute(franquiciaId, nombre)`. */
  function AgregarSucursal(db: Db, franquiciaId: Id, nombre: Option<string>, now: Time): (r: Response<Sucursal>)
    ensures NameMissing(nombre) ==> r == Fail(db, NameIsBlank)
    ensures !NameMissing(nombre) && franquiciaId !in db.franquicias.rows ==> r == Fail(db, NotFound)
    ensures !NameMissing(nombre) && franquiciaId in db.franquicias.rows ==>
      var id := db.sucursales.nextId;
      && r.outcome == Ok(Sucursal(Some(id), Trim(nombre.value), franquiciaId, Some(now), Some(now)))
      && r.db.sucursales.rows == db.sucursales.rows[id := r.outcome.value]
      && r.db.sucursales.nextId > id
      && r.db.franquicias == db.franquicias && r.db.productos == db.productos
  {
    if NameMissing(nombre) then Fail(db, NameIsBlank)
    else if !ExistsById(db.franquicias, franquiciaId) then Fail(db, NotFound)
    else
      var w := SaveSucursal(db.sucursales, Sucursal(None, Trim(nombre.value), franquiciaId, None, None), now);
      Response(Emit(w.result), db.(sucursales := w.table))
  }

  /** `AgregarProductoUseCase.execute(sucursalId, nombre, stock)`. */
  function AgregarProducto(db: Db, sucursalId: Id, nombre: Option<string>, stock: Option<int>, now: Time): (r: Response<Producto>)
    ensures NameMissing(nombre) ==> r == Fail(db, NameIsBlank)
    ensures !NameMissing(nombre) && StockMissing(stock) ==> r == Fail(db, StockIsInvalid)
    ensures !NameMissing(nombre) && !StockMissing(stock) && sucursalId !in db.sucursales.rows ==>
      r == Fail(db, NotFound)
    ensures !NameMissing(nombre) && !StockMissing(stock) && sucursalId in db.sucursales.rows ==>
      var id := db.productos.nextId;
      && r.outcome == Ok(Producto(Some(id), Trim(nombre.value), stock.value, sucursalId, Some(now), Some(now)))
      && r.db.productos.rows == db.productos.rows[id := r.outcome.value]
      && r.db.productos.nextId > id
      && r.db.franquicias == db.franquicias && r.db.sucursales == db.sucursales
  {
    if NameMissing(nombre) then Fail(db, NameIsBlank)
    else if StockMissing(stock) then Fail(db, StockIsInvalid)
    else if !ExistsById(db.sucursales, sucursalId) then Fail(db, NotFound)
    else
      var w := SaveProducto(db.productos, Producto(None, Trim(nombre.value), stock.value, sucursalId, None, None), now);
      Response(Emit(w.result), db.(productos := w.table))
  }

  // ------------------------------------------------------------ modify

  /**
    `ActualizarNombreFranquiciaUseCase.execute(franquiciaId, nuevoNombre)`:
    the stored row, renamed, goes through `update`.
   */
  function ActualizarNombreFranquicia(db: Db, franquiciaId: Option<Id>, nuevoNombre: Option<string>, now: Time): (r: Response<Franquicia>)
    ensures franquiciaId.None? ==> r == Fail(db, IdIsNull)
    ensures franquiciaId.Some? && NameMissing(nuevoNombre) ==> r == Fail(db, NameIsBlank)
    ensures franquiciaId.Some? && !NameMissing(nuevoNombre) && franquiciaId.value !in db.franquicias.rows ==>
      r == Fail(db, NotFound)
    ensures franquiciaId.Some? && !NameMissing(nuevoNombre) && franquiciaId.value in db.franquicias.rows
            && db.franquicias.rows[franquiciaId.value].id == franquiciaId ==>
      var k := franquiciaId.value;
      var before := db.franquicias.rows[k];
      && r.outcome == Ok(before.(nombre := Trim(nuevoNombre.value), updatedAt := Some(now)))
      && r.db.franquicias.rows == db.franquicias.rows[k := r.outcome.value]
      && r.db.franquicias.nextId == db.franquicias.nextId
      && r.db.sucursales == db.sucursales && r.db.productos == db.productos
  {
    if franquiciaId.None? then Fail(db, IdIsNull)
    else if NameMissing(nuevoNombre) then Fail(db, NameIsBlank)
    else match FindById(db.franquicias, franquiciaId.value)
      case None => Fail(db, NotFound)
      case Some(f) =>
        var w := UpdateFranquicia(db.franquicias, f.(nombre := Trim(nuevoNombre.value)), now);
        Response(Emit(w.result), db.(franquicias := w.table))
  }

  /** `ActualizarNombreSucursalUseCase.execute(sucursalId, nuevoNombre)`. */
  function ActualizarNombreSucursal(db: Db, sucursalId: Option<Id>, nuevoNombre: Option<string>, now: Time): (r: Response<Sucursal>)
    ensures sucursalId.None? ==> r == Fail(db, IdIsNull)
    ensures sucursalId.Some? && NameMissing(nuevoNombre) ==> r == Fail(db, NameIsBlank)
    ensures sucursalId.Some? && !NameMissing(nuevoNombre) && sucursalId.value !in db.sucursales.rows ==>
      r == Fail(db, NotFound)
    ensures sucursalId.Some? && !NameMissing(nuevoNombre) && sucursalId.value in db.sucursales.rows
            && db.sucursales.rows[sucursalId.value].id == sucursalId ==>
      var k := sucursalId.value;
      var before := db.sucursales.rows[k];
      && r.outcome == Ok(before.(nombre := Trim(nuevoNombre.value), updatedAt := Some(now)))
      && r.db.sucursales.rows == db.sucursales.rows[k := r.outcome.value]
      && r.db.sucursales.nextId == db.sucursales.nextId
      && r.db.franquicias == db.franquicias && r.db.productos == db.productos
  {
    if sucursalId.None? then Fail(db, IdIsNull)
    else if NameMissing(nuevoNombre) then Fail(db, NameIsBlank)
    else match FindById(db.sucursales, sucursalId.value)
      case None => Fail(db, NotFound)
      case Some(s) =>
        var w := UpdateSucursal(db.sucursales, s.(nombre := Trim(nuevoNombre.value)), now);
        Response(Emit(w.result), db.(sucursales := w.table))
  }

  /** `ActualizarNombreProductoUseCase.execute(productoId, nuevoNombre)`: the stored stock is written back. */
  function ActualizarNombreProducto(db: Db, productoId: Option<Id>, nuevoNombre: Option<string>, now: Time): (r: Response<Producto>)
    ensures productoId.None? ==> r == Fail(db, IdIsNull)
    ensures productoId.Some? && NameMissing(nuevoNombre) ==> r == Fail(db, NameIsBlank)
    ensures productoId.Some? && !NameMissing(nuevoNombre) && productoId.value !in db.productos.rows ==>
      r == Fail(db, NotFound)
    ensures productoId.Some? && !NameMissing(nuevoNombre) && productoId.value in db.productos.rows
            && db.productos.rows[productoId.value].id == productoId ==>
      var k := productoId.value;
      var before := db.productos.rows[k];
      && r.outcome == Ok(before.(nombre := Trim(nuevoNombre.value), updatedAt := Some(now)))
      && r.db.productos.rows == db.productos.rows[k := r.outcome.value]
      && r.db.productos.nextId == db.productos.nextId
      && r.db.franquicias == db.franquicias && r.db.sucursales == db.sucursales
  {
    if productoId.None? then Fail(db, IdIsNull)
    else if NameMissing(nuevoNombre) then Fail(db, NameIsBlank)
    else match FindById(db.productos, productoId.value)
      case None => Fail(db, NotFound)
      case Some(p) =>
        var w := UpdateProducto(db.productos, p.(nombre := Trim(nuevoNombre.value)), now);
        Response(Emit(w.result), db.(productos := w.table))
  }

  /** `ModificarStockProductoUseCase.execute(productoId, nuevoStock)`: the stored name is written back. */
  function ModificarStockProducto(db: Db, productoId: Option<Id>, nuevoStock: Option<int>, now: Time): (r: Response<Producto>)
    ensures productoId.None? ==> r == Fail(db, IdIsNull)
    ensures productoId.Some? && StockMissing(nuevoStock) ==> r == Fail(db, StockIsInvalid)
    ensures productoId.Some? && !StockMissing(nuevoStock) && productoId.value !in db.productos.rows ==>
      r == Fail(db, NotFound)
    ensures productoId.Some? && !StockMissing(nuevoStock) && productoId.value in db.productos.rows
            && db.productos.rows[productoId.value].id == productoId ==>
      var k := productoId.value;
      var before := db.productos.rows[k];
      && r.outcome == Ok(before.(stock := nuevoStock.value, updatedAt := Some(now)))
      && r.db.productos.rows == db.productos.rows[k := r.outcome.value]
      && r.db.productos.nextId == db.productos.nextId
      && r.db.franquicias == db.franquicias && r.db.sucursales == db.sucursales
  {
    if productoId.None? then Fail(db, IdIsNull)
    else if StockMissing(nuevoStock) then Fail(db, StockIsInvalid)
    else match FindById(db.productos, productoId.value)
      case None => Fail(db, NotFound)
      case Some(p) =>
        var w := UpdateProducto(db.productos, p.(stock := nuevoStock.value), now);
        Response(Emit(w.result), db.(productos := w.table))
  }

  /** `EliminarProductoUseCase.execute(productoId)`: a `Mono<Void>`, so success completes empty. */
  function EliminarProducto(db: Db, productoId: Option<Id>): (r: Response<()>)
    ensures productoId.None? ==> r == Fail(db, IdIsNull)
    ensures productoId.Some? && productoId.value !in db.productos.rows ==> r == Fail(db, NotFound)
    ensures productoId.Some? && productoId.value in db.productos.rows ==>
      && r.outcome == Empty
      && r.db.productos.rows == db.productos.rows - {productoId.value}
      && r.db.productos.nextId == db.productos.nextId
      && r.db.franquicias == db.franquicias && r.db.sucursales == db.sucursales
  {
    if productoId.None? then Fail(db, IdIsNull)
    else if !ExistsById(db.productos, productoId.value) then Fail(db, NotFound)
    else Response(Empty, db.(productos := DeleteProducto(db.productos, productoId.value)))
  }

  // ------------------------------------------------------------ report

  /**
    `ObtenerProductosMaximoStockPorFranquiciaUseCase.execute(franquiciaId)`:
    read-only, so only the outcome is returned.
   */
  function ObtenerProductosMaximoStock(db: Db, franquiciaId: Option<Id>): (r: Outcome<seq<ProductoMaximoStock>>)
    ensures franquiciaId.None? ==> r == Failed(IllegalArgumentException(IdIsNull))
    ensures franquiciaId.Some? && franquiciaId.value !in db.franquicias.rows ==>
      r == Failed(IllegalArgumentException(NotFound))
    ensures franquiciaId.Some? && franquiciaId.value in db.franquicias.rows ==>
      && r == Ok(ProductosMaximoStock(db, franquiciaId.value))
      && IsReport(db, franquiciaId.value, r.value)
  {
    if franquiciaId.None? then Failed(IllegalArgumentException(IdIsNull))
    else if !ExistsById(db.franquicias, franquiciaId.value) then Failed(IllegalArgumentException(NotFound))
    else
      ProductosMaximoStockIsReport(db, franquiciaId.value);
      Ok(ProductosMaximoStock(db, franquiciaId.value))
  }

  // ------------------------------------------------------------ the invariant is kept

  /** Storing a well-formed franchise row under key `k` keeps the franchise table valid. */
  lemma PutFranquiciaKeepsValid(t: Table<Franquicia>, t': Table<Franquicia>, k: Id, f: Franquicia)
    requires FranquiciasValid(t)
    requires t'.rows == t.rows[k := f] && t.nextId <= t'.nextId && k < t'.nextId
    requires f.id == Some(k) && f.createdAt.Some? && f.updatedAt.Some? && IsCleanName(f.nombre)
    ensures FranquiciasValid(t')
  {
    forall j | j in t'.rows
      ensures j < t'.nextId && t'.rows[j].id == Some(j) && t'.rows[j].createdAt.Some? && t'.rows[j].updatedAt.Some?
      ensures IsCleanName(t'.rows[j].nombre)
    {
      if j != k {
        assert t'.rows[j] == t.rows[j];
      }
    }
  }

  /** Storing a well-formed branch row with a clean name and a listed parent keeps the branch table valid. */
  lemma PutSucursalKeepsValid(t: Table<Sucursal>, t': Table<Sucursal>, parents: set<Id>, k: Id, b: Sucursal)
    requires SucursalesValid(t, parents)
    requires t'.rows == t.rows[k := b] && t.nextId <= t'.nextId && k < t'.nextId
    requires b.id == Some(k) && b.createdAt.Some? && b.updatedAt.Some? && IsCleanName(b.nombre)
    requires b.franquiciaId in parents
    ensures SucursalesValid(t', parents)
  {
    forall j | j in t'.rows
      ensures j < t'.nextId && t'.rows[j].id == Some(j) && t'.rows[j].createdAt.Some? && t'.rows[j].updatedAt.Some?
      ensures IsCleanName(t'.rows[j].nombre) && t'.rows[j].franquiciaId in parents
    {
      if j != k {
        assert t'.rows[j] == t.rows[j];
      }
    }
  }

  /** Storing a well-formed product row with a clean name, stock >= 0 and a listed parent keeps the product table valid. */
  lemma PutProductoKeepsValid(t: Table<Producto>, t': Table<Producto>, parents: set<Id>, k: Id, p: Producto)
    requires ProductosValid(t, parents)
    requires t'.rows == t.rows[k := p] && t.nextId <= t'.nextId && k < t'.nextId
    requires p.id == Some(k) && p.createdAt.Some? && p.updatedAt.Some? && IsCleanName(p.nombre)
    requires p.stock >= 0 && p.sucursalId in parents
    ensures ProductosValid(t', parents)
  {
    forall j | j in t'.rows
      ensures j < t'.nextId && t'.rows[j].id == Some(j) && t'.rows[j].createdAt.Some? && t'.rows[j].updatedAt.Some?
      ensures IsCleanName(t'.rows[j].nombre) && t'.rows[j].stock >= 0 && t'.rows[j].sucursalId in parents
    {
      if j != k {
        assert t'.rows[j] == t.rows[j];
      }
    }
  }

  /** More parents never break the branch table. */
  lemma SucursalesValidGrow(t: Table<Sucursal>, parents: set<Id>, more: set<Id>)
    requires SucursalesValid(t, parents) && parents <= more
    ensures SucursalesValid(t, more)
  {
  }

  /** More parents never break the product table. */
  lemma ProductosValidGrow(t: Table<Producto>, parents: set<Id>, more: set<Id>)
    requires ProductosValid(t, parents) && parents <= more
    ensures ProductosValid(t, more)
  {
  }

  lemma CrearFranquiciaKeepsValid(db: Db, nombre: Option<string>, now: Time)
    requires Valid(db)
    ensures Valid(CrearFranquicia(db, nombre, now).db)
  {
    if !NameMissing(nombre) {
      TrimIsClean(nombre.value);
      var r := CrearFranquicia(db, nombre, now);
      var k := db.franquicias.nextId;
      PutFranquiciaKeepsValid(db.franquicias, r.db.franquicias, k, r.outcome.value);
      SucursalesValidGrow(db.sucursales, db.franquicias.rows.Keys, r.db.franquicias.rows.Keys);
    }
  }

  lemma AgregarSucursalKeepsValid(db: Db, franquiciaId: Id, nombre: Option<string>, now: Time)
    requires Valid(db)
    ensures Valid(AgregarSucursal(db, franquiciaId, nombre, now).db)
  {
    if !NameMissing(nombre) && franquiciaId in db.franquicias.rows {
      TrimIsClean(nombre.value);
      var r := AgregarSucursal(db, franquiciaId, nombre, now);
      var k := db.sucursales.nextId;
      PutSucursalKeepsValid(db.sucursales, r.db.sucursales, db.franquicias.rows.Keys, k, r.outcome.value);
      ProductosValidGrow(db.productos, db.sucursales.rows.Keys, r.db.sucursales.rows.Keys);
    }
  }

  lemma AgregarProductoKeepsValid(db: Db, sucursalId: Id, nombre: Option<string>, stock: Option<int>, now: Time)
    requires Valid(db)
    ensures Valid(AgregarProducto(db, sucursalId, nombre, stock, now).db)
  {
    if !NameMissing(nombre) && !StockMissing(stock) && sucursalId in db.sucursales.rows {
      TrimIsClean(nombre.value);
      var r := AgregarProducto(db, sucursalId, nombre, stock, now);
      var k := db.productos.nextId;
      PutProductoKeepsValid(db.productos, r.db.productos, db.sucursales.rows.Keys, k, r.outcome.value);
    }
  }

  lemma ActualizarNombreFranquiciaKeepsValid(db: Db, franquiciaId: Option<Id>, nuevoNombre: Option<string>, now: Time)
    requires Valid(db)
    ensures Valid(ActualizarNombreFranquicia(db, franquiciaId, nuevoNombre, now).db)
  {
    if franquiciaId.Some? && !NameMissing(nuevoNombre) && franquiciaId.value in db.franquicias.rows {
      TrimIsClean(nuevoNombre.value);
      var r := ActualizarNombreFranquicia(db, franquiciaId, nuevoNombre, now);
      var k := franquiciaId.value;
      PutFranquiciaKeepsValid(db.franquicias, r.db.franquicias, k, r.outcome.value);
      assert r.db.franquicias.rows.Keys == db.franquicias.rows.Keys;
    }
  }

  lemma ActualizarNombreSucursalKeepsValid(db: Db, sucursalId: Option<Id>, nuevoNombre: Option<string>, now: Time)
    requires Valid(db)
    ensures Valid(ActualizarNombreSucursal(db, sucursalId, nuevoNombre, now).db)
  {
    if sucursalId.Some? && !NameMissing(nuevoNombre) && sucursalId.value in db.sucursales.rows {
      TrimIsClean(nuevoNombre.value);
      var r := ActualizarNombreSucursal(db, sucursalId, nuevoNombre, now);
      var k := sucursalId.value;
      PutSucursalKeepsValid(db.sucursales, r.db.sucursales, db.franquicias.rows.Keys, k, r.outcome.value);
      assert r.db.sucursales.rows.Keys == db.sucursales.rows.Keys;
    }
  }

  lemma ActualizarNombreProductoKeepsValid(db: Db, productoId: Option<Id>, nuevoNombre: Option<string>, now: Time)
    requires Valid(db)
    ensures Valid(ActualizarNombreProducto(db, productoId, nuevoNombre, now).db)
  {
    if productoId.Some? && !NameMissing(nuevoNombre) && productoId.value in db.productos.rows {
      TrimIsClean(nuevoNombre.value);
      var r := ActualizarNombreProducto(db, productoId, nuevoNombre, now);
      var k := productoId.value;
      PutProductoKeepsValid(db.productos, r.db.productos, db.sucursales.rows.Keys, k, r.outcome.value);
    }
  }

  lemma ModificarStockProductoKeepsValid(db: Db, productoId: Option<Id>, nuevoStock: Option<int>, now: Time)
    requires Valid(db)
    ensures Valid(ModificarStockProducto(db, productoId, nuevoStock, now).db)
  {
    if productoId.Some? && !StockMissing(nuevoStock) && productoId.value in db.productos.rows {
      var r := ModificarStockProducto(db, productoId, nuevoStock, now);
      var k := productoId.value;
      PutProductoKeepsValid(db.productos, r.db.productos, db.sucursales.rows.Keys, k, r.outcome.value);
    }
  }

  lemma EliminarProductoKeepsValid(db: Db, productoId: Option<Id>)
    requires Valid(db)
    ensures Valid(EliminarProducto(db, productoId).db)
  {
  }

  // ------------------------------------------------------------ every reachable database is valid

  /** One call of a use case, with its arguments. */
  datatype Command =
    | CrearFranquiciaCmd(nombre: Option<string>)
    | AgregarSucursalCmd(parentId: Id, nombre: Option<string>)
    | AgregarProductoCmd(parentId: Id, nombre: Option<string>, stock: Option<int>)
    | ActualizarNombreFranquiciaCmd(id: Option<Id>, nombre: Option<string>)
    | ActualizarNombreSucursalCmd(id: Option<Id>, nombre: Option<string>)
    | ActualizarNombreProductoCmd(id: Option<Id>, nombre: Option<string>)
    | ModificarStockProductoCmd(id: Option<Id>, stock: Option<int>)
    | EliminarProductoCmd(id: Option<Id>)
    | ObtenerProductosMaximoStockCmd(id: Option<Id>)

  /** Whether a use case call failed, and the database after it. */
  datatype Step = Step(failed: bool, db: Db)

  /** Runs one command at clock reading `now`; a failed call and the report leave the database as it was. */
  function Apply(db: Db, c: Command, now: Time): (s: Step)
    ensures s.failed ==> s.db == db
    ensures c.ObtenerProductosMaximoStockCmd? ==> s.db == db
  {
    match c
    case CrearFranquiciaCmd(n) =>
      var r := CrearFranquicia(db, n, now); Step(r.outcome.Failed?, r.db)
    case AgregarSucursalCmd(f, n) =>
      var r := AgregarSucursal(db, f, n, now); Step(r.outcome.Failed?, r.db)
    case AgregarProductoCmd(b, n, st) =>
      var r := AgregarProducto(db, b, n, st, now); Step(r.outcome.Failed?, r.db)
    case ActualizarNombreFranquiciaCmd(id, n) =>
      var r := ActualizarNombreFranquicia(db, id, n, now); Step(r.outcome.Failed?, r.db)
    case ActualizarNombreSucursalCmd(id, n) =>
      var r := ActualizarNombreSucursal(db, id, n, now); Step(r.outcome.Failed?, r.db)
    case ActualizarNombreProductoCmd(id, n) =>
      var r := ActualizarNombreProducto(db, id, n, now); Step(r.outcome.Failed?, r.db)
    case ModificarStockProductoCmd(id, st) =>
      var r := ModificarStockProducto(db, id, st, now); Step(r.outcome.Failed?, r.db)
    case EliminarProductoCmd(id) =>
      var r := EliminarProducto(db, id); Step(r.outcome.Failed?, r.db)
    case ObtenerProductosMaximoStockCmd(id) =>
      Step(ObtenerProductosMaximoStock(db, id).Failed?, db)
  }

  /** Runs the commands one after the other, each with its clock reading. */
  function Run(db: Db, cmds: seq<(Command, Time)>): Db
    decreases |cmds|
  {
    if cmds == [] then db else Run(Apply(db, cmds[0].0, cmds[0].1).db, cmds[1..])
  }

  lemma ApplyKeepsValid(db: Db, c: Command, now: Time)
    requires Valid(db)
    ensures Valid(Apply(db, c, now).db)
  {
    match c
    case CrearFranquiciaCmd(n) => CrearFranquiciaKeepsValid(db, n, now);
    case AgregarSucursalCmd(f, n) => AgregarSucursalKeepsValid(db, f, n, now);
    case AgregarProductoCmd(b, n, st) => AgregarProductoKeepsValid(db, b, n, st, now);
    case ActualizarNombreFranquiciaCmd(id, n) => ActualizarNombreFranquiciaKeepsValid(db, id, n, now);
    case ActualizarNombreSucursalCmd(id, n) => ActualizarNombreSucursalKeepsValid(db, id, n, now);
    case ActualizarNombreProductoCmd(id, n) => ActualizarNombreProductoKeepsValid(db, id, n, now);
    case ModificarStockProductoCmd(id, st) => ModificarStockProductoKeepsValid(db, id, st, now);
    case EliminarProductoCmd(id) => EliminarProductoKeepsValid(db, id);
    case ObtenerProductosMaximoStockCmd(id) =>
  }

  lemma {:induction false} RunKeepsValid(db: Db, cmds: seq<(Command, Time)>)
    requires Valid(db)
    ensures Valid(Run(db, cmds))
    decreases |cmds|
  {
    if cmds != [] {
      ApplyKeepsValid(db, cmds[0].0, cmds[0].1);
      RunKeepsValid(Apply(db, cmds[0].0, cmds[0].1).db, cmds[1..]);
    }
  }

  /**
    Starting from empty tables, whatever the use cases are asked, every name
    stored is trimmed and non-blank, every stock is at least 0 and every
    branch and product has a stored parent.
   */
  lemma ReachableIsValid(cmds: seq<(Command, Time)>)
    ensures Valid(Run(EmptyDb(), cmds))
  {
    RunKeepsValid(EmptyDb(), cmds);
  }

  // ------------------------------------------------------------ consequences

  /** A created franchise is found under the id it was given. */
  lemma CreatedFranquiciaIsFound(db: Db, nombre: string, now: Time)
    requires !IsBlank(nombre)
    ensures var r := CrearFranquicia(db, Some(nombre), now);
      r.outcome.Ok? && r.outcome.value.id.Some? && FindById(r.db.franquicias, r.outcome.value.id.value) == Some(r.outcome.value)
  {
  }

  /** An added branch is listed among the branches of its franchise. */
  lemma AddedSucursalIsListed(db: Db, franquiciaId: Id, nombre: string, now: Time)
    requires !IsBlank(nombre) && franquiciaId in db.franquicias.rows
    ensures var r := AgregarSucursal(db, franquiciaId, Some(nombre), now);
      r.outcome.Ok? && r.outcome.value in FindSucursalesByFranquicia(r.db.sucursales, franquiciaId)
  {
    var r := AgregarSucursal(db, franquiciaId, Some(nombre), now);
    assert r.db.sucursales.rows[db.sucursales.nextId] == r.outcome.value;
  }

  /** An added product is listed among the products of its branch. */
  lemma AddedProductoIsListed(db: Db, sucursalId: Id, nombre: string, stock: int, now: Time)
    requires !IsBlank(nombre) && stock >= 0 && sucursalId in db.sucursales.rows
    ensures var r := AgregarProducto(db, sucursalId, Some(nombre), Some(stock), now);
      r.outcome.Ok? && r.outcome.value in FindProductosBySucursal(r.db.productos, sucursalId)
  {
    var r := AgregarProducto(db, sucursalId, Some(nombre), Some(stock), now);
    assert r.db.productos.rows[db.productos.nextId] == r.outcome.value;
  }

  /**
    Renaming a franchise twice with the same name leaves the name of the
    first rename; only `updatedAt` moves, and at the same clock reading the
    second call changes nothing.
   */
  lemma RenameFranquiciaTwice(db: Db, k: Id, nombre: string, t1: Time, t2: Time)
    requires FranquiciasWf(db.franquicias) && k in db.franquicias.rows && !IsBlank(nombre)
    ensures var r1 := ActualizarNombreFranquicia(db, Some(k), Some(nombre), t1);
      var r2 := ActualizarNombreFranquicia(r1.db, Some(k), Some(nombre), t2);
      && r1.outcome.Ok? && r2.outcome.Ok?
      && r2.outcome.value.nombre == r1.outcome.value.nombre == Trim(nombre)
      && r2.outcome.value == r1.outcome.value.(updatedAt := Some(t2))
      && (t1 == t2 ==> r2 == r1)
  {
    var r1 := ActualizarNombreFranquicia(db, Some(k), Some(nombre), t1);
    assert r1.db.franquicias.rows[k].id == Some(k);
  }

  /** Deleting a product twice: the first call completes empty, the second fails and changes nothing. */
  lemma DeleteTwiceFails(db: Db, k: Id)
    requires k in db.productos.rows
    ensures var r1 := EliminarProducto(db, Some(k));
      && r1.outcome == Empty
      && EliminarProducto(r1.db, Some(k)) == Fail(r1.db, NotFound)
  {
  }

  /** A franchise none of whose branches holds a product gets an empty report. */
  lemma ReportWithoutProducts(db: Db, fid: Id)
    requires fid in db.franquicias.rows
    requires forall b :: b in db.sucursales.rows && db.sucursales.rows[b].franquiciaId == fid ==>
      ProductoKeys(db.productos, b) == {}
    ensures ObtenerProductosMaximoStock(db, Some(fid)) == Ok([])
  {
    NoProductsNoRows(db, fid);
  }

  /** In a valid database a newly created franchise has no branches, so its report is empty. */
  lemma NewFranquiciaReportIsEmpty(db: Db, nombre: string, now: Time)
    requires Valid(db) && !IsBlank(nombre)
    ensures var r := CrearFranquicia(db, Some(nombre), now);
      ObtenerProductosMaximoStock(r.db, r.outcome.value.id) == Ok([])
  {
    var r := CrearFranquicia(db, Some(nombre), now);
    var fid := db.franquicias.nextId;
    assert forall b :: b in r.db.sucursales.rows ==> r.db.sucursales.rows[b].franquiciaId in db.franquicias.rows;
    ReportWithoutProducts(r.db, fid);
  }
}
