/**
  The report query `findProductosMaximoStockByFranquiciaId`: for every branch
  of a franchise, the products whose stock equals the largest stock in that
  branch. The SQL joins `producto` with `sucursal` and with a per-branch
  `MAX(stock)` sub-query, keeps the rows of the franchise and orders them by
  `s.id, p.stock DESC`.

  `ProductosMaximoStock` computes one admissible answer (tied products in
  ascending product id, an order the SQL leaves open). `IsReport` is the
  order-independent description of every answer the query may produce;
  the lemmas show the model's answer is one, and that all of them are
  permutations of each other.
 */
module MaxStock {
  import opened Common
  import opened Store

  /** One result row (`ProductoMaximoStock`). */
  datatype ProductoMaximoStock = ProductoMaximoStock(
    productoId: Id,
    productoNombre: string,
    stock: int,
    sucursalId: Id,
    sucursalNombre: string)

  /** The joined row for product `p` and its branch `b`. */
  function RowOf(db: Db, p: Id, b: Id): ProductoMaximoStock
    requires p in db.productos.rows && b in db.sucursales.rows
  {
    ProductoMaximoStock(p, db.productos.rows[p].nombre, db.productos.rows[p].stock,
                        b, db.sucursales.rows[b].nombre)
  }

  // ------------------------------------------------------------ specification

  /** Product `p` has a stock no other product of its branch exceeds. */
  predicate IsBranchMaximum(db: Db, p: Id) {
    && p in db.productos.rows
    && forall q :: q in db.productos.rows && db.productos.rows[q].sucursalId == db.productos.rows[p].sucursalId
                   ==> db.productos.rows[q].stock <= db.productos.rows[p].stock
  }

  /** Product `p` is stored and belongs to a stored branch of franchise `fid` (both joins succeed). */
  predicate InFranchise(db: Db, p: Id, fid: Id) {
    && p in db.productos.rows
    && db.productos.rows[p].sucursalId in db.sucursales.rows
    && db.sucursales.rows[db.productos.rows[p].sucursalId].franquiciaId == fid
  }

  /** `r` is the joined row of a stored product, its stored branch, and the product is a branch maximum. */
  predicate JoinedMaximum(db: Db, r: ProductoMaximoStock) {
    && r.productoId in db.productos.rows
    && r.sucursalId in db.sucursales.rows
    && db.productos.rows[r.productoId].sucursalId == r.sucursalId
    && IsBranchMaximum(db, r.productoId)
    && r == RowOf(db, r.productoId, r.sucursalId)
  }

  /** Every row is the joined row of a branch-maximum product of a branch of franchise `fid`. */
  predicate Sound(db: Db, fid: Id, rows: seq<ProductoMaximoStock>) {
    forall i :: 0 <= i < |rows| ==>
      JoinedMaximum(db, rows[i]) && db.sucursales.rows[rows[i].sucursalId].franquiciaId == fid
  }

  /** Some row is about product `p`. */
  predicate HasRowFor(rows: seq<ProductoMaximoStock>, p: Id) {
    exists i :: 0 <= i < |rows| && rows[i].productoId == p
  }

  /** Every branch-maximum product of the franchise has a row (ties are not broken). */
  ghost predicate Complete(db: Db, fid: Id, rows: seq<ProductoMaximoStock>) {
    forall p :: InFranchise(db, p, fid) && IsBranchMaximum(db, p) ==> HasRowFor(rows, p)
  }

  /** No product has two rows. */
  predicate NoRepeats(rows: seq<ProductoMaximoStock>) {
    forall i, j :: 0 <= i < j < |rows| ==> rows[i].productoId != rows[j].productoId
  }

  /** `ORDER BY s.id`: branch ids never decrease. */
  predicate ByBranch(rows: seq<ProductoMaximoStock>) {
    forall i, j :: 0 <= i < j < |rows| ==> rows[i].sucursalId <= rows[j].sucursalId
  }

  /** Every answer the SQL query may return for franchise `fid`. */
  ghost predicate IsReport(db: Db, fid: Id, rows: seq<ProductoMaximoStock>) {
    Sound(db, fid, rows) && Complete(db, fid, rows) && NoRepeats(rows) && ByBranch(rows)
  }

  // ------------------------------------------------------------ the query

  /** The largest stock among the products `ids`, attained by one of them. */
  function MaxStockAmong(products: map<Id, Producto>, ids: seq<Id>): (m: int)
    requires |ids| > 0
    requires forall i :: 0 <= i < |ids| ==> ids[i] in products
    ensures exists i :: 0 <= i < |ids| && products[ids[i]].stock == m
    ensures forall i :: 0 <= i < |ids| ==> products[ids[i]].stock <= m
  {
    if |ids| == 1 then products[ids[0]].stock
    else
      var m := MaxStockAmong(products, ids[1..]);
      assert forall i :: 1 <= i < |ids| ==> ids[1..][i - 1] == ids[i];
      if products[ids[0]].stock >= m then products[ids[0]].stock else m
  }

  /** The joined rows, in the order of `ids`, of those products `ids` of branch `b` whose stock is `m`. */
  function RowsWithStock(db: Db, b: Id, ids: seq<Id>, m: int): seq<ProductoMaximoStock>
    requires b in db.sucursales.rows
    requires forall i :: 0 <= i < |ids| ==> ids[i] in db.productos.rows
  {
    if ids == [] then []
    else
      var head := if db.productos.rows[ids[0]].stock == m then [RowOf(db, ids[0], b)] else [];
      head + RowsWithStock(db, b, ids[1..], m)
  }

  /** Keys of the stored products of branch `b`. */
  function ProductsOf(db: Db, b: Id): set<Id> {
    ProductoKeys(db.productos, b)
  }

  /** The rows branch `b` contributes: its products at the branch's maximum stock. */
  function BranchRows(db: Db, b: Id): seq<ProductoMaximoStock>
    requires b in db.sucursales.rows
  {
    var ids := SortedElements(ProductsOf(db, b));
    if ids == [] then [] else RowsWithStock(db, b, ids, MaxStockAmong(db.productos.rows, ids))
  }

  /** The rows of the branches `bs`, branch after branch. */
  function RowsForBranches(db: Db, bs: seq<Id>): seq<ProductoMaximoStock>
    requires forall i :: 0 <= i < |bs| ==> bs[i] in db.sucursales.rows
  {
    if bs == [] then [] else BranchRows(db, bs[0]) + RowsForBranches(db, bs[1..])
  }

  /** Keys of the stored branches of franchise `fid`. */
  function BranchesOf(db: Db, fid: Id): set<Id> {
    SucursalKeys(db.sucursales, fid)
  }

  /**
    `findProductosMaximoStockByFranquiciaId(fid)`: its rows pass both joins
    and the `WHERE s.franquicia_id` filter. That each row is a branch
    maximum, that no maximum is missed and the order are the lemmas below.
   */
  function ProductosMaximoStock(db: Db, fid: Id): (r: seq<ProductoMaximoStock>)
    ensures forall i :: 0 <= i < |r| ==>
      && r[i].sucursalId in BranchesOf(db, fid)
      && r[i].productoId in ProductsOf(db, r[i].sucursalId)
  {
    var bs := SortedElements(BranchesOf(db, fid));
    RowsForBranchesSound(db, bs);
    RowsForBranches(db, bs)
  }

  // ------------------------------------------------------------ proofs

  /** Every row `RowsWithStock` emits is the joined row of a product of `ids` at stock `m`. */
  lemma {:induction false} RowsWithStockSound(db: Db, b: Id, ids: seq<Id>, m: int)
    requires b in db.sucursales.rows
    requires forall i :: 0 <= i < |ids| ==> ids[i] in db.productos.rows
    ensures forall i :: 0 <= i < |RowsWithStock(db, b, ids, m)| ==>
      && RowsWithStock(db, b, ids, m)[i].productoId in ids
      && RowsWithStock(db, b, ids, m)[i].stock == m
      && RowsWithStock(db, b, ids, m)[i] == RowOf(db, RowsWithStock(db, b, ids, m)[i].productoId, b)
  {
    if ids != [] {
      var rows := RowsWithStock(db, b, ids, m);
      var head := if db.productos.rows[ids[0]].stock == m then [RowOf(db, ids[0], b)] else [];
      var tail := RowsWithStock(db, b, ids[1..], m);
      assert rows == head + tail;
      RowsWithStockSound(db, b, ids[1..], m);
      forall i | |head| <= i < |rows|
        ensures rows[i].productoId in ids
        ensures rows[i].stock == m
        ensures rows[i] == RowOf(db, rows[i].productoId, b)
      {
        assert rows[i] == tail[i - |head|];
        var k :| 0 <= k < |ids[1..]| && ids[1..][k] == tail[i - |head|].productoId;
        assert ids[k + 1] == rows[i].productoId;
      }
    }
  }

  /** Every product of `ids` at stock `m` has a row in `RowsWithStock`. */
  lemma {:induction false} RowsWithStockComplete(db: Db, b: Id, ids: seq<Id>, m: int)
    requires b in db.sucursales.rows
    requires forall i :: 0 <= i < |ids| ==> ids[i] in db.productos.rows
    ensures forall i :: 0 <= i < |ids| && db.productos.rows[ids[i]].stock == m ==>
      HasRowFor(RowsWithStock(db, b, ids, m), ids[i])
  {
    if ids != [] {
      var rows := RowsWithStock(db, b, ids, m);
      var head := if db.productos.rows[ids[0]].stock == m then [RowOf(db, ids[0], b)] else [];
      var tail := RowsWithStock(db, b, ids[1..], m);
      assert rows == head + tail;
      RowsWithStockComplete(db, b, ids[1..], m);
      forall i | 0 <= i < |ids| && db.productos.rows[ids[i]].stock == m
        ensures HasRowFor(rows, ids[i])
      {
        if i == 0 {
          assert rows[0].productoId == ids[0];
        } else {
          assert ids[1..][i - 1] == ids[i];
          assert HasRowFor(tail, ids[i]);
          var j :| 0 <= j < |tail| && tail[j].productoId == ids[i];
          assert rows[|head| + j] == tail[j];
        }
      }
    }
  }

  /** Over ascending `ids`, the rows of `RowsWithStock` have ascending product ids. */
  lemma {:induction false} RowsWithStockAscending(db: Db, b: Id, ids: seq<Id>, m: int)
    requires b in db.sucursales.rows
    requires forall i :: 0 <= i < |ids| ==> ids[i] in db.productos.rows
    requires Ascending(ids)
    ensures forall i, j :: 0 <= i < j < |RowsWithStock(db, b, ids, m)| ==>
      RowsWithStock(db, b, ids, m)[i].productoId < RowsWithStock(db, b, ids, m)[j].productoId
  {
    if ids != [] {
      var rows := RowsWithStock(db, b, ids, m);
      var head := if db.productos.rows[ids[0]].stock == m then [RowOf(db, ids[0], b)] else [];
      var tail := RowsWithStock(db, b, ids[1..], m);
      assert rows == head + tail;
      assert Ascending(ids[1..]);
      RowsWithStockAscending(db, b, ids[1..], m);
      RowsWithStockSound(db, b, ids[1..], m);
      forall j | 0 <= j < |tail| ensures ids[0] < tail[j].productoId {
        var k :| 0 <= k < |ids[1..]| && ids[1..][k] == tail[j].productoId;
        assert ids[1..][k] == ids[k + 1];
      }
    }
  }

  /** The rows of branch `b` are joined rows of branch-maximum products of `b`. */
  lemma BranchRowsSound(db: Db, b: Id)
    requires b in db.sucursales.rows
    ensures forall i :: 0 <= i < |BranchRows(db, b)| ==>
      BranchRows(db, b)[i].sucursalId == b && JoinedMaximum(db, BranchRows(db, b)[i])
  {
    var ids := SortedElements(ProductsOf(db, b));
    if ids != [] {
      var m := MaxStockAmong(db.productos.rows, ids);
      var rows := RowsWithStock(db, b, ids, m);
      RowsWithStockSound(db, b, ids, m);
      forall i | 0 <= i < |rows|
        ensures rows[i].sucursalId == b && JoinedMaximum(db, rows[i])
      {
        var p := rows[i].productoId;
        assert p in ProductsOf(db, b);
        forall q | q in db.productos.rows && db.productos.rows[q].sucursalId == db.productos.rows[p].sucursalId
          ensures db.productos.rows[q].stock <= db.productos.rows[p].stock
        {
          assert q in ProductsOf(db, b);
          var k :| 0 <= k < |ids| && ids[k] == q;
        }
      }
    }
  }

  /** Every branch-maximum product of branch `b` has a row among the rows of `b`. */
  lemma BranchRowsComplete(db: Db, b: Id)
    requires b in db.sucursales.rows
    ensures forall p :: p in db.productos.rows && db.productos.rows[p].sucursalId == b && IsBranchMaximum(db, p) ==>
      HasRowFor(BranchRows(db, b), p)
  {
    var ids := SortedElements(ProductsOf(db, b));
    if ids != [] {
      var m := MaxStockAmong(db.productos.rows, ids);
      assert BranchRows(db, b) == RowsWithStock(db, b, ids, m);
      RowsWithStockComplete(db, b, ids, m);
      forall p | p in db.productos.rows && db.productos.rows[p].sucursalId == b && IsBranchMaximum(db, p)
        ensures HasRowFor(BranchRows(db, b), p)
      {
        assert p in ProductsOf(db, b);
        var k :| 0 <= k < |ids| && ids[k] == p;
        var w :| 0 <= w < |ids| && db.productos.rows[ids[w]].stock == m;
        var q := ids[w];
        assert q in ProductsOf(db, b);
        assert db.productos.rows[q].sucursalId == db.productos.rows[p].sucursalId;
        assert db.productos.rows[q].stock <= db.productos.rows[p].stock;
        assert db.productos.rows[ids[k]].stock <= m;
      }
    } else {
      assert forall p :: p in db.productos.rows && db.productos.rows[p].sucursalId == b ==> p in ProductsOf(db, b);
    }
  }

  /** The rows of branch `b` have strictly ascending product ids. */
  lemma BranchRowsAscending(db: Db, b: Id)
    requires b in db.sucursales.rows
    ensures forall i, j :: 0 <= i < j < |BranchRows(db, b)| ==>
      BranchRows(db, b)[i].productoId < BranchRows(db, b)[j].productoId
  {
    var ids := SortedElements(ProductsOf(db, b));
    if ids != [] {
      RowsWithStockAscending(db, b, ids, MaxStockAmong(db.productos.rows, ids));
    }
  }

  /** Every row for the branches `bs` is the joined row of a branch-maximum product of one of them. */
  lemma {:induction false} RowsForBranchesSound(db: Db, bs: seq<Id>)
    requires forall i :: 0 <= i < |bs| ==> bs[i] in db.sucursales.rows
    ensures forall i :: 0 <= i < |RowsForBranches(db, bs)| ==>
      RowsForBranches(db, bs)[i].sucursalId in bs && JoinedMaximum(db, RowsForBranches(db, bs)[i])
  {
    if bs != [] {
      var head := BranchRows(db, bs[0]);
      var tail := RowsForBranches(db, bs[1..]);
      var rows := RowsForBranches(db, bs);
      assert rows == head + tail;
      BranchRowsSound(db, bs[0]);
      RowsForBranchesSound(db, bs[1..]);
      forall i | 0 <= i < |rows| ensures rows[i].sucursalId in bs && JoinedMaximum(db, rows[i]) {
        if i < |head| {
          assert rows[i] == head[i];
        } else {
          assert rows[i] == tail[i - |head|];
          var k :| 0 <= k < |bs[1..]| && bs[1..][k] == tail[i - |head|].sucursalId;
          assert bs[k + 1] == rows[i].sucursalId;
        }
      }
    }
  }

  /** Every branch-maximum product of one of the branches `bs` has a row. */
  lemma {:induction false} RowsForBranchesComplete(db: Db, bs: seq<Id>)
    requires forall i :: 0 <= i < |bs| ==> bs[i] in db.sucursales.rows
    ensures forall p :: p in db.productos.rows && db.productos.rows[p].sucursalId in bs && IsBranchMaximum(db, p) ==>
      HasRowFor(RowsForBranches(db, bs), p)
  {
    if bs != [] {
      var head := BranchRows(db, bs[0]);
      var tail := RowsForBranches(db, bs[1..]);
      var rows := RowsForBranches(db, bs);
      assert rows == head + tail;
      BranchRowsComplete(db, bs[0]);
      RowsForBranchesComplete(db, bs[1..]);
      forall p | p in db.productos.rows && db.productos.rows[p].sucursalId in bs && IsBranchMaximum(db, p)
        ensures HasRowFor(rows, p)
      {
        if db.productos.rows[p].sucursalId != bs[0] {
          var k :| 0 <= k < |bs| && bs[k] == db.productos.rows[p].sucursalId;
          assert bs[1..][k - 1] == bs[k];
        }
        HasRowForAppend(head, tail, p);
      }
    }
  }

  /** A row for `p` in either part is a row for `p` in the concatenation. */
  lemma HasRowForAppend(head: seq<ProductoMaximoStock>, tail: seq<ProductoMaximoStock>, p: Id)
    ensures HasRowFor(head, p) || HasRowFor(tail, p) ==> HasRowFor(head + tail, p)
  {
    if HasRowFor(tail, p) {
      var i :| 0 <= i < |tail| && tail[i].productoId == p;
      assert (head + tail)[|head| + i] == tail[i];
    } else if HasRowFor(head, p) {
      var i :| 0 <= i < |head| && head[i].productoId == p;
      assert (head + tail)[i] == head[i];
    }
  }

  /** Rows sorted by branch id, then by product id, with no row twice. */
  predicate StrictlyByBranchThenProduct(rows: seq<ProductoMaximoStock>) {
    forall i, j :: 0 <= i < j < |rows| ==>
      || rows[i].sucursalId < rows[j].sucursalId
      || (rows[i].sucursalId == rows[j].sucursalId && rows[i].productoId < rows[j].productoId)
  }

  /** Over ascending branch ids the rows come branch by branch, each branch by ascending product id. */
  lemma {:induction false} RowsForBranchesOrdered(db: Db, bs: seq<Id>)
    requires forall i :: 0 <= i < |bs| ==> bs[i] in db.sucursales.rows
    requires Ascending(bs)
    ensures StrictlyByBranchThenProduct(RowsForBranches(db, bs))
  {
    if bs != [] {
      var head := BranchRows(db, bs[0]);
      var tail := RowsForBranches(db, bs[1..]);
      var rows := RowsForBranches(db, bs);
      assert rows == head + tail;
      assert Ascending(bs[1..]);
      BranchRowsSound(db, bs[0]);
      BranchRowsAscending(db, bs[0]);
      RowsForBranchesSound(db, bs[1..]);
      RowsForBranchesOrdered(db, bs[1..]);
      forall j | 0 <= j < |tail| ensures bs[0] < tail[j].sucursalId {
        var k :| 0 <= k < |bs[1..]| && bs[1..][k] == tail[j].sucursalId;
        assert bs[1..][k] == bs[k + 1];
      }
      forall i, j | 0 <= i < j < |rows|
        ensures || rows[i].sucursalId < rows[j].sucursalId
                || (rows[i].sucursalId == rows[j].sucursalId && rows[i].productoId < rows[j].productoId)
      {
        if j < |head| {
          assert rows[i] == head[i] && rows[j] == head[j];
        } else if i < |head| {
          assert rows[i] == head[i] && rows[j] == tail[j - |head|];
        } else {
          assert rows[i] == tail[i - |head|] && rows[j] == tail[j - |head|];
        }
      }
    }
  }

  // ------------------------------------------------------------ the query meets its specification

  /** Soundness: every row is a maximum of a branch of franchise `fid`, with names copied from the join. */
  lemma ProductosMaximoStockSound(db: Db, fid: Id)
    ensures Sound(db, fid, ProductosMaximoStock(db, fid))
  {
    var bs := SortedElements(BranchesOf(db, fid));
    RowsForBranchesSound(db, bs);
  }

  /** Completeness: every product at its branch's maximum, in a branch of `fid`, has a row. */
  lemma ProductosMaximoStockComplete(db: Db, fid: Id)
    ensures Complete(db, fid, ProductosMaximoStock(db, fid))
  {
    var bs := SortedElements(BranchesOf(db, fid));
    RowsForBranchesComplete(db, bs);
    forall p | InFranchise(db, p, fid) && IsBranchMaximum(db, p)
      ensures HasRowFor(ProductosMaximoStock(db, fid), p)
    {
      assert db.productos.rows[p].sucursalId in BranchesOf(db, fid);
    }
  }

  /** Rows come by ascending branch id and, inside a branch, by ascending product id. */
  lemma ProductosMaximoStockOrdered(db: Db, fid: Id)
    ensures StrictlyByBranchThenProduct(ProductosMaximoStock(db, fid))
  {
    RowsForBranchesOrdered(db, SortedElements(BranchesOf(db, fid)));
  }

  /** The query's answer is one of the answers the SQL statement admits. */
  lemma ProductosMaximoStockIsReport(db: Db, fid: Id)
    ensures IsReport(db, fid, ProductosMaximoStock(db, fid))
  {
    var rows := ProductosMaximoStock(db, fid);
    ProductosMaximoStockSound(db, fid);
    ProductosMaximoStockComplete(db, fid);
    ProductosMaximoStockOrdered(db, fid);
    forall i, j | 0 <= i < j < |rows| ensures rows[i].productoId != rows[j].productoId {
      assert JoinedMaximum(db, rows[i]) && JoinedMaximum(db, rows[j]);
    }
  }

  /**
    `ORDER BY s.id, p.stock DESC` holds of the answer: inside one branch all
    rows share the branch maximum, so the descending-stock key never orders
    two rows and the order of tied products is left to the database.
   */
  lemma ProductosMaximoStockFollowsOrderBy(db: Db, fid: Id)
    ensures var rows := ProductosMaximoStock(db, fid);
      forall i, j :: 0 <= i < j < |rows| ==>
        || rows[i].sucursalId < rows[j].sucursalId
        || (rows[i].sucursalId == rows[j].sucursalId && rows[i].stock == rows[j].stock)
  {
    var rows := ProductosMaximoStock(db, fid);
    ProductosMaximoStockSound(db, fid);
    ProductosMaximoStockOrdered(db, fid);
    forall i, j | 0 <= i < j < |rows| && rows[i].sucursalId == rows[j].sucursalId
      ensures rows[i].stock == rows[j].stock
    {
      assert JoinedMaximum(db, rows[i]) && JoinedMaximum(db, rows[j]);
      var p, q := rows[i].productoId, rows[j].productoId;
      assert db.productos.rows[p].sucursalId == db.productos.rows[q].sucursalId;
      assert db.productos.rows[p].stock <= db.productos.rows[q].stock;
      assert db.productos.rows[q].stock <= db.productos.rows[p].stock;
    }
  }

  /** A branch with no products contributes no row to any answer (inner-join semantics). */
  lemma EmptyBranchHasNoRow(db: Db, fid: Id, b: Id, rows: seq<ProductoMaximoStock>)
    requires Sound(db, fid, rows)
    requires ProductsOf(db, b) == {}
    ensures forall i :: 0 <= i < |rows| ==> rows[i].sucursalId != b
  {
    forall i | 0 <= i < |rows| ensures rows[i].sucursalId != b {
      assert JoinedMaximum(db, rows[i]);
      assert rows[i].productoId in ProductsOf(db, rows[i].sucursalId);
    }
  }

  /** Branches without products contribute nothing, one after the other. */
  lemma {:induction false} RowsForEmptyBranches(db: Db, bs: seq<Id>)
    requires forall i :: 0 <= i < |bs| ==> bs[i] in db.sucursales.rows && ProductsOf(db, bs[i]) == {}
    ensures RowsForBranches(db, bs) == []
  {
    if bs != [] {
      assert SortedElements(ProductsOf(db, bs[0])) == [];
      RowsForEmptyBranches(db, bs[1..]);
    }
  }

  /** A franchise none of whose branches has a product gets an empty answer. */
  lemma NoProductsNoRows(db: Db, fid: Id)
    requires forall b :: b in BranchesOf(db, fid) ==> ProductsOf(db, b) == {}
    ensures ProductosMaximoStock(db, fid) == []
  {
    RowsForEmptyBranches(db, SortedElements(BranchesOf(db, fid)));
  }

  /** In a sequence without repeated product ids every row occurs at most once. */
  lemma {:induction false} NoRepeatsCountsOnce(rows: seq<ProductoMaximoStock>, x: ProductoMaximoStock)
    requires NoRepeats(rows)
    ensures multiset(rows)[x] == if x in rows then 1 else 0
  {
    if rows != [] {
      assert rows == [rows[0]] + rows[1..];
      assert NoRepeats(rows[1..]) by {
        forall i, j | 0 <= i < j < |rows[1..]| ensures rows[1..][i].productoId != rows[1..][j].productoId {
          assert rows[1..][i] == rows[i + 1] && rows[1..][j] == rows[j + 1];
        }
      }
      NoRepeatsCountsOnce(rows[1..], x);
      if x == rows[0] {
        assert x !in rows[1..] by {
          forall k | 0 <= k < |rows[1..]| ensures rows[1..][k] != x {
            assert rows[1..][k] == rows[k + 1];
          }
        }
      }
    }
  }

  /** A row of an answer is determined by its product id. */
  lemma SoundRowIsInEveryReport(db: Db, fid: Id, r1: seq<ProductoMaximoStock>, r2: seq<ProductoMaximoStock>, i: nat)
    requires Sound(db, fid, r1) && IsReport(db, fid, r2)
    requires i < |r1|
    ensures r1[i] in r2
  {
    var p := r1[i].productoId;
    assert JoinedMaximum(db, r1[i]);
    assert InFranchise(db, p, fid);
    assert HasRowFor(r2, p);
    var j :| 0 <= j < |r2| && r2[j].productoId == p;
    assert JoinedMaximum(db, r2[j]);
  }

  /**
    The SQL answer is unique up to order: any two answers the statement
    admits are permutations of each other, so the model's choice of order
    among tied products loses nothing.
   */
  lemma ReportsArePermutations(db: Db, fid: Id, r1: seq<ProductoMaximoStock>, r2: seq<ProductoMaximoStock>)
    requires IsReport(db, fid, r1) && IsReport(db, fid, r2)
    ensures multiset(r1) == multiset(r2)
  {
    forall x ensures multiset(r1)[x] == multiset(r2)[x] {
      NoRepeatsCountsOnce(r1, x);
      NoRepeatsCountsOnce(r2, x);
      if x in r1 {
        var i :| 0 <= i < |r1| && r1[i] == x;
        SoundRowIsInEveryReport(db, fid, r1, r2, i);
      }
      if x in r2 {
        var i :| 0 <= i < |r2| && r2[i] == x;
        SoundRowIsInEveryReport(db, fid, r2, r1, i);
      }
    }
  }
}
