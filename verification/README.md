# Franquicias: a verified model of the store, the use cases and the URL parser

The franchise service keeps three tables, each row linked to its parent:
- franchises (`franquicia`);
- their branches (`sucursal`);
- the products each branch stocks (`producto`).

Nine use cases sit on top of the tables. Each one validates its arguments. Each one that takes an id or a parent id then checks that the row it needs exists (creating a franchise checks no row). Each makes exactly one repository write (the report makes one query instead). One query reports, for every branch of a franchise, the products whose stock is the branch's maximum. At start-up the connection factory takes apart an `r2dbc:mysql://host[:port]/database[?options]` URL.

The Dafny project models these three pieces as pure functions over immutable data:

- `common.dfy` (`Common`):
  - `Option`, which stands for Java `null` and for an empty `Mono`;
  - the ascending enumeration of a finite set of ids, which is the order an `ORDER BY id` yields.
- `java_text.dfy` (`JavaText`): `String.trim()` and the blank test `trim().isEmpty()`, over `seq<char>`.
- `store.dfy` (`Store`): the three R2DBC repositories over tables.
  - A table is a map from id to row plus the next AUTO_INCREMENT value.
  - `save` without an id is an insert. `save` with an id is the hand-written `UPDATE`, followed by a re-read of the row.
  - `update` delegates to `save`. `deleteById` removes one product. The two `find…` queries list the children of a parent.
- `max_stock.dfy` (`MaxStock`): the maximum-stock SQL query as a function.
  - It is specified by soundness, completeness, no repeats and `ORDER BY s.id`.
  - A proof shows that any two answers the SQL admits are permutations of each other.
- `use_cases.dfy` (`UseCases`): the nine use cases.
  - Each maps a database and its arguments to an outcome and a new database. The outcome is a value, empty, or `IllegalArgumentException`.
  - `Valid` is the invariant the use cases keep:
    - names are trimmed and non-blank;
    - stock is at least 0;
    - every branch and product has a stored parent;
    - the repositories' key, counter and timestamp facts hold: each row's `id` is its key, the counter is above every key, and both timestamps are set.
  - A proof shows that every database reachable from empty tables is `Valid`.
- `connection_url.dfy` (`ConnectionUrl`): lines 28-35 of `R2dbcConfig.connectionFactory`.
  - It models Java's `replace`, the single-char fast path of `split` and `Integer.parseInt`.
  - `Parse` returns host, port and database, or the exception the lines throw.

The clock (`LocalDateTime.now()`) is the parameter `now`. Every failure the use cases raise themselves, a validation or not-found check, is the same exception type, `IllegalArgumentException`. `GlobalExceptionHandler` answers every `IllegalArgumentException` with HTTP 400, which is `UseCases.Status`, the constant `UseCases.BAD_REQUEST` for every error. The `Reason` field only records which check fired, as the message text does.

## Model

| member | source | states |
|---|---|---|
| Store.FindById | src/main/java/com/franquicias/infrastructure/persistence/r2dbc/repository/FranquiciaR2dbcRepository.java:52-55 | `findById` emits a row exactly when one is stored under the id, and then that row. The `save` contracts use it for the re-read, and `UseCases.CreatedFranquiciaIsFound` shows a created franchise is found under its new id. |
| Store.ExistsById | src/main/java/com/franquicias/infrastructure/persistence/r2dbc/repository/FranquiciaR2dbcRepository.java:58-60 | `existsById` is true exactly when `findById` would emit a row, so the use cases' existence checks and their lookups agree. |
| Store.SaveFranquicia | src/main/java/com/franquicias/infrastructure/persistence/r2dbc/repository/FranquiciaR2dbcRepository.java:30-49 | Without an id: the record is stored under the counter's current value with createdAt = updatedAt = now, and the counter moves past it. That key is fresh whenever the counter is above every key (`Store.FranquiciasWf`), which every reachable database satisfies. With a stored id: only nombre and updatedAt change, the result is the row as read back, and other rows and the counter are untouched. With an unknown id: nothing changes and the result is empty. |
| Store.UpdateFranquicia | src/main/java/com/franquicias/infrastructure/persistence/r2dbc/repository/FranquiciaR2dbcRepository.java:63-65 | `update` has exactly the insert / rewrite-and-re-read / empty contract of `save`. |
| Store.SaveSucursal | src/main/java/com/franquicias/infrastructure/persistence/r2dbc/repository/SucursalR2dbcRepository.java:33-52 | Inserts with createdAt = updatedAt = now under the counter's value, which moves past it. The update path rewrites only nombre and updatedAt, so the stored franquiciaId and createdAt survive whatever the caller passes. An unknown id yields no result and no change. |
| Store.UpdateSucursal | src/main/java/com/franquicias/infrastructure/persistence/r2dbc/repository/SucursalR2dbcRepository.java:72-74 | Same contract as `save`. |
| Store.FindSucursalesByFranquicia | src/main/java/com/franquicias/infrastructure/persistence/r2dbc/repository/SucursalR2dbcRepository.java:66-69 | Every listed branch is stored with that franquiciaId. Every such stored branch is listed, and the count equals the number of matching keys. |
| Store.SaveProducto | src/main/java/com/franquicias/infrastructure/persistence/r2dbc/repository/ProductoR2dbcRepository.java:33-53 | Inserts with createdAt = updatedAt = now under the counter's value, which moves past it. The update path rewrites only nombre, stock and updatedAt: sucursalId and createdAt stay, and the result is the re-read row. An unknown id yields no result and no change. |
| Store.UpdateProducto | src/main/java/com/franquicias/infrastructure/persistence/r2dbc/repository/ProductoR2dbcRepository.java:79-81 | Same contract as `save`. |
| Store.DeleteProducto | src/main/java/com/franquicias/infrastructure/persistence/r2dbc/repository/ProductoR2dbcRepository.java:73-76 | The id is gone, every other row keeps its key and value, and the counter is unchanged. |
| Store.FindProductosBySucursal | src/main/java/com/franquicias/infrastructure/persistence/r2dbc/repository/ProductoR2dbcRepository.java:67-70 | Lists exactly the stored products of that branch, each once. |
| JavaText.Trim | src/main/java/com/franquicias/application/usecase/CrearFranquiciaUseCase.java:16-20 | `trim()` returns the infix left after cutting chars ≤ U+0020 from both ends. Everything cut is ≤ U+0020, and the result neither starts nor ends with such a char. |
| JavaText.BlankIffAllTrimmable | src/main/java/com/franquicias/application/usecase/CrearFranquiciaUseCase.java:16 | `trim().isEmpty()` holds exactly when every char is ≤ U+0020, in both directions. |
| JavaText.TrimIdempotent | src/main/java/com/franquicias/application/usecase/CrearFranquiciaUseCase.java:20 | Trimming a trimmed name changes nothing. |
| JavaText.TrimIsClean | src/main/java/com/franquicias/application/usecase/CrearFranquiciaUseCase.java:16-20 | A name that passes the blank check is stored trimmed and non-blank. |
| JavaText.TrimByScan | src/main/java/com/franquicias/application/usecase/CrearFranquiciaUseCase.java:20 | The JDK's two-index scan computes the same string as the declarative `Trim`. |
| MaxStock.ProductosMaximoStock | src/main/java/com/franquicias/infrastructure/persistence/r2dbc/repository/ProductoR2dbcRepository.java:84-112 | Every row passes both joins and the franchise filter: its branch belongs to the franchise and its product to that branch. That the rows are exactly the branch maxima, in `ORDER BY` order, is stated by `MaxStock.ProductosMaximoStockSound`, `MaxStock.ProductosMaximoStockComplete`, `MaxStock.ProductosMaximoStockOrdered` and `MaxStock.ProductosMaximoStockIsReport`. |
| MaxStock.MaxStockAmong | src/main/java/com/franquicias/infrastructure/persistence/r2dbc/repository/ProductoR2dbcRepository.java:91-94 | `MAX(stock)` of a branch is attained by one of its products and bounds all of them. |
| MaxStock.ProductosMaximoStockSound | src/main/java/com/franquicias/infrastructure/persistence/r2dbc/repository/ProductoR2dbcRepository.java:86-110 | Every row names a stored product of a stored branch of the franchise whose stock no product of that branch exceeds. Both names are copied from the joined rows. |
| MaxStock.ProductosMaximoStockComplete | src/main/java/com/franquicias/infrastructure/persistence/r2dbc/repository/ProductoR2dbcRepository.java:89-95 | Every product of the franchise at its branch's maximum has a row, so ties are all reported. |
| MaxStock.ProductosMaximoStockOrdered | src/main/java/com/franquicias/infrastructure/persistence/r2dbc/repository/ProductoR2dbcRepository.java:97 | Rows ascend by branch id, then by product id, and no row repeats. |
| MaxStock.ProductosMaximoStockFollowsOrderBy | src/main/java/com/franquicias/infrastructure/persistence/r2dbc/repository/ProductoR2dbcRepository.java:97 | The answer satisfies `ORDER BY s.id, p.stock DESC`. Rows of one branch share one stock, so the second key never orders two rows. |
| MaxStock.ProductosMaximoStockIsReport | src/main/java/com/franquicias/infrastructure/persistence/r2dbc/repository/ProductoR2dbcRepository.java:84-112 | The model's answer is one the SQL admits: sound, complete, one row per product, and branch ids non-decreasing. |
| MaxStock.ReportsArePermutations | src/main/java/com/franquicias/infrastructure/persistence/r2dbc/repository/ProductoR2dbcRepository.java:84-112 | Any two answers the SQL admits hold the same rows (equal multisets); only the order of tied products can differ. |
| MaxStock.EmptyBranchHasNoRow | src/main/java/com/franquicias/infrastructure/persistence/r2dbc/repository/ProductoR2dbcRepository.java:89-95 | Because of the inner joins, a branch without products appears in no sound answer. |
| MaxStock.NoProductsNoRows | src/main/java/com/franquicias/infrastructure/persistence/r2dbc/repository/ProductoR2dbcRepository.java:89-96 | A franchise whose branches hold no product gets the empty answer. |
| UseCases.CrearFranquicia | src/main/java/com/franquicias/application/usecase/CrearFranquiciaUseCase.java:15-22 | A null or blank name fails and the database is unchanged. Otherwise one franchise is inserted under the next key with the trimmed name and both timestamps = now. It is the value returned, and the other tables are untouched. |
| UseCases.AgregarSucursal | src/main/java/com/franquicias/application/usecase/AgregarSucursalUseCase.java:19-32 | Checks the name first, then that the franchise exists; each failure leaves the database unchanged. On success it inserts one branch with the trimmed name and the given franquiciaId, and nothing else changes. |
| UseCases.AgregarProducto | src/main/java/com/franquicias/application/usecase/AgregarProductoUseCase.java:19-35 | Checks name, then stock (null or negative fails, 0 passes), then that the branch exists; the first failure is reported with no change. On success it inserts one product with the trimmed name, the stock and the branch. |
| UseCases.ActualizarNombreFranquicia | src/main/java/com/franquicias/application/usecase/ActualizarNombreFranquiciaUseCase.java:15-29 | Checks a null id, then a blank name, then a missing row; each fails with no change. On success nombre becomes the trimmed name, updatedAt = now, createdAt stays, and nothing else changes. |
| UseCases.ActualizarNombreSucursal | src/main/java/com/franquicias/application/usecase/ActualizarNombreSucursalUseCase.java:15-29 | Same check order. On success only nombre (trimmed) and updatedAt change; franquiciaId and createdAt stay. |
| UseCases.ActualizarNombreProducto | src/main/java/com/franquicias/application/usecase/ActualizarNombreProductoUseCase.java:15-29 | Same check order. On success nombre is the trimmed name and updatedAt = now, while the stored stock is written back unchanged and sucursalId stays. |
| UseCases.ModificarStockProducto | src/main/java/com/franquicias/application/usecase/ModificarStockProductoUseCase.java:15-29 | A null id, then a null or negative stock, then a missing row each fail with no change, the stock check before any lookup. On success stock is the new value and updatedAt = now; nombre, sucursalId and createdAt stay. |
| UseCases.EliminarProducto | src/main/java/com/franquicias/application/usecase/EliminarProductoUseCase.java:14-26 | A null id or a missing product fails with nothing deleted. Otherwise the call completes empty and exactly that product is gone. |
| UseCases.ObtenerProductosMaximoStock | src/main/java/com/franquicias/application/usecase/ObtenerProductosMaximoStockPorFranquiciaUseCase.java:19-31 | A null id or a missing franchise fails. Otherwise the result is the aggregation for that id, which is sound, complete, free of repeats and ordered by branch. |
| UseCases.CrearFranquiciaKeepsValid | src/main/java/com/franquicias/application/usecase/CrearFranquiciaUseCase.java:16-21 | Creating a franchise keeps every stored name clean and every parent link intact. |
| UseCases.AgregarSucursalKeepsValid | src/main/java/com/franquicias/application/usecase/AgregarSucursalUseCase.java:20-30 | A branch is only stored with a clean name under an existing franchise. |
| UseCases.AgregarProductoKeepsValid | src/main/java/com/franquicias/application/usecase/AgregarProductoUseCase.java:20-33 | A product is only stored with a clean name, stock ≥ 0 and an existing branch. |
| UseCases.ActualizarNombreFranquiciaKeepsValid | src/main/java/com/franquicias/application/usecase/ActualizarNombreFranquiciaUseCase.java:19-28 | A rename keeps the invariant: the new name is clean and keys and parents are unchanged. |
| UseCases.ActualizarNombreSucursalKeepsValid | src/main/java/com/franquicias/application/usecase/ActualizarNombreSucursalUseCase.java:19-28 | A branch rename keeps the invariant, including the products' parent links. |
| UseCases.ActualizarNombreProductoKeepsValid | src/main/java/com/franquicias/application/usecase/ActualizarNombreProductoUseCase.java:19-28 | A product rename keeps the invariant. |
| UseCases.ModificarStockProductoKeepsValid | src/main/java/com/franquicias/application/usecase/ModificarStockProductoUseCase.java:19-28 | Stock ≥ 0 is preserved by a stock change. |
| UseCases.EliminarProductoKeepsValid | src/main/java/com/franquicias/application/usecase/EliminarProductoUseCase.java:19-24 | Deleting a product keeps the invariant; nothing refers to a product. |
| UseCases.RunKeepsValid | src/main/java/com/franquicias/application/usecase/AgregarProductoUseCase.java:20-33 | Any sequence of use case calls, failed or not, keeps a valid database valid. |
| UseCases.ReachableIsValid | src/main/java/com/franquicias/application/usecase/AgregarProductoUseCase.java:20-33 | From empty tables, every reachable database has clean names, stock ≥ 0 and stored parents, whatever the calls. |
| UseCases.CreatedFranquiciaIsFound | src/main/java/com/franquicias/application/usecase/CrearFranquiciaUseCase.java:20-21 | The created franchise is what `findById` returns under its new id. |
| UseCases.AddedSucursalIsListed | src/main/java/com/franquicias/application/usecase/AgregarSucursalUseCase.java:29-30 | The added branch appears in `findByFranquiciaId` of its franchise. |
| UseCases.AddedProductoIsListed | src/main/java/com/franquicias/application/usecase/AgregarProductoUseCase.java:32-33 | The added product appears in `findBySucursalId` of its branch. |
| UseCases.RenameFranquiciaTwice | src/main/java/com/franquicias/application/usecase/ActualizarNombreFranquiciaUseCase.java:25-28 | Renaming twice to the same name leaves the name of the first rename; only updatedAt moves, and at the same clock reading the second call changes nothing. |
| UseCases.DeleteTwiceFails | src/main/java/com/franquicias/application/usecase/EliminarProductoUseCase.java:19-24 | Delete is not idempotent: the second call fails and changes nothing. |
| UseCases.ReportWithoutProducts | src/main/java/com/franquicias/application/usecase/ObtenerProductosMaximoStockPorFranquiciaUseCase.java:24-29 | An existing franchise with no branches, or only empty branches, gets an empty result. |
| UseCases.NewFranquiciaReportIsEmpty | src/main/java/com/franquicias/application/usecase/ObtenerProductosMaximoStockPorFranquiciaUseCase.java:24-29 | In a valid database a freshly created franchise has no branch, so its report is empty. |
| ConnectionUrl.RemoveScheme | src/main/java/com/franquicias/infrastructure/config/R2dbcConfig.java:28 | `replace(SCHEME, "")` never lengthens the URL. Which text goes is stated by `ConnectionUrl.RemoveSchemeCutsFirstMatch`, `ConnectionUrl.RemoveSchemeWithoutMatch` and `ConnectionUrl.RemoveSchemeInside`. |
| ConnectionUrl.RemoveSchemeCutsFirstMatch | src/main/java/com/franquicias/infrastructure/config/R2dbcConfig.java:28 | `replace` keeps the text before the first `r2dbc:mysql://`, cuts that occurrence and goes on after it. |
| ConnectionUrl.RemoveSchemeWithoutMatch | src/main/java/com/franquicias/infrastructure/config/R2dbcConfig.java:28 | A URL without the scheme passes through unchanged. |
| ConnectionUrl.RemoveSchemeInside | src/main/java/com/franquicias/infrastructure/config/R2dbcConfig.java:28 | The scheme is cut wherever it occurs, not only as a prefix. |
| ConnectionUrl.JavaSplit | src/main/java/com/franquicias/infrastructure/config/R2dbcConfig.java:29-33 | `split(c)` gives `[s]` when c is absent. Otherwise the pieces are free of c, form a prefix of the raw pieces, only empty trailing pieces are dropped, and all of them are: the last piece kept is never empty. |
| ConnectionUrl.JoinSplit | src/main/java/com/franquicias/infrastructure/config/R2dbcConfig.java:29 | The raw pieces rejoined with the separator give the string back. |
| ConnectionUrl.SplitJoin | src/main/java/com/franquicias/infrastructure/config/R2dbcConfig.java:29 | Separator-free pieces joined and split again come back unchanged. |
| ConnectionUrl.JavaSplitTrailing | src/main/java/com/franquicias/infrastructure/config/R2dbcConfig.java:33 | `"host:".split(":")` is `["host"]`, because the trailing empty piece is dropped. |
| ConnectionUrl.ParseInt | src/main/java/com/franquicias/infrastructure/config/R2dbcConfig.java:35 | `Integer.parseInt` accepts exactly an optional sign followed by at least one ASCII digit whose value fits an `int`, and returns that value, negated after '-'. Every other text is rejected. |
| ConnectionUrl.ParseIntLeadingZero | src/main/java/com/franquicias/infrastructure/config/R2dbcConfig.java:35 | A zero-padded port such as `03306` reads like `3306`. |
| ConnectionUrl.ParseIntPlusSign | src/main/java/com/franquicias/infrastructure/config/R2dbcConfig.java:35 | A port written with a leading '+' reads like the unsigned one. |
| ConnectionUrl.ParseIntOfNegativeDecimal | src/main/java/com/franquicias/infrastructure/config/R2dbcConfig.java:35 | Every negative `int` written with '-' reads back as itself, down to -2^31. |
| ConnectionUrl.ParseIntOfDecimal | src/main/java/com/franquicias/infrastructure/config/R2dbcConfig.java:35 | Every port from 0 to 2^31-1 written in decimal is read back as itself. |
| ConnectionUrl.Parse | src/main/java/com/franquicias/infrastructure/config/R2dbcConfig.java:28-35 | On success the host holds neither ':' nor '/', the database holds neither '/' nor '?', and the port is an `int`. |
| ConnectionUrl.ParseFormat | src/main/java/com/franquicias/infrastructure/config/R2dbcConfig.java:28-35 | Round trip: a well-formed URL built from host, optional port, database and optional options parses back to that host, that port (or 3306) and that database. The options may contain '/', as in `serverTimezone=Europe/Madrid`, but not "//". |
| ConnectionUrl.ParseWithoutDatabaseFails | src/main/java/com/franquicias/infrastructure/config/R2dbcConfig.java:29-31 | `host:3306` and `host:3306/` both fail at `parts[1]` with ArrayIndexOutOfBoundsException. |
| ConnectionUrl.ParseEmptyPortDefaults | src/main/java/com/franquicias/infrastructure/config/R2dbcConfig.java:33-35 | `host:` with nothing after the colon gets port 3306. |
| ConnectionUrl.ParseBadPortFails | src/main/java/com/franquicias/infrastructure/config/R2dbcConfig.java:35 | A port text `parseInt` rejects ends the parse with NumberFormatException. |
| ConnectionUrl.ParseIgnoresSchemePosition | src/main/java/com/franquicias/infrastructure/config/R2dbcConfig.java:28 | Text in front of the scheme stays and reads as part of the host. The URL parses as if the scheme were at the front, or absent. |

## Left out

- **HTTP layer.** Controllers, request and response DTOs, and Bean Validation annotations are left out. This covers routing, serialisation and the `@NotBlank` checks at the boundary.
- **Status mapping.** `GlobalExceptionHandler` is represented only by `UseCases.Status`, the constant 400 for every `IllegalArgumentException`. The error body and the Bean Validation handler are Spring plumbing.
- **Copies and wiring.**
  - The persistence and presentation mappers, entity classes and domain POJOs are field-for-field copies; each record kind is one datatype.
  - `UseCaseConfig` is dependency-injection wiring only.
  - The repository interfaces become the `Store` functions.
- **Concurrency.** The model leaves out Reactor's asynchrony and the window between an existence check and the following write. The source takes no lock, and the model runs each use case atomically.
- **Store faults.** The `Store` functions are total and never fail. A real repository call can fail with another exception, such as a lost connection or a constraint violation. It reaches the caller through `Mono.error`, and `GlobalExceptionHandler`'s catch-all answers it with HTTP 500. Neither that failure nor the 500 response is modelled.
- **Wall clock.** `LocalDateTime.now()` is the parameter `now`.
- **Connection builder.** `R2dbcConfig` lines 37-45 build a `MySqlConnectionFactory` from the parsed fields. Its configuration is a foreign library.
- **Unicode digits.** `Integer.parseInt` also accepts non-ASCII Unicode decimal digits; the model accepts ASCII digits only.
- **Integer widths.** Ids are unbounded naturals, not `Long`, and stock is an unbounded integer, not `Integer`. No use case does arithmetic on them.
- **Null parent ids.** The parent id passed to `AgregarSucursal` and `AgregarProducto` is treated as non-null. The source never checks it, and what `existsById(null)` does is decided by Spring Data.
- **Row order.** The model chooses ascending product id for the order of tied products within a branch. The SQL leaves that order to the database, and `MaxStock.ReportsArePermutations` shows every admissible answer has the same rows. The `find…` queries likewise list rows by ascending id; the source promises no order.
- UseCases.ActualizarNombreFranquicia: the success effects are stated only for a stored row whose `id` field equals its key. `Store.FranquiciasWf` guarantees this, and `UseCases.ReachableIsValid` shows every reachable database satisfies it.
- UseCases.ActualizarNombreSucursal: the same restriction, guaranteed by `Store.SucursalesWf`.
- UseCases.ActualizarNombreProducto: the same restriction, guaranteed by `Store.ProductosWf`.
- UseCases.ModificarStockProducto: the same restriction, guaranteed by `Store.ProductosWf`.
- **UTF-16.** A Java `String` is a sequence of UTF-16 code units; a Dafny `string` is a sequence of Unicode scalar values, so lone surrogates cannot be written. `trim`, `replace` and `split` only compare against ASCII chars, so their results do not depend on this. `Integer.parseInt` also accepts non-ASCII decimal digits (see the Unicode digits line), but it reads UTF-16 code units, and a surrogate is never a digit, so surrogates do not matter there either.
