# TechMarketBA back end — a verified model of its services, handlers and auth middleware

TechMarketBA is a second-hand electronics marketplace. Its back end is an
Express application over PostgreSQL. This project models, in Dafny, the
parts of it that decide what happens to a request:

- **The service layer** over four tables: `products`, `usuarios`, `images`
  and `tags`.
  - Each table is a class holding a sequence of rows and a serial counter.
  - The reads are pure functions over those rows.
  - A product read carries the links of its images; the link list is empty,
    never null, when the product has none.
- **The two partial-update builders**, `updateProduct` and `updateUsuario`.
  - Each walks a fixed list of optional parameters.
  - For every present one it pushes the fragment `column = $k` and its value.
  - It throws `No fields to update` when nothing is present.
  - Otherwise it ends with `WHERE key = $(n+1)`, with the key as the last value.
  - The generic `SetClause` module defines the statement such a builder
    produces and proves its placeholder bookkeeping once.
  - Each builder is an imperative method proved to produce that statement.
  - Running a statement on the table is modelled too, down to the row it
    changes.
- **The auth middleware.**
  - `verifyToken` parses the bearer header and records the `id` claim on the
    request.
  - `verifySeller` and `verifyAdmin` are the role gates.
- **The handlers** for products, users, images and tags.
  - Each is an ordered chain of checks ending in a status code: 400, 401,
    404, 403, then the service call, with 500 for a thrown error.
  - The chains are functions returning a `Guard` (proceed, or stop with a
    status).
  - Each handler that changes a table is a method. It changes the table
    only when every check passes.

## Modelling decisions

**Values**
- JavaScript values are `Js.JsValue`: undefined, null, boolean, integer
  number, NaN and string.
- `Truthy` is JavaScript's `!v` test.
- `StrictEquals` is `===`: NaN equals nothing.
- Route ids are `Number(req.params.id)`, so they are a number or NaN
  (`NumberValue`).

**The database**
- The repository does not declare the tables' column types. The model
  assumes a strict typing rule:
  - text columns take JavaScript strings only;
  - `approved`, `seller` and `admin` take booleans only;
  - id and price columns take numbers only, and NaN is rejected;
  - every column except `picture` is NOT NULL.
- A parameter that breaks this rule makes the statement fail, and the
  handler answers 500. An UPDATE on `products` fails this way whether or
  not its key exists, because PostgreSQL binds the parameters first. An
  UPDATE on `usuarios` is checked only against a row it finds: its SET
  columns are text, and PostgreSQL stores any parameter there. No other failure is modelled; connection failures
  are not.
- The real program is more permissive. node-postgres sends every parameter
  as text and PostgreSQL parses that text into the column's type. So a
  decimal string such as `"3"` is stored in an integer column, and a number
  such as `5` is stored in a text column as `'5'`. The affected members are
  listed under "## Left out".

**The users service and the users controller disagree.** The model follows
the service bodies: table `usuarios`, columns `id`, `usuario`, `email`,
`pass`, `seller` and `admin`. The controller's calls map onto them as
follows:
- The controller calls `createUser`, `updateUser`, `promoteUser` and
  `deleteUser`. These run the statements of `createUsuario`,
  `updateUsuario`, `promoteUsuario` and `deleteUsuario`.
- Arguments bind by name: `name` → `usuario`, `email` → `email`, the
  password → `pass`.
- `surname` and `description` have no column, so they are not stored.
- The fields the controller reads as `user.id_user` and `user.password`
  are the `id` and `pass` columns (`User.idUser`, `User.password`).
- The `usuarios` statements have no `RETURNING` clause. So `createUsuario`
  and `updateUsuario` yield undefined.

**Product ownership.** `product.id_user !== tokenUserId` compares a stored
integer with the token's claim using `===`. A claim that is the string
`"5"` is therefore not the owner of a product of user 5.

## Model

| member | source | states |
|---|---|---|
| Js.AcceptedIds | DB/controllers/products.controller.ts:43-44 | a route id passes `!id` exactly when it is a non-zero number: 0 and NaN are both missing |
| SetClause.Statement | DB/services/products.service.ts:107-146 | the statement a partial update issues: an error "No fields to update" exactly when no field is present; otherwise the k-th fragment uses placeholder k and the k-th value is the k-th present field's value, the key placeholder is n+1 and the last value is the key |
| SetClause.WrittenIffPresent | DB/services/products.service.ts:111-138 | a column is written exactly when some field for it is present |
| SetClause.WritesIffFieldPresent | DB/services/products.service.ts:111-138 | over distinct columns, the i-th field's column is written exactly when that field is present |
| SetClause.ColumnsInFieldOrder | DB/services/products.service.ts:111-138 | fragments appear in the order of the fields they come from |
| SetClause.PushIfPresent | DB/services/products.service.ts:111-114 | one `if (v) { fields.push(...); values.push(v) }` step keeps the two arrays the reference clause of the fields chosen so far |
| SetClause.TracksGivesStatement | DB/services/products.service.ts:140-146 | after every step, empty arrays mean the reference statement is the "No fields to update" error, and otherwise the arrays plus the key are exactly the reference statement |
| SetClause.WellNumberedInRange | DB/services/products.service.ts:144-146 | every placeholder in a built statement names an existing parameter |
| SetClause.StatementColumnsDistinct | DB/services/products.service.ts:111-138 | over distinct columns, no two fragments write the same column |
| SetClause.StatementWritesPresentField | DB/services/products.service.ts:111-138 | a present field is written by a fragment whose parameter is that field's value |
| SetClause.StatementWritesFieldOnce | DB/services/products.service.ts:111-138 | over distinct columns, a present field is written by exactly one fragment |
| SetClause.StatementWritesOnlyPresent | DB/services/products.service.ts:111-138 | over distinct columns, every written column belongs to a present field |
| ImagesService.GetAllImages | DB/services/images.service.ts:4-7 | exactly the rows of the table |
| ImagesService.GetImageById | DB/services/images.service.ts:9-12 | null exactly when no row has the id, otherwise a row with that id |
| ImagesService.GetImagesByProductId | DB/services/images.service.ts:14-17 | exactly the rows whose product id is the argument |
| ImagesService.WithoutImage | DB/services/images.service.ts:27-29 | the table without the rows of that id, every other row kept |
| ImagesService.ImageTable.CreateImage | DB/services/images.service.ts:19-25 | inserts succeed exactly when link is a string and the product id a number; one row is appended, carrying them and the serial counter's value as its id, and returned; on failure nothing changes, the counter included |
| ImagesService.ImageTable.DeleteImage | DB/services/images.service.ts:27-29 | the table becomes the one without that id and stays valid |
| TagsService.GetAllTags | DB/services/tags.service.ts:4-7 | exactly the rows of the table |
| TagsService.GetTagsByProductId | DB/services/tags.service.ts:9-12 | exactly the tags whose product id is the argument |
| TagsService.WithoutTag | DB/services/tags.service.ts:22-24 | the table without the rows of that id, every other row kept |
| TagsService.TagTable.CreateTag | DB/services/tags.service.ts:14-20 | succeeds exactly when name is a string and the product id a number; appends one row with them and a fresh id and returns it; on failure nothing changes |
| TagsService.TagTable.DeleteTag | DB/services/tags.service.ts:22-24 | the table becomes the one without that id and stays valid |
| ProductsService.SetProductColumn | DB/services/products.service.ts:148 | assigning a parameter to a column fails exactly when it does not fit the column's type; otherwise only that column changes |
| ProductsService.ApplyToProduct | DB/services/products.service.ts:148 | applying a SET list succeeds exactly when every parameter fits its column, and keeps the row's id |
| ProductsService.ApplyKeepsOtherColumns | DB/services/products.service.ts:148 | a column no fragment names keeps its value |
| ProductsService.ApplyWritesColumn | DB/services/products.service.ts:148 | over distinct columns, a written column ends up holding its parameter |
| ProductsService.BuildProductUpdate | DB/services/products.service.ts:97-146 | the imperative builder produces exactly the reference statement over the seven optional parameters, or the "No fields to update" error |
| ProductsService.ProductUpdatePresence | DB/services/products.service.ts:111-138 | name, description, category, model and condition are written exactly when truthy ("" skipped); approved and price exactly when not undefined (false and 0 written) |
| ProductsService.ProductUpdateOrder | DB/services/products.service.ts:111-138 | fragments follow the order name, description, category, model, condition, approved, price |
| ProductsService.ProductWithId | DB/services/products.service.ts:42-53 | the row with that id if one exists |
| ProductsService.WithImages | DB/services/products.service.ts:8 | a product's link list is empty exactly when it has no images, and holds exactly the links of its own images |
| ProductsService.Views | DB/services/products.service.ts:4-14 | every row appears with its own images, and nothing else |
| ProductsService.GetAllProducts | DB/services/products.service.ts:4-14 | every product, each with its images |
| ProductsService.GetApprovedProducts | DB/services/products.service.ts:16-27 | exactly the approved products, each with its images |
| ProductsService.GetProductByCategory | DB/services/products.service.ts:29-40 | exactly the approved products of that category |
| ProductsService.GetProductById | DB/services/products.service.ts:42-53 | the product with that id, approved or not, or null when there is none |
| ProductsService.GetApprovedProductById | DB/services/products.service.ts:55-66 | the product with that id only when it is approved, else null |
| ProductsService.GetProductByUser | DB/services/products.service.ts:68-79 | exactly the products that user owns, approved or not |
| ProductsService.ApprovedRows | DB/services/products.service.ts:153-156 | the row with that id gets approved = true, every other row is unchanged |
| ProductsService.WithoutProduct | DB/services/products.service.ts:158-161 | the table without that id, every other row kept, order invariant kept |
| ProductsService.ReplaceProduct | DB/services/products.service.ts:148 | the row with the replacement's id is swapped for it, the others kept |
| ProductsService.ExecuteProductUpdate | DB/services/products.service.ts:148-150 | running an UPDATE: a key or SET parameter that does not fit its column is an error, whether or not the key exists, and changes nothing; otherwise no row with the key returns none and changes nothing, and a found row is replaced by its updated version, which is returned |
| ProductsService.ApplyWritesPresentField | DB/services/products.service.ts:111-148 | applying a built statement: a present field's column holds its value |
| ProductsService.ApplyKeepsUnwrittenColumn | DB/services/products.service.ts:111-148 | applying a built statement: a column with no present field keeps its value |
| ProductsService.ExecuteSetsField | DB/services/products.service.ts:111-150 | after a successful update, the i-th present field's column of the row holds its value |
| ProductsService.ExecuteKeepsColumn | DB/services/products.service.ts:111-150 | after a successful update, a column outside the fields keeps its value |
| ProductsService.ProductUpdateWritesOnlyPresent | DB/services/products.service.ts:97-151 | after a successful `updateProduct`, each of the seven columns holds its parameter when present and its old value otherwise; id, owner and picture are unchanged; only that row changes |
| ProductsService.ProductTable.CreateProduct | DB/services/products.service.ts:81-95 | the insert succeeds exactly when every parameter fits its column; the new row has approved = false, no picture, the given fields and a fresh id, and is appended; on failure nothing changes |
| ProductsService.ProductTable.UpdateProduct | DB/services/products.service.ts:97-151 | the new table and the returned row are exactly those of building and running the partial update |
| ProductsService.ProductTable.ApproveProduct | DB/services/products.service.ts:153-156 | returns the id; the table becomes `ApprovedRows` |
| ProductsService.ProductTable.DeleteProduct | DB/services/products.service.ts:158-161 | returns the id; the table becomes `WithoutProduct` |
| ProductsService.ExecuteKeepsValid | DB/services/products.service.ts:148 | running any update statement keeps ids increasing and below the serial counter |
| ProductsService.ProductUpdateKeepsValid | DB/services/products.service.ts:97-151 | `updateProduct` keeps the table invariant whatever its parameters |
| ProductsService.ReplaceKeepsValid | DB/services/products.service.ts:148 | replacing a row by one with the same id keeps the invariant |
| ProductsService.ApprovedProductIsListed | DB/services/products.service.ts:16-40 | once approved, a product appears in the approved listing and in its category listing |
| ProductsService.CreatedProductIsHidden | DB/services/products.service.ts:90-92 | a product inserted unapproved is in no approved listing and has no approved-by-id read |
| UsersService.SetUserColumn | DB/services/users.service.ts:50 | assigning a parameter fails exactly when it does not fit the column; otherwise only that column changes |
| UsersService.ApplyToUser | DB/services/users.service.ts:50 | applying a SET list succeeds exactly when every parameter fits, and keeps the id |
| UsersService.ApplyKeepsOtherUserColumns | DB/services/users.service.ts:50 | a column no fragment names keeps its value |
| UsersService.ApplyWritesUserColumn | DB/services/users.service.ts:50 | over distinct columns, a written column ends up holding its parameter |
| UsersService.BuildUsuarioUpdate | DB/services/users.service.ts:24-48 | the imperative builder produces exactly the reference statement over usuario, email, pass, or the "No fields to update" error |
| UsersService.UsuarioUpdatePresence | DB/services/users.service.ts:29-40 | usuario, email and pass are written exactly when truthy; seller and admin never |
| UsersService.UsuarioUpdateOrder | DB/services/users.service.ts:29-40 | fragments follow the order usuario, email, pass |
| UsersService.GetUserById | DB/services/users.service.ts:8-11 | the user with that id if there is one |
| UsersService.GetUserByEmail | DB/services/users.service.ts:13-16 | a user with that email if there is one |
| UsersService.LookupUser | DB/middleware/auth.ts:29-31 | looking up a token's id claim: an error exactly when the claim is neither a number nor undefined/null; a found user has that id; a stored id is always found |
| UsersService.PromotedRows | DB/services/users.service.ts:54-57 | the row with that id gets admin = true, every other row is unchanged |
| UsersService.WithoutUser | DB/services/users.service.ts:59-62 | the table without that id, every other row kept |
| UsersService.ReplaceUser | DB/services/users.service.ts:50 | the row with the replacement's id is swapped for it, the others kept |
| UsersService.ExecuteUserUpdate | DB/services/users.service.ts:50-51 | running an UPDATE on `usuarios`: a non-numeric key is an error; a missing row changes nothing whatever the SET parameters; a misfit in a found row is an error and changes nothing; otherwise only the keyed row is rewritten |
| UsersService.ExecuteSetsUserField | DB/services/users.service.ts:29-50 | after a successful update, the i-th present field's column holds its value |
| UsersService.KeepsUnwrittenUserColumn | DB/services/users.service.ts:29-50 | after a successful update, a column outside the fields keeps its value |
| UsersService.UsuarioUpdateWritesOnlyPresent | DB/services/users.service.ts:24-52 | after a successful `updateUsuario`, usuario, email and pass hold their parameters when truthy and their old values otherwise; id, seller and admin are unchanged |
| UsersService.SameIdsKeepValid | DB/services/users.service.ts:50 | a table rewritten without changing ids keeps its invariant |
| UsersService.UsuarioUpdateKeepsValid | DB/services/users.service.ts:24-52 | `updateUsuario` keeps the table invariant whatever its parameters |
| UsersService.ExecuteKeepsValidUsers | DB/services/users.service.ts:50 | running any update statement keeps the invariant |
| UsersService.UserTable.CreateUsuario | DB/services/users.service.ts:18-22 | succeeds exactly when usuario, email and pass are strings; appends one row with them, admin = false, seller = false and a fresh id; yields undefined; on failure nothing changes |
| UsersService.UserTable.UpdateUsuario | DB/services/users.service.ts:24-52 | the new table is that of building and running the partial update; it fails exactly when that does, with the same message, and yields undefined otherwise |
| UsersService.UserTable.PromoteUsuario | DB/services/users.service.ts:54-57 | returns the id; the table becomes `PromotedRows` |
| UsersService.UserTable.DeleteUsuario | DB/services/users.service.ts:59-62 | returns the id; the table becomes `WithoutUser` |
| UsersService.PromotionSetsOnlyAdmin | DB/services/users.service.ts:54-57 | after promotion the promoted user reads back as before with admin = true, and any other user reads back unchanged |
| UsersService.LookupAfterRewrite | DB/services/users.service.ts:8-11 | after a rewrite that keeps ids, a lookup by id finds the rewritten version of the same user |
| Auth.Split | DB/middleware/auth.ts:15 | `split(" ")` gives at least one piece, and no piece contains the separator |
| Auth.JoinSplit | DB/middleware/auth.ts:15 | joining the pieces with the separator gives the string back |
| Auth.SplitAfterWord | DB/middleware/auth.ts:15 | a separator-free word followed by the separator is the first piece, and the rest splits on its own |
| Auth.FirstPieceIsPrefix | DB/middleware/auth.ts:15 | the first piece is a prefix, followed by the separator unless it is the whole string |
| Auth.BearerToken | DB/middleware/auth.ts:15 | the token is the longest space-free prefix of what follows "Bearer " |
| Auth.TokenDecision | DB/middleware/auth.ts:9-26 | 401 when the header is absent or lacks "Bearer "; 401 exactly when verification fails; `next` exactly when the payload is an object with an `id`, with that id; otherwise no response at all |
| Auth.Request.VerifyToken | DB/middleware/auth.ts:17-21 | `req.id_user` is set to the claim exactly when `next` is called, and unchanged otherwise |
| Auth.NextNeedsVerifiedBearer | DB/middleware/auth.ts:11-21 | a request gets past `verifyToken` only with a "Bearer " header whose token verifies to an object with that id |
| Auth.TokenAfterBearer | DB/middleware/auth.ts:15 | "Bearer " followed by a space-free token passes exactly that token |
| Auth.VerifySeller | DB/middleware/auth.ts:28-40 | proceeds exactly when the user exists and is a seller; 500 exactly when the lookup throws; 403 otherwise |
| Auth.VerifyAdmin | DB/middleware/auth.ts:42-54 | proceeds exactly when the user exists and is an admin; 500 exactly when the lookup throws; 403 otherwise |
| Auth.AdminGateIff | DB/middleware/auth.ts:42-54 | over the users table, the admin gate passes id n exactly when a stored user n is an admin |
| Auth.SellerGateIff | DB/middleware/auth.ts:28-40 | over the users table, the seller gate passes id n exactly when a stored user n is a seller |
| Auth.PromotionOpensAdminGate | DB/services/users.service.ts:54-57 | a stored user passes the admin gate after promotion |
| Auth.NewUserPassesNoGate | DB/services/users.service.ts:18-22 | a user just created passes neither role gate |
| ProductsController.LoadProduct | DB/controllers/products.controller.ts:107 | loads the product for a route id: none for NaN, otherwise the stored product with that id |
| ProductsController.GetProductByCategoryReply | DB/controllers/products.controller.ts:26-40 | 400 exactly for an empty category; otherwise 200 with the approved products of that category |
| ProductsController.GetProductReply | DB/controllers/products.controller.ts:42-56 | 400 exactly for a 0/NaN id; never 404: 200, with the product of that id and its images when it exists and null otherwise |
| ProductsController.GetApprovedProductReply | DB/controllers/products.controller.ts:58-76 | 400 for a 0/NaN id, 404 exactly when no approved product has it, otherwise 200 with it |
| ProductsController.CreateArgsAsWrittenRejectsWellFormed | DB/controllers/products.controller.ts:82 | with the arguments as the handler passes them, a well-formed body (boolean `approved`) never fits the insert |
| ProductsController.CreateArgsAsWrittenSwapsColumns | DB/controllers/products.controller.ts:82 | as written, `approved` reaches the `id_user` column and `id_user` the `price` column |
| ProductsController.CreateProduct | DB/controllers/products.controller.ts:78-88 | with arguments bound by name, 201 exactly when they fit the insert, returning and appending the row with the next serial id, the body's name, description, category, model, condition, owner and price, `approved` false and no picture; else 500 with nothing changed |
| ProductsController.PriceOnlyUpdateAsWrittenFails | DB/controllers/products.controller.ts:119-129 | as written, a body carrying only `price` throws "No fields to update" |
| ProductsController.PriceOnlyStatement | DB/services/products.service.ts:135-146 | with only `price` given, the statement is `SET price = $1 WHERE id_product = $2` with values price, id |
| ProductsController.PriceOnlyUpdateIntendedSetsPrice | DB/controllers/products.controller.ts:119-129 | with arguments bound by name, a price-only update sets the price of that product and nothing else |
| ProductsController.UpdateProductGuard | DB/controllers/products.controller.ts:94-117 | in order: 400 bad id, 401 no token user, 404 no product, 403 not the owner (no admin override); proceeds exactly when all pass and the caller owns the product |
| ProductsController.OnlyOwnerUpdates | DB/controllers/products.controller.ts:114-117 | the update checks pass only when a stored product has that id and the caller's id claim is its owner's id; an admin gets no override |
| ProductsController.UpdateProduct | DB/controllers/products.controller.ts:90-136 | with arguments bound by name (see ## Findings): a stopped request leaves the table unchanged; otherwise the table becomes the partial update's result, with 200 exactly when it succeeds and 500 otherwise |
| ProductsController.ApproveProduct | DB/controllers/products.controller.ts:138-152 | 400 and nothing changed for a 0/NaN id; otherwise that product is approved and 200 with the id |
| ProductsController.DeleteProductGuard | DB/controllers/products.controller.ts:154-187 | in order: 400, 401 no token, 404 no product, 500 lookup error, 401 unknown caller, 403 neither admin nor owner; proceeds exactly when the caller is admin or owner |
| ProductsController.DeleteAllowedIffAdminOrOwner | DB/controllers/products.controller.ts:181-184 | over the stored tables, delete is allowed exactly to an admin or to the product's owner |
| ProductsController.DeleteProduct | DB/controllers/products.controller.ts:154-195 | a stopped request leaves the table unchanged; otherwise exactly that product is removed and 200 with its id |
| UsersController.LookupEmail | DB/controllers/users.controller.ts:21 | the email lookup: an error exactly for a non-text email, a found user has that email, and a stored email is always found |
| UsersController.RegisterGuard | DB/controllers/users.controller.ts:15-25 | 400 when any of name/surname/email/password is falsy; proceeds exactly when all are truthy and the email is unused; 400 when it is in use |
| UsersController.Register | DB/controllers/users.controller.ts:12-36 | stops change nothing; otherwise 201 exactly when the fields are strings, adding one non-admin user whose password is the hash of the given one; otherwise 500 with nothing changed; registering keeps emails unique |
| UsersController.AppendKeepsEmailsUnique | DB/controllers/users.controller.ts:21-29 | adding a user whose email is unused keeps emails unique |
| UsersController.LoginReply | DB/controllers/users.controller.ts:38-68 | 400 for missing fields or an unknown email; 500 for a non-text email or password; for a stored email, 200 exactly when the comparison accepts the password against that user's hash, answered with that user's id and a token signed for it, and 400 for a wrong password |
| UsersController.LoginAfterRegister | DB/controllers/users.controller.ts:12-68 | a newly registered user logs in with the same password and gets their id and its token |
| UsersController.SelfOrAdminGuard | DB/controllers/users.controller.ts:85-103 | in order: 401 no token user, 500 lookup error, 401 unknown caller, 403 unless admin or `requestedId === tokenUserId`; proceeds exactly otherwise |
| UsersController.GetUserReply | DB/controllers/users.controller.ts:81-117 | the authorization stops first; once authorized, 500 for a NaN id, 200 with the user exactly when one has the requested id, and 404 otherwise; a returned user has the requested id and the caller is self or admin |
| UsersController.NonAdminReadsOnlySelf | DB/controllers/users.controller.ts:98-103 | over the users table, a non-admin caller reads only their own profile |
| UsersController.HashedPassword | DB/controllers/users.controller.ts:168-172 | undefined when no password is sent, its hash when it is a string, and a throw otherwise |
| UsersController.UpdateUser | DB/controllers/users.controller.ts:138-180 | in order: 400 bad id, then the authorization stops, none of which change anything; then the partial update with the hashed (or absent) password; 200 with the id exactly when it succeeds, else 500 |
| UsersController.PromoteUser | DB/controllers/users.controller.ts:182-197 | 400 exactly for a 0/NaN id, changing nothing; otherwise that user becomes admin and 200 with the id |
| UsersController.CrownUserStatus | DB/controllers/users.controller.ts:199-214 | 400 exactly for a 0/NaN id; otherwise 500, since the service it calls does not exist |
| UsersController.CreateUser | DB/controllers/users.controller.ts:121-136 | 400 exactly when a field is falsy; 201 exactly when name, email and password are strings, appending the user with the next serial id, that name and email, the password as sent (unhashed), and `seller` and `admin` false; otherwise 500 and nothing changes |
| UsersController.DeleteUser | DB/controllers/users.controller.ts:216-225 | 500 exactly for a NaN id, changing nothing; otherwise that user is removed and 200 with the id |
| ImagesController.GetImageReply | DB/controllers/images.controller.ts:15-33 | 400 exactly for a 0/NaN id, 404 exactly when no image has it, otherwise 200 with that image |
| ImagesController.GetImagesByProductReply | DB/controllers/images.controller.ts:35-49 | 400 exactly for a 0/NaN id, otherwise 200 with exactly that product's images |
| ImagesController.CreateImage | DB/controllers/images.controller.ts:51-66 | 400 exactly when link or product id is falsy; 201 exactly when they fit, appending the new image; otherwise 500; nothing changes unless 201 |
| ImagesController.DeleteImage | DB/controllers/images.controller.ts:68-89 | 400 bad id before 401 no token user; any authenticated caller gets 204 and the image removed (no ownership check) |
| ImagesController.CreatedImageReadsBack | DB/controllers/images.controller.ts:15-89 | a created image reads back by id and is listed for its product; after deleting it, it reads as 404 and the product's other images stay listed |
| TagsController.GetTagsByProductReply | DB/controllers/tags.controller.ts:14-28 | 400 exactly for a 0/NaN id, otherwise 200 with exactly that product's tags |
| TagsController.CreateTag | DB/controllers/tags.controller.ts:30-44 | 400 exactly when name or product id is falsy; 201 exactly when they fit, appending the new tag; otherwise 500; nothing changes unless 201 |
| TagsController.DeleteTag | DB/controllers/tags.controller.ts:46-60 | 400 exactly for a 0/NaN id; otherwise, with no token check, 204 and the tag removed |
| TagsController.CreatedTagListedUntilDeleted | DB/controllers/tags.controller.ts:14-60 | a created tag is listed for its product until it is deleted, and the product's other tags stay listed |

## Left out

- Database connection, pool and driver: the tables are in memory. A statement fails only when a parameter breaks the typing rule under "The database". Connection errors are not modelled.
- SQL text: only the SET/WHERE placeholder structure is modelled, not the query string.
- `getAllUsers` / the `getUsers` handler: the service reads a table `users` that no other statement uses. It is not part of this model.
- The users service's export list names `getAllUsuarios`, `getUsuarioById` and `getUsuarioByEmail`, which it never defines. Loading that module would fail. The model assumes the service exposes the functions the controller calls, as described above.
- `crownUser` in the service: it does not exist. The handler is modelled as answering 500 after its id check.
- `bcrypt` and `jsonwebtoken`: they are parameters of the model. Hashing is `hash: string -> string`, with the random salt folded in. Comparison is `compare`, signing is `sign`, and token verification is `verify`. The token's expiry and key are not modelled.
- Routing, route-level middleware order, async scheduling, logging, message texts and the JSON body shapes: only the status and the returned record or id are modelled.
- The handlers `getProducts`, `getApprovedProducts`, `getAllImages` and `getAllTags`: each answers 200 with its service's list. The service functions carry the contracts.
- Controllers that the routers reference but that are not defined (`getProductByUser`, favourites, cart): there is no code to model.
- Order of the aggregated image links: `array_agg` has no ORDER BY. Only membership of the link list is stated.
- `seller` is never written by any statement. The model assumes its column default is false on insert.
- Number values are integers: fractional prices and ids are not represented.
- ProductsService.FitsProductColumn: uses the strict typing rule under "The database". In the program, PostgreSQL parses the driver's text, so `{"price":"10"}` on an update writes 10 where the model fails the statement. A missing text field is also refused, because every column but `picture` is assumed NOT NULL; a nullable column would store NULL. ProductsService.SetProductColumn, ProductsService.ApplyToProduct and ProductsService.ProductTable.CreateProduct inherit both simplifications.
- UsersService.FitsUserColumn: the same strict rule for `usuarios`. A numeric `usuario`, `email` or `pass` is refused where PostgreSQL would store its text. UsersService.SetUserColumn, UsersService.ApplyToUser and UsersService.UserTable.CreateUsuario inherit this.
- UsersService.LookupUser: a token claim that is a decimal string such as `"5"` is an error (500) in the model. PostgreSQL would parse it and look up user 5.
- UsersController.LookupEmail: an email of `5` at register or login is an error (500) in the model. The program looks up, and stores, the text `'5'`.
- ImagesService.ImageTable.CreateImage: `{"link":"x","id_product":"3"}` fails in the model (500 from the handler), but the program stores product 3 and answers 201. A numeric `link` is refused for the same reason.
- TagsService.TagTable.CreateTag: a decimal-string `id_product` or a numeric `name` fails in the model; the program stores them.

## Findings

| source | as written | input that shows it | evidently intended | confidence | as-written member | corrected member |
|---|---|---|---|---|---|---|
| DB/controllers/products.controller.ts:82 | `createProduct` is called with 9 arguments (`…, condition, approved, id_user, picture, price`), but the service takes 7 (`…, condition, id_user, price`). So `approved` lands in `id_user`, `id_user` in `price`, and `picture` and `price` are dropped. | the body `{name:"a", description:"b", category:"c", model:"d", condition:"e", approved:false, id_user:3, price:10}`: `false` goes to the integer column `id_user`, the insert fails and the answer is 500 | pass name, description, category, model, condition, id_user, price | not executed | ProductsController.CreateArgsAsWrittenRejectsWellFormed | ProductsController.CreateProduct |
| DB/controllers/products.controller.ts:119-129 | `updateProduct` is called with `picture` in the service's `price` position. The real `price` is an extra argument the service ignores. | the body `{price: 10}` from the product's owner: no optional field is present, so "No fields to update" is thrown and the answer is 500 | pass `price` as the service's price; `picture` has no parameter in the service | not executed | ProductsController.PriceOnlyUpdateAsWrittenFails | ProductsController.PriceOnlyUpdateIntendedSetsPrice |
