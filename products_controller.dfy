/** The product handlers (DB/controllers/products.controller.ts): each is an
    ordered series of checks ending in a status code, then at most one
    service call. The reads are functions from the request and the tables
    to the reply; the handlers that write are methods that touch the table
    only once every check has passed. */
module ProductsController {
  import opened Js
  import opened Http
  import opened Rows
  import opened SetClause
  import opened ImagesService
  import opened ProductsService
  import opened UsersService

  /** The fields of `req.body` the create and update handlers destructure. */
  datatype ProductBody = ProductBody(
    name: JsValue,
    description: JsValue,
    category: JsValue,
    model: JsValue,
    condition: JsValue,
    approved: JsValue,
    idUser: JsValue,
    picture: JsValue,
    price: JsValue)

  /** A product is the caller's when its `id_user` is `===` the token's id claim. */
  predicate IsOwner(p: Product, tokenUserId: JsValue)
  {
    StrictEquals(Num(p.idUser), tokenUserId)
  }

  /** The product a numeric route id names, if any. */
  function LoadProduct(rows: seq<Product>, idProduct: NumberValue): (r: Option<Product>)
    ensures r.Some? ==> idProduct.Num? && r.value in rows && r.value.idProduct == idProduct.n
    ensures idProduct.Num? && (exists p :: p in rows && p.idProduct == idProduct.n) ==> r.Some?
  {
    if idProduct.Num? then ProductWithId(rows, idProduct.n) else None
  }

  // ---------------------------------------------------------------------
  // Reads

  /** `getProductByCategory`: 400 for an empty category, otherwise 200 with
      exactly the approved products of that category. */
  function GetProductByCategoryReply(products: seq<Product>, images: seq<Image>, category: string)
    : (r: Reply<seq<ProductView>>)
    ensures r.status == BAD_REQUEST <==> category == ""
    ensures r.status != BAD_REQUEST ==> r.status == OK && r.payload.Some?
    ensures r.payload.Some? ==>
      && (forall v :: v in r.payload.value ==> v.product in products && v.product.approved && v.product.category == category)
      && (forall p :: p in products && p.approved && p.category == category ==> WithImages(p, images) in r.payload.value)
  {
    if category == "" then Reply(BAD_REQUEST, None)
    else Reply(OK, Some(GetProductByCategory(products, images, category)))
  }

  /** `getProduct`: 400 for a 0 or NaN id; otherwise 200 with the product,
      approved or not, and 200 with null when there is none: the handler has
      no 404 branch. */
  function GetProductReply(products: seq<Product>, images: seq<Image>, idProduct: NumberValue)
    : (r: Reply<Option<ProductView>>)
    ensures r.status == BAD_REQUEST <==> !Truthy(idProduct)
    ensures r.status != BAD_REQUEST ==> r.status == OK && r.payload.Some?
    ensures r.status != NOT_FOUND
    ensures r.status == OK ==>
      (r.payload.value.Some? <==> exists p :: p in products && p.idProduct == idProduct.n)
    ensures r.status == OK && r.payload.value.Some? ==>
      var v := r.payload.value.value;
      v.product in products && v.product.idProduct == idProduct.n && v == WithImages(v.product, images)
  {
    if !Truthy(idProduct) then Reply(BAD_REQUEST, None)
    else Reply(OK, Some(GetProductById(products, images, idProduct.n)))
  }

  /** `getApprovedProduct`: 400 for a 0 or NaN id, 404 when no approved
      product has that id, otherwise 200 with it. */
  function GetApprovedProductReply(products: seq<Product>, images: seq<Image>, idProduct: NumberValue)
    : (r: Reply<ProductView>)
    ensures r.status == BAD_REQUEST <==> !Truthy(idProduct)
    ensures r.status == NOT_FOUND <==>
      Truthy(idProduct) && forall p :: p in products && p.idProduct == idProduct.n ==> !p.approved
    ensures r.status == OK <==> r.payload.Some?
    ensures r.payload.Some? ==>
      r.payload.value.product in products && r.payload.value.product.idProduct == idProduct.n
      && r.payload.value.product.approved
    ensures r.status in {BAD_REQUEST, NOT_FOUND, OK}
  {
    if !Truthy(idProduct) then Reply(BAD_REQUEST, None)
    else
      match GetApprovedProductById(products, images, idProduct.n)
      case None => Reply(NOT_FOUND, None)
      case Some(v) => Reply(OK, Some(v))
  }

  // ---------------------------------------------------------------------
  // createProduct

  /** The seven parameters of the service's `createProduct`. */
  datatype CreateArgs = CreateArgs(
    name: JsValue,
    description: JsValue,
    category: JsValue,
    model: JsValue,
    condition: JsValue,
    idUser: JsValue,
    price: JsValue)

  /** The handler passes nine body fields positionally to a service that
      takes seven: `approved` lands in `id_user`, `id_user` in `price`, and
      `picture` and `price` are dropped. */
  function CreateArgsAsWritten(b: ProductBody): CreateArgs
  {
    CreateArgs(b.name, b.description, b.category, b.model, b.condition, b.approved, b.idUser)
  }

  /** Each field to the parameter of the same name. */
  function CreateArgsIntended(b: ProductBody): CreateArgs
  {
    CreateArgs(b.name, b.description, b.category, b.model, b.condition, b.idUser, b.price)
  }

  predicate CreateArgsFit(a: CreateArgs)
  {
    InsertFits(a.name, a.description, a.category, a.model, a.condition, a.idUser, a.price)
  }

  /** A well-formed body: text fields, a boolean `approved`, numeric owner and price. */
  predicate WellFormedBody(b: ProductBody)
  {
    && b.name.Str? && b.description.Str? && b.category.Str? && b.model.Str? && b.condition.Str?
    && b.approved.Bool? && b.idUser.Num? && b.price.Num?
  }

  /** As written, a well-formed body never creates a product: its boolean
      `approved` is sent for the integer `id_user` and the insert fails (the
      handler answers 500); bound by name, the same body inserts. */
  lemma CreateArgsAsWrittenRejectsWellFormed(b: ProductBody)
    requires WellFormedBody(b)
    ensures !CreateArgsFit(CreateArgsAsWritten(b))
    ensures CreateArgsFit(CreateArgsIntended(b))
  {
  }

  /** As written, the only bodies that insert carry a number in `approved`,
      which becomes the owner, and the caller's `id_user` becomes the price. */
  lemma CreateArgsAsWrittenSwapsColumns(b: ProductBody)
    requires CreateArgsFit(CreateArgsAsWritten(b))
    ensures b.approved.Num? && b.idUser.Num?
    ensures CreateArgsAsWritten(b).idUser == b.approved && CreateArgsAsWritten(b).price == b.idUser
  {
  }

  /** `createProduct` with the fields bound by name: 201 with the new,
      unapproved row, or 500 when the insert fails; there is no check of its
      own (the route puts it behind the token and seller gates). */
  method CreateProduct(products: ProductTable, b: ProductBody) returns (status: int, created: Option<Product>)
    requires products.Valid()
    modifies products
    ensures products.Valid()
    ensures status == CREATED <==> CreateArgsFit(CreateArgsIntended(b))
    ensures status != CREATED ==> status == SERVER_ERROR && created == None && products.rows == old(products.rows)
    ensures status == CREATED ==>
      && created == Some(Product(old(products.nextId), b.name.s, b.description.s, b.category.s, b.model.s,
                                 b.condition.s, false, b.idUser.n, None, b.price.n))
      && products.rows == old(products.rows) + [created.value]
      && products.nextId == old(products.nextId) + 1
  {
    var a := CreateArgsIntended(b);
    var r := products.CreateProduct(a.name, a.description, a.category, a.model, a.condition, a.idUser, a.price);
    if r.Err? {
      return SERVER_ERROR, None;
    }
    status, created := CREATED, Some(r.value);
  }

  // ---------------------------------------------------------------------
  // updateProduct

  /** The eight parameters of the service's `updateProduct` after the id. */
  datatype UpdateArgs = UpdateArgs(
    name: JsValue,
    description: JsValue,
    category: JsValue,
    model: JsValue,
    condition: JsValue,
    approved: JsValue,
    price: JsValue)

  /** The handler passes `picture` where the service expects `price`, and
      never passes `price`. */
  function UpdateArgsAsWritten(b: ProductBody): UpdateArgs
  {
    UpdateArgs(b.name, b.description, b.category, b.model, b.condition, b.approved, b.picture)
  }

  /** Each field to the parameter of the same name. */
  function UpdateArgsIntended(b: ProductBody): UpdateArgs
  {
    UpdateArgs(b.name, b.description, b.category, b.model, b.condition, b.approved, b.price)
  }

  function UpdateEffectOf(rows: seq<Product>, idProduct: int, a: UpdateArgs): UpdateEffect
  {
    ProductUpdateEffect(rows, idProduct, a.name, a.description, a.category, a.model, a.condition, a.approved, a.price)
  }

  /** A body that only changes the price. */
  function PriceOnlyBody(price: int): ProductBody
  {
    ProductBody(Undefined, Undefined, Undefined, Undefined, Undefined, Undefined, Undefined, Undefined, Num(price))
  }

  /** As written, a body that only sets `price` updates nothing: the service
      sees no field present and throws "No fields to update" (the handler
      answers 500). */
  lemma PriceOnlyUpdateAsWrittenFails(rows: seq<Product>, idProduct: int, price: int)
    ensures UpdateEffectOf(rows, idProduct, UpdateArgsAsWritten(PriceOnlyBody(price))).returned == Err(NO_FIELDS_TO_UPDATE)
  {
    ProductFieldsShape(Undefined, Undefined, Undefined, Undefined, Undefined, Undefined, Undefined);
  }

  /** The statement a price-only update builds: `UPDATE products SET price = $1
      WHERE id_product = $2` with parameters price, then id. */
  lemma PriceOnlyStatement(idProduct: int, price: int)
    ensures Statement("products", "id_product",
                      ProductFields(Undefined, Undefined, Undefined, Undefined, Undefined, Undefined, Num(price)),
                      Num(idProduct))
            == Ok(UpdateStatement("products", [Assignment(Price, 1)], "id_product", |[Assignment(Price, 1)]| + 1, [Num(price)] + [Num(idProduct)]))
  {
    var f := DefinedField(Price, Num(price));
    var none := Pick(TextField(Name, Undefined));
    assert none == [];
    assert Pick(TextField(Description, Undefined)) == Pick(TextField(Category, Undefined)) == none;
    assert Pick(TextField(Model, Undefined)) == Pick(TextField(Condition, Undefined)) == none;
    assert Pick(DefinedField(Approved, Undefined)) == none;
    assert Numbered([f]) == [Assignment(Price, 1)];
    assert ValuesOf([f]) == [Num(price)];
    ProductBuilderDone(idProduct, Undefined, Undefined, Undefined, Undefined, Undefined, Undefined, Num(price),
                       [f], [Assignment(Price, 1)], [Num(price)]);
  }

  /** Bound by name, the same body on an existing product sets its price and
      changes nothing else. */
  lemma PriceOnlyUpdateIntendedSetsPrice(rows: seq<Product>, idProduct: int, price: int)
    requires ProductWithId(rows, idProduct).Some?
    ensures var e := UpdateEffectOf(rows, idProduct, UpdateArgsIntended(PriceOnlyBody(price)));
      && e.returned.Ok? && e.returned.value.Some?
      && e.returned.value.value == ProductWithId(rows, idProduct).value.(price := price)
  {
    PriceOnlyStatement(idProduct, price);
    var u := UpdateStatement("products", [Assignment(Price, 1)], "id_product", |[Assignment(Price, 1)]| + 1, [Num(price)] + [Num(idProduct)]);
    var p := ProductWithId(rows, idProduct).value;
    assert ApplyToProduct(p, u.sets, u.values) == Ok(p.(price := price)) by {
      assert u.sets[1..] == [];
    }
  }

  /** The checks of `updateProduct`, in order: 400 for a 0 or NaN id, 401
      without a token user, 404 when the product is absent, 403 unless the
      caller owns it (an admin gets no override). */
  function UpdateProductGuard(idProduct: NumberValue, tokenUserId: JsValue, product: Option<Product>): (g: Guard)
    ensures !Truthy(idProduct) ==> g == Stop(BAD_REQUEST)
    ensures Truthy(idProduct) && !Truthy(tokenUserId) ==> g == Stop(UNAUTHORIZED)
    ensures Truthy(idProduct) && Truthy(tokenUserId) && product.None? ==> g == Stop(NOT_FOUND)
    ensures g == Proceed <==> Truthy(idProduct) && Truthy(tokenUserId) && product.Some? && IsOwner(product.value, tokenUserId)
    ensures Truthy(idProduct) && Truthy(tokenUserId) && product.Some? && !IsOwner(product.value, tokenUserId) ==>
      g == Stop(FORBIDDEN)
  {
    if !Truthy(idProduct) then Stop(BAD_REQUEST)
    else if !Truthy(tokenUserId) then Stop(UNAUTHORIZED)
    else if product.None? then Stop(NOT_FOUND)
    else if !StrictEquals(Num(product.value.idUser), tokenUserId) then Stop(FORBIDDEN)
    else Proceed
  }

  /** Only the owner of a stored product gets past the checks of
      `updateProduct`; being an admin makes no difference, since the checks
      never read the caller's user row. */
  lemma OnlyOwnerUpdates(rows: seq<Product>, idProduct: NumberValue, tokenUserId: JsValue)
    requires UpdateProductGuard(idProduct, tokenUserId, LoadProduct(rows, idProduct)) == Proceed
    ensures exists p :: p in rows && p.idProduct == idProduct.n && tokenUserId == Num(p.idUser)
  {
    var p := LoadProduct(rows, idProduct).value;
    assert p in rows;
  }

  /** `updateProduct`: the checks, then the service update with the fields
      bound by name; 200 with the updated row, or 500 when the service throws
      ("No fields to update", or a value that does not fit its column). The
      table changes only when every check passes. */
  method UpdateProduct(products: ProductTable, idProduct: NumberValue, tokenUserId: JsValue, b: ProductBody)
    returns (status: int, updated: Option<Product>)
    requires products.Valid()
    modifies products
    ensures products.Valid()
    ensures var g := UpdateProductGuard(idProduct, tokenUserId, LoadProduct(old(products.rows), idProduct));
      && (g.Stop? ==> status == g.status && updated == None && products.rows == old(products.rows))
      && (g == Proceed ==>
            var e := UpdateEffectOf(old(products.rows), idProduct.n, UpdateArgsIntended(b));
            && products.rows == e.rows
            && (status == OK <==> e.returned.Ok?)
            && (status != OK ==> status == SERVER_ERROR && updated == None)
            && (status == OK ==> updated == e.returned.value))
  {
    var g := UpdateProductGuard(idProduct, tokenUserId, LoadProduct(products.rows, idProduct));
    if g.Stop? {
      return g.status, None;
    }
    var a := UpdateArgsIntended(b);
    var r := products.UpdateProduct(idProduct.n, a.name, a.description, a.category, a.model, a.condition, a.approved, a.price);
    if r.Err? {
      return SERVER_ERROR, None;
    }
    status, updated := OK, r.value;
  }

  // ---------------------------------------------------------------------
  // approveProduct

  /** `approveProduct`: 400 for a 0 or NaN id; otherwise the row with that id
      is approved and the id comes back with 200 (the route puts it behind
      the token and admin gates). */
  method ApproveProduct(products: ProductTable, idProduct: NumberValue) returns (status: int, approvedId: Option<int>)
    requires products.Valid()
    modifies products
    ensures products.Valid()
    ensures status == BAD_REQUEST <==> !Truthy(idProduct)
    ensures status == BAD_REQUEST ==> approvedId == None && products.rows == old(products.rows)
    ensures status != BAD_REQUEST ==>
      status == OK && approvedId == Some(idProduct.n) && products.rows == ApprovedRows(old(products.rows), idProduct.n)
  {
    if !Truthy(idProduct) {
      return BAD_REQUEST, None;
    }
    var id := products.ApproveProduct(idProduct.n);
    status, approvedId := OK, Some(id);
  }

  // ---------------------------------------------------------------------
  // deleteProduct

  /** The checks of `deleteProduct`, in order: 400 for a 0 or NaN id, 401
      without a token user, 404 when the product is absent, then the
      caller's user row: 500 when the lookup fails, 401 when there is none,
      and 403 unless the caller is an admin or owns the product. */
  function DeleteProductGuard(idProduct: NumberValue, tokenUserId: JsValue, product: Option<Product>,
                              requester: Result<Option<User>>): (g: Guard)
    ensures !Truthy(idProduct) ==> g == Stop(BAD_REQUEST)
    ensures Truthy(idProduct) && !Truthy(tokenUserId) ==> g == Stop(UNAUTHORIZED)
    ensures Truthy(idProduct) && Truthy(tokenUserId) && product.None? ==> g == Stop(NOT_FOUND)
    ensures Truthy(idProduct) && Truthy(tokenUserId) && product.Some? ==>
      && (requester.Err? ==> g == Stop(SERVER_ERROR))
      && (requester == Ok(None) ==> g == Stop(UNAUTHORIZED))
    ensures g == Proceed <==>
      && Truthy(idProduct) && Truthy(tokenUserId) && product.Some? && requester.Ok? && requester.value.Some?
      && (requester.value.value.admin || IsOwner(product.value, tokenUserId))
    ensures g.Stop? && g.status == FORBIDDEN ==> requester.Ok? && requester.value.Some? && !requester.value.value.admin
  {
    if !Truthy(idProduct) then Stop(BAD_REQUEST)
    else if !Truthy(tokenUserId) then Stop(UNAUTHORIZED)
    else if product.None? then Stop(NOT_FOUND)
    else
      match requester
      case Err(_) => Stop(SERVER_ERROR)
      case Ok(None) => Stop(UNAUTHORIZED)
      case Ok(Some(u)) =>
        var isAdmin := u.admin;
        var isOwner := StrictEquals(Num(product.value.idUser), tokenUserId);
        if !isAdmin && !isOwner then Stop(FORBIDDEN) else Proceed
  }

  /** Over the users table, deletion passes its checks exactly when the
      product exists and the caller is a stored admin or the product's owner
      (who must also be a stored user). */
  lemma DeleteAllowedIffAdminOrOwner(products: seq<Product>, users: seq<User>, nextUserId: int,
                                     idProduct: int, tokenUser: int)
    requires ValidUsers(users, nextUserId)
    requires idProduct != 0 && tokenUser != 0
    ensures DeleteProductGuard(Num(idProduct), Num(tokenUser), LoadProduct(products, Num(idProduct)),
                               LookupUser(users, Num(tokenUser))) == Proceed
      <==>
      && (exists p :: p in products && p.idProduct == idProduct)
      && (exists u :: u in users && u.idUser == tokenUser)
      && ((exists u :: u in users && u.idUser == tokenUser && u.admin)
          || LoadProduct(products, Num(idProduct)).value.idUser == tokenUser)
  {
    var found := GetUserById(users, tokenUser);
    if u :| u in users && u.idUser == tokenUser && u.admin {
      IncreasingKeysUnique(users, UserKey, u, found.value);
    }
  }

  /** `deleteProduct`: the checks, then the row with that id is deleted and
      the id comes back with 200. The table changes only when every check
      passes. */
  method DeleteProduct(products: ProductTable, users: seq<User>, idProduct: NumberValue, tokenUserId: JsValue)
    returns (status: int, deletedId: Option<int>)
    requires products.Valid()
    modifies products
    ensures products.Valid()
    ensures var g := DeleteProductGuard(idProduct, tokenUserId, LoadProduct(old(products.rows), idProduct),
                                        LookupUser(users, tokenUserId));
      && (g.Stop? ==> status == g.status && deletedId == None && products.rows == old(products.rows))
      && (g == Proceed ==>
            status == OK && deletedId == Some(idProduct.n)
            && products.rows == WithoutProduct(old(products.rows), idProduct.n))
  {
    var product := LoadProduct(products.rows, idProduct);
    var g := DeleteProductGuard(idProduct, tokenUserId, product, LookupUser(users, tokenUserId));
    if g.Stop? {
      return g.status, None;
    }
    var id := products.DeleteProduct(idProduct.n);
    status, deletedId := OK, Some(id);
  }
}
