/** The products table and the service functions over it
    (DB/services/products.service.ts): reads that aggregate each product's
    image links, the insert, the partial update, approval and deletion. */
module ProductsService {
  import opened Js
  import opened Rows
  import opened SetClause
  import opened ImagesService

  /** A row of `products`, shaped as DB/models/product.model.ts declares it.
      No statement of the service writes `picture`: it is NULL (None) after
      the insert. */
  datatype Product = Product(
    idProduct: int,
    name: string,
    description: string,
    category: string,
    model: string,
    condition: string,
    approved: bool,
    idUser: int,
    picture: Option<string>,
    price: int)

  function ProductKey(p: Product): int
  {
    p.idProduct
  }

  /** A product as every read returns it: the row plus its image links. */
  datatype ProductView = ProductView(product: Product, images: seq<string>)

  // ---------------------------------------------------------------------
  // Columns, as the SQL statements see them

  /** The writable columns of `products` (all but the serial `id_product`). */
  datatype ProductCol = Name | Description | Category | Model | Condition | Approved | IdUser | Picture | Price

  /** The column's name in SQL text. */
  function ProductColName(c: ProductCol): string
  {
    match c
    case Name => "name"
    case Description => "description"
    case Category => "category"
    case Model => "model"
    case Condition => "condition"
    case Approved => "approved"
    case IdUser => "id_user"
    case Picture => "picture"
    case Price => "price"
  }

  /** The value a column of the row holds, as the driver hands it to JavaScript. */
  function ProductColumn(p: Product, c: ProductCol): JsValue
  {
    match c
    case Name => Str(p.name)
    case Description => Str(p.description)
    case Category => Str(p.category)
    case Model => Str(p.model)
    case Condition => Str(p.condition)
    case Approved => Bool(p.approved)
    case IdUser => Num(p.idUser)
    case Picture => if p.picture.Some? then Str(p.picture.value) else Null
    case Price => Num(p.price)
  }

  /** Whether a parameter can be stored in a column: text columns take
      strings, `approved` a boolean, `id_user` and `price` numbers, `picture`
      a string or null. */
  predicate FitsProductColumn(c: ProductCol, v: JsValue)
  {
    match c
    case Name | Description | Category | Model | Condition => v.Str?
    case Approved => v.Bool?
    case IdUser | Price => v.Num?
    case Picture => v.Str? || v.Null?
  }

  /** `column = v` applied to one row: the column then holds v, and every
      other column, and the id, is as it was. */
  function SetProductColumn(p: Product, c: ProductCol, v: JsValue): (r: Result<Product>)
    ensures r.Ok? <==> FitsProductColumn(c, v)
    ensures r.Ok? ==> r.value.idProduct == p.idProduct
    ensures r.Ok? ==> ProductColumn(r.value, c) == v
    ensures r.Ok? ==> forall d :: d != c ==> ProductColumn(r.value, d) == ProductColumn(p, d)
  {
    if !FitsProductColumn(c, v) then Err("invalid input for column " + ProductColName(c))
    else
      match c
      case Name => Ok(p.(name := v.s))
      case Description => Ok(p.(description := v.s))
      case Category => Ok(p.(category := v.s))
      case Model => Ok(p.(model := v.s))
      case Condition => Ok(p.(condition := v.s))
      case Approved => Ok(p.(approved := v.b))
      case IdUser => Ok(p.(idUser := v.n))
      case Picture => Ok(p.(picture := if v.Str? then Some(v.s) else None))
      case Price => Ok(p.(price := v.n))
  }

  /** The SET fragments of a statement applied to one row, left to right; the
      statement fails as a whole when one parameter does not fit its column. */
  function ApplyToProduct(p: Product, sets: seq<Assignment<ProductCol>>, values: seq<JsValue>): (r: Result<Product>)
    requires PlaceholdersInRange(sets, values)
    ensures r.Ok? <==> forall k :: 0 <= k < |sets| ==> FitsProductColumn(sets[k].column, values[sets[k].placeholder - 1])
    ensures r.Ok? ==> r.value.idProduct == p.idProduct
    decreases |sets|
  {
    if sets == [] then Ok(p)
    else
      assert sets[0] in sets;
      match SetProductColumn(p, sets[0].column, values[sets[0].placeholder - 1])
      case Err(e) => Err(e)
      case Ok(q) =>
        assert forall a :: a in sets[1..] ==> a in sets;
        var r := ApplyToProduct(q, sets[1..], values);
        assert forall k :: 1 <= k < |sets| ==> sets[k] == sets[1..][k - 1];
        r
  }

  /** A column no fragment names keeps its value. */
  lemma {:induction false} ApplyKeepsOtherColumns(p: Product, sets: seq<Assignment<ProductCol>>, values: seq<JsValue>, c: ProductCol)
    requires PlaceholdersInRange(sets, values)
    requires forall k :: 0 <= k < |sets| ==> sets[k].column != c
    requires ApplyToProduct(p, sets, values).Ok?
    ensures ProductColumn(ApplyToProduct(p, sets, values).value, c) == ProductColumn(p, c)
    decreases |sets|
  {
    if sets != [] {
      assert sets[0] in sets;
      var q := SetProductColumn(p, sets[0].column, values[sets[0].placeholder - 1]).value;
      assert forall a :: a in sets[1..] ==> a in sets;
      ApplyKeepsOtherColumns(q, sets[1..], values, c);
    }
  }

  /** A column exactly one fragment names ends up holding that fragment's parameter. */
  lemma {:induction false} ApplyWritesColumn(p: Product, sets: seq<Assignment<ProductCol>>, values: seq<JsValue>, k: nat)
    requires PlaceholdersInRange(sets, values)
    requires k < |sets|
    requires forall j :: 0 <= j < |sets| && j != k ==> sets[j].column != sets[k].column
    requires ApplyToProduct(p, sets, values).Ok?
    ensures ProductColumn(ApplyToProduct(p, sets, values).value, sets[k].column) == values[sets[k].placeholder - 1]
    decreases |sets|
  {
    assert sets[0] in sets;
    var q := SetProductColumn(p, sets[0].column, values[sets[0].placeholder - 1]).value;
    assert forall a :: a in sets[1..] ==> a in sets;
    if k == 0 {
      ApplyKeepsOtherColumns(q, sets[1..], values, sets[0].column);
    } else {
      ApplyWritesColumn(q, sets[1..], values, k - 1);
    }
  }

  // ---------------------------------------------------------------------
  // updateProduct: the partial-update clause builder

  /** The optional parameters of `updateProduct` in their fixed order, each
      with its presence rule: the five text columns when truthy, `approved`
      and `price` whenever they are not undefined. */
  function ProductFields(name: JsValue, description: JsValue, category: JsValue, model: JsValue,
                         condition: JsValue, approved: JsValue, price: JsValue): seq<Field<ProductCol>>
  {
    [TextField(Name, name)] + [TextField(Description, description)] + [TextField(Category, category)]
    + [TextField(Model, model)] + [TextField(Condition, condition)]
    + [DefinedField(Approved, approved)] + [DefinedField(Price, price)]
  }

  const PRODUCT_UPDATE_COLUMNS: seq<ProductCol> := [Name, Description, Category, Model, Condition, Approved, Price]

  /** The present parameters of `updateProduct`, one field at a time. */
  lemma ProductChosen(name: JsValue, description: JsValue, category: JsValue, model: JsValue,
                      condition: JsValue, approved: JsValue, price: JsValue)
    ensures Chosen(ProductFields(name, description, category, model, condition, approved, price)) ==
      Pick(TextField(Name, name)) + Pick(TextField(Description, description))
      + Pick(TextField(Category, category)) + Pick(TextField(Model, model))
      + Pick(TextField(Condition, condition)) + Pick(DefinedField(Approved, approved))
      + Pick(DefinedField(Price, price))
  {
    var s0 := [TextField(Name, name)];
    assert s0 == [] + s0;
    ChosenAppend([], s0[0]);
    var s1 := s0 + [TextField(Description, description)];
    ChosenAppend(s0, TextField(Description, description));
    var s2 := s1 + [TextField(Category, category)];
    ChosenAppend(s1, TextField(Category, category));
    var s3 := s2 + [TextField(Model, model)];
    ChosenAppend(s2, TextField(Model, model));
    var s4 := s3 + [TextField(Condition, condition)];
    ChosenAppend(s3, TextField(Condition, condition));
    var s5 := s4 + [DefinedField(Approved, approved)];
    ChosenAppend(s4, DefinedField(Approved, approved));
    ChosenAppend(s5, DefinedField(Price, price));
  }

  /** After the seven optional parameters, the pushed arrays are the
      reference statement's. */
  lemma ProductBuilderDone(idProduct: int, name: JsValue, description: JsValue, category: JsValue,
                           model: JsValue, condition: JsValue, approved: JsValue, price: JsValue,
                           chosen: seq<Field<ProductCol>>, sets: seq<Assignment<ProductCol>>, values: seq<JsValue>)
    requires chosen ==
      Pick(TextField(Name, name)) + Pick(TextField(Description, description))
      + Pick(TextField(Category, category)) + Pick(TextField(Model, model))
      + Pick(TextField(Condition, condition)) + Pick(DefinedField(Approved, approved))
      + Pick(DefinedField(Price, price))
    requires Tracks(sets, values, chosen)
    ensures Statement("products", "id_product",
                      ProductFields(name, description, category, model, condition, approved, price), Num(idProduct))
            == if sets == [] then Err(NO_FIELDS_TO_UPDATE)
               else Ok(UpdateStatement("products", sets, "id_product", |sets| + 1, values + [Num(idProduct)]))
  {
    ProductChosen(name, description, category, model, condition, approved, price);
    TracksGivesStatement("products", "id_product",
                         ProductFields(name, description, category, model, condition, approved, price),
                         Num(idProduct), sets, values);
  }

  /** Builds `UPDATE products SET ... WHERE id_product = $(n+1)` and its
      parameters exactly as the service does, pushing onto `fields` and
      `values` one optional parameter at a time; it is the reference
      statement over ProductFields, so the placeholders run 1..n in lock-step
      with the values, the id comes last, and with nothing present it fails
      with "No fields to update" and issues no query. */
  method BuildProductUpdate(idProduct: int, name: JsValue, description: JsValue, category: JsValue,
                            model: JsValue, condition: JsValue, approved: JsValue, price: JsValue)
    returns (r: Result<UpdateStatement<ProductCol>>)
    ensures r == Statement("products", "id_product",
                           ProductFields(name, description, category, model, condition, approved, price),
                           Num(idProduct))
  {
    var fields: seq<Assignment<ProductCol>> := [];
    var values: seq<JsValue> := [];
    assert Tracks(fields, values, []);
    fields, values := PushIfPresent(fields, values, TextField(Name, name), []);
    assert [] + Pick(TextField(Name, name)) == Pick(TextField(Name, name));
    ghost var chosen := Pick(TextField(Name, name));
    fields, values := PushIfPresent(fields, values, TextField(Description, description), chosen);
    chosen := chosen + Pick(TextField(Description, description));
    fields, values := PushIfPresent(fields, values, TextField(Category, category), chosen);
    chosen := chosen + Pick(TextField(Category, category));
    fields, values := PushIfPresent(fields, values, TextField(Model, model), chosen);
    chosen := chosen + Pick(TextField(Model, model));
    fields, values := PushIfPresent(fields, values, TextField(Condition, condition), chosen);
    chosen := chosen + Pick(TextField(Condition, condition));
    fields, values := PushIfPresent(fields, values, DefinedField(Approved, approved), chosen);
    chosen := chosen + Pick(DefinedField(Approved, approved));
    fields, values := PushIfPresent(fields, values, DefinedField(Price, price), chosen);
    chosen := chosen + Pick(DefinedField(Price, price));
    ProductBuilderDone(idProduct, name, description, category, model, condition, approved, price, chosen, fields, values);
    if |fields| == 0 {
      return Err(NO_FIELDS_TO_UPDATE);
    }
    r := Ok(UpdateStatement("products", fields, "id_product", |fields| + 1, values + [Num(idProduct)]));
  }

  /** The seven optional parameters, position by position, over distinct columns. */
  lemma ProductFieldsShape(name: JsValue, description: JsValue, category: JsValue, model: JsValue,
                           condition: JsValue, approved: JsValue, price: JsValue)
    ensures var fs := ProductFields(name, description, category, model, condition, approved, price);
      && |fs| == 7
      && fs[0] == TextField(Name, name) && fs[1] == TextField(Description, description)
      && fs[2] == TextField(Category, category) && fs[3] == TextField(Model, model)
      && fs[4] == TextField(Condition, condition) && fs[5] == DefinedField(Approved, approved)
      && fs[6] == DefinedField(Price, price)
      && (forall p :: 0 <= p < 7 ==> fs[p].column == PRODUCT_UPDATE_COLUMNS[p])
      && DistinctColumns(fs)
      && (forall f :: f in fs ==> f.column != IdUser && f.column != Picture)
  {
  }

  /** Which columns `updateProduct` writes: a text column exactly when its
      parameter is truthy (so "" is skipped), `approved` and `price` exactly
      when not undefined (so false and 0 are written). */
  lemma ProductUpdatePresence(idProduct: int, name: JsValue, description: JsValue, category: JsValue,
                              model: JsValue, condition: JsValue, approved: JsValue, price: JsValue)
    requires Statement("products", "id_product",
                       ProductFields(name, description, category, model, condition, approved, price),
                       Num(idProduct)).Ok?
    ensures var u := Statement("products", "id_product",
                               ProductFields(name, description, category, model, condition, approved, price),
                               Num(idProduct)).value;
      && (Writes(u, Name) <==> Truthy(name))
      && (Writes(u, Description) <==> Truthy(description))
      && (Writes(u, Category) <==> Truthy(category))
      && (Writes(u, Model) <==> Truthy(model))
      && (Writes(u, Condition) <==> Truthy(condition))
      && (Writes(u, Approved) <==> approved != Undefined)
      && (Writes(u, Price) <==> price != Undefined)
  {
    var fields := ProductFields(name, description, category, model, condition, approved, price);
    ProductFieldsShape(name, description, category, model, condition, approved, price);
    WritesIffFieldPresent("products", "id_product", fields, Num(idProduct), 0);
    WritesIffFieldPresent("products", "id_product", fields, Num(idProduct), 1);
    WritesIffFieldPresent("products", "id_product", fields, Num(idProduct), 2);
    WritesIffFieldPresent("products", "id_product", fields, Num(idProduct), 3);
    WritesIffFieldPresent("products", "id_product", fields, Num(idProduct), 4);
    WritesIffFieldPresent("products", "id_product", fields, Num(idProduct), 5);
    WritesIffFieldPresent("products", "id_product", fields, Num(idProduct), 6);
  }

  /** The fragments come in the fixed order name, description, category,
      model, condition, approved, price, restricted to those present. */
  lemma ProductUpdateOrder(idProduct: int, name: JsValue, description: JsValue, category: JsValue,
                           model: JsValue, condition: JsValue, approved: JsValue, price: JsValue, i: nat, j: nat)
    requires Statement("products", "id_product",
                       ProductFields(name, description, category, model, condition, approved, price),
                       Num(idProduct)).Ok?
    requires i < j < |Statement("products", "id_product",
                                ProductFields(name, description, category, model, condition, approved, price),
                                Num(idProduct)).value.sets|
    ensures var u := Statement("products", "id_product",
                               ProductFields(name, description, category, model, condition, approved, price),
                               Num(idProduct)).value;
      exists p, q ::
        && 0 <= p < q < |PRODUCT_UPDATE_COLUMNS|
        && PRODUCT_UPDATE_COLUMNS[p] == u.sets[i].column
        && PRODUCT_UPDATE_COLUMNS[q] == u.sets[j].column
  {
    var fields := ProductFields(name, description, category, model, condition, approved, price);
    ProductFieldsShape(name, description, category, model, condition, approved, price);
    ColumnsInFieldOrder("products", "id_product", fields, Num(idProduct), i, j);
  }

  // ---------------------------------------------------------------------
  // Lookups and reads, each carrying the product's image links

  /** `SELECT * FROM products WHERE id_product = $1`: the row with that id, if any. */
  function ProductWithId(rows: seq<Product>, idProduct: int): (r: Option<Product>)
    ensures r.Some? <==> exists p :: p in rows && p.idProduct == idProduct
    ensures r.Some? ==> r.value in rows && r.value.idProduct == idProduct
  {
    FirstWhere(rows, (p: Product) => p.idProduct == idProduct)
  }

  function LinksOf(images: seq<Image>): seq<string>
  {
    seq(|images|, k requires 0 <= k < |images| => images[k].link)
  }

  /** A product with `COALESCE(array_agg(i.link) FILTER (WHERE i.link IS NOT NULL), '{}')`
      over its images: the links of exactly the images that belong to it, and
      the empty sequence, never null, when it has none. */
  function WithImages(p: Product, images: seq<Image>): (v: ProductView)
    ensures v.product == p
    ensures v.images == [] <==> forall i :: i in images ==> i.idProduct != p.idProduct
    ensures forall i :: i in images && i.idProduct == p.idProduct ==> i.link in v.images
    ensures forall l :: l in v.images ==> exists i :: i in images && i.idProduct == p.idProduct && i.link == l
  {
    var own := GetImagesByProductId(images, p.idProduct);
    var links := LinksOf(own);
    assert forall i :: i in own ==> i.link in links by {
      forall i | i in own
        ensures i.link in links
      {
        var k :| 0 <= k < |own| && own[k] == i;
        assert links[k] == i.link;
      }
    }
    assert forall l :: l in links ==> exists i :: i in own && i.link == l by {
      forall l | l in links
        ensures exists i :: i in own && i.link == l
      {
        var k :| 0 <= k < |links| && links[k] == l;
        assert own[k] in own;
      }
    }
    assert own != [] ==> own[0] in own;
    ProductView(p, links)
  }

  function Views(products: seq<Product>, images: seq<Image>): (r: seq<ProductView>)
    ensures forall p :: p in products ==> WithImages(p, images) in r
    ensures forall v :: v in r ==> v.product in products && v == WithImages(v.product, images)
  {
    var r := seq(|products|, k requires 0 <= k < |products| => WithImages(products[k], images));
    assert forall p :: p in products ==> WithImages(p, images) in r by {
      forall p | p in products
        ensures WithImages(p, images) in r
      {
        var k :| 0 <= k < |products| && products[k] == p;
        assert r[k] == WithImages(p, images);
      }
    }
    r
  }

  predicate IsApproved(p: Product)
  {
    p.approved
  }

  /** `getAllProducts`: every row, each with its images. */
  function GetAllProducts(products: seq<Product>, images: seq<Image>): (r: seq<ProductView>)
    ensures forall p :: p in products ==> WithImages(p, images) in r
    ensures forall v :: v in r ==> v.product in products && v == WithImages(v.product, images)
  {
    Views(products, images)
  }

  /** `getApprovedProducts`: exactly the approved rows, each with its images. */
  function GetApprovedProducts(products: seq<Product>, images: seq<Image>): (r: seq<ProductView>)
    ensures forall p :: p in products && p.approved ==> WithImages(p, images) in r
    ensures forall v :: v in r ==> v.product in products && v.product.approved && v == WithImages(v.product, images)
  {
    Views(Where(products, IsApproved), images)
  }

  /** `getProductByCategory`: exactly the approved rows of that category. */
  function GetProductByCategory(products: seq<Product>, images: seq<Image>, category: string): (r: seq<ProductView>)
    ensures forall p :: p in products && p.approved && p.category == category ==> WithImages(p, images) in r
    ensures forall v :: v in r ==>
      v.product in products && v.product.approved && v.product.category == category && v == WithImages(v.product, images)
  {
    Views(Where(products, (p: Product) => p.category == category && p.approved), images)
  }

  /** `getProductById`: the row with that id, approved or not, or null. */
  function GetProductById(products: seq<Product>, images: seq<Image>, idProduct: int): (r: Option<ProductView>)
    ensures r.Some? <==> exists p :: p in products && p.idProduct == idProduct
    ensures r.Some? ==> r.value.product in products && r.value.product.idProduct == idProduct
    ensures r.Some? ==> r.value == WithImages(r.value.product, images)
  {
    match ProductWithId(products, idProduct)
    case None => None
    case Some(p) => Some(WithImages(p, images))
  }

  /** `getApprovedProductById`: the row with that id only if it is approved, else null. */
  function GetApprovedProductById(products: seq<Product>, images: seq<Image>, idProduct: int): (r: Option<ProductView>)
    ensures r.Some? <==> exists p :: p in products && p.idProduct == idProduct && p.approved
    ensures r.Some? ==> r.value.product in products && r.value.product.idProduct == idProduct && r.value.product.approved
    ensures r.Some? ==> r.value == WithImages(r.value.product, images)
  {
    match FirstWhere(products, (p: Product) => p.idProduct == idProduct && p.approved)
    case None => None
    case Some(p) => Some(WithImages(p, images))
  }

  /** `getProductByUser`: every row that user owns, approved or not. */
  function GetProductByUser(products: seq<Product>, images: seq<Image>, idUser: int): (r: seq<ProductView>)
    ensures forall p :: p in products && p.idUser == idUser ==> WithImages(p, images) in r
    ensures forall v :: v in r ==> v.product in products && v.product.idUser == idUser && v == WithImages(v.product, images)
  {
    Views(Where(products, (p: Product) => p.idUser == idUser), images)
  }

  // ---------------------------------------------------------------------
  // Mutations

  /** The table after `UPDATE products SET approved = true WHERE id_product = $1`. */
  function ApprovedRows(rows: seq<Product>, idProduct: int): (r: seq<Product>)
    ensures |r| == |rows|
    ensures forall k :: 0 <= k < |rows| ==> r[k] == if rows[k].idProduct == idProduct then rows[k].(approved := true) else rows[k]
  {
    seq(|rows|, k requires 0 <= k < |rows| => if rows[k].idProduct == idProduct then rows[k].(approved := true) else rows[k])
  }

  /** The table after `DELETE FROM products WHERE id_product = $1`. */
  function WithoutProduct(rows: seq<Product>, idProduct: int): (r: seq<Product>)
    ensures forall p :: p in r <==> p in rows && p.idProduct != idProduct
    ensures Increasing(rows, ProductKey) ==> Increasing(r, ProductKey)
  {
    var keep := (p: Product) => p.idProduct != idProduct;
    WhereKeepsIncreasing(rows, keep, ProductKey);
    Where(rows, keep)
  }

  /** The table with the row of `q`'s id replaced by `q`. */
  function ReplaceProduct(rows: seq<Product>, q: Product): (r: seq<Product>)
    ensures |r| == |rows|
    ensures forall k :: 0 <= k < |rows| ==> r[k] == if rows[k].idProduct == q.idProduct then q else rows[k]
  {
    seq(|rows|, k requires 0 <= k < |rows| => if rows[k].idProduct == q.idProduct then q else rows[k])
  }

  /** What an update statement does: the row `RETURNING *` yields (none when
      no row has the key), and the table afterwards. */
  datatype UpdateEffect = UpdateEffect(returned: Result<Option<Product>>, rows: seq<Product>)

  /** Whether every SET parameter of `u` fits the column it is bound to. */
  predicate UpdateParamsFit(u: UpdateStatement<ProductCol>)
    requires PlaceholdersInRange(u.sets, u.values)
  {
    forall k :: 0 <= k < |u.sets| ==> FitsProductColumn(u.sets[k].column, u.values[u.sets[k].placeholder - 1])
  }

  /** `pool.query(query, values)` for an UPDATE on products keyed by
      id_product. The parameters are bound before any row is looked at, so
      a parameter that does not fit fails the whole statement, whether or
      not the key exists, and nothing changes. Otherwise the SET fragments
      are applied to the row with that key, which `RETURNING *` hands back;
      with no such row nothing changes and nothing is returned. */
  function ExecuteProductUpdate(rows: seq<Product>, u: UpdateStatement<ProductCol>): (e: UpdateEffect)
    requires WellNumbered(u)
    ensures e.returned.Ok? && e.returned.value.Some? ==>
      && u.values[u.keyPlaceholder - 1].Num?
      && ProductWithId(rows, u.values[u.keyPlaceholder - 1].n).Some?
      && PlaceholdersInRange(u.sets, u.values)
      && ApplyToProduct(ProductWithId(rows, u.values[u.keyPlaceholder - 1].n).value, u.sets, u.values) == Ok(e.returned.value.value)
      && e.returned.value.value.idProduct == u.values[u.keyPlaceholder - 1].n
      && e.rows == ReplaceProduct(rows, e.returned.value.value)
    ensures !(e.returned.Ok? && e.returned.value.Some?) ==> e.rows == rows
    ensures e.returned.Ok? <==>
      u.values[u.keyPlaceholder - 1].Num? && PlaceholdersInRange(u.sets, u.values) && UpdateParamsFit(u)
    ensures e.returned.Ok? && e.returned.value.None? <==>
      && u.values[u.keyPlaceholder - 1].Num? && PlaceholdersInRange(u.sets, u.values) && UpdateParamsFit(u)
      && ProductWithId(rows, u.values[u.keyPlaceholder - 1].n).None?
  {
    WellNumberedInRange(u);
    var key := u.values[u.keyPlaceholder - 1];
    if !key.Num? then UpdateEffect(Err("invalid input for column id_product"), rows)
    else if !UpdateParamsFit(u) then UpdateEffect(Err("invalid input for a column of products"), rows)
    else
      match ProductWithId(rows, key.n)
      case None => UpdateEffect(Ok(None), rows)
      case Some(p) =>
        var q := ApplyToProduct(p, u.sets, u.values).value;
        UpdateEffect(Ok(Some(q)), ReplaceProduct(rows, q))
  }

  /** What `updateProduct` does to the table: build the statement, then run it. */
  function ProductUpdateEffect(rows: seq<Product>, idProduct: int, name: JsValue, description: JsValue,
                               category: JsValue, model: JsValue, condition: JsValue,
                               approved: JsValue, price: JsValue): UpdateEffect
  {
    match Statement("products", "id_product",
                    ProductFields(name, description, category, model, condition, approved, price), Num(idProduct))
    case Err(e) => UpdateEffect(Err(e), rows)
    case Ok(u) => ExecuteProductUpdate(rows, u)
  }

  /** Applying a statement built over distinct columns: a present field's
      column holds the field's value. */
  lemma ApplyWritesPresentField(p: Product, fields: seq<Field<ProductCol>>, key: JsValue, i: nat)
    requires DistinctColumns(fields)
    requires i < |fields| && fields[i].present
    requires Statement("products", "id_product", fields, key).Ok?
    requires var u := Statement("products", "id_product", fields, key).value;
      PlaceholdersInRange(u.sets, u.values) && ApplyToProduct(p, u.sets, u.values).Ok?
    ensures var u := Statement("products", "id_product", fields, key).value;
      ProductColumn(ApplyToProduct(p, u.sets, u.values).value, fields[i].column) == fields[i].value
  {
    var u := Statement("products", "id_product", fields, key).value;
    var k := StatementWritesFieldOnce("products", "id_product", fields, key, i);
    ApplyWritesColumn(p, u.sets, u.values, k);
  }

  /** Applying a statement: a column no present field names keeps its value. */
  lemma ApplyKeepsUnwrittenColumn(p: Product, fields: seq<Field<ProductCol>>, key: JsValue, c: ProductCol)
    requires forall i :: 0 <= i < |fields| && fields[i].column == c ==> !fields[i].present
    requires Statement("products", "id_product", fields, key).Ok?
    requires var u := Statement("products", "id_product", fields, key).value;
      PlaceholdersInRange(u.sets, u.values) && ApplyToProduct(p, u.sets, u.values).Ok?
    ensures var u := Statement("products", "id_product", fields, key).value;
      ProductColumn(ApplyToProduct(p, u.sets, u.values).value, c) == ProductColumn(p, c)
  {
    var u := Statement("products", "id_product", fields, key).value;
    var chosen := Chosen(fields);
    forall k | 0 <= k < |u.sets|
      ensures u.sets[k].column != c
    {
      assert chosen[k] in chosen;
    }
    ApplyKeepsOtherColumns(p, u.sets, u.values, c);
  }

  /** Running a statement built over distinct columns finds the row with the
      key and replaces it by a row with the same id. */
  lemma ExecuteReplacesRow(rows: seq<Product>, fields: seq<Field<ProductCol>>, idProduct: int)
    requires Statement("products", "id_product", fields, Num(idProduct)).Ok?
    requires var e := ExecuteProductUpdate(rows, Statement("products", "id_product", fields, Num(idProduct)).value);
      e.returned.Ok? && e.returned.value.Some?
    ensures ProductWithId(rows, idProduct).Some?
    ensures var e := ExecuteProductUpdate(rows, Statement("products", "id_product", fields, Num(idProduct)).value);
      && e.returned.value.value.idProduct == idProduct
      && e.rows == ReplaceProduct(rows, e.returned.value.value)
  {
  }

  /** Running a statement built over distinct columns: the i-th field's
      column holds the field's value when it is present, its old value otherwise. */
  lemma ExecuteSetsField(rows: seq<Product>, fields: seq<Field<ProductCol>>, idProduct: int, i: nat)
    requires DistinctColumns(fields)
    requires i < |fields|
    requires Statement("products", "id_product", fields, Num(idProduct)).Ok?
    requires var e := ExecuteProductUpdate(rows, Statement("products", "id_product", fields, Num(idProduct)).value);
      e.returned.Ok? && e.returned.value.Some?
    ensures ProductWithId(rows, idProduct).Some?
    ensures var e := ExecuteProductUpdate(rows, Statement("products", "id_product", fields, Num(idProduct)).value);
      var p, q := ProductWithId(rows, idProduct).value, e.returned.value.value;
      ProductColumn(q, fields[i].column) == if fields[i].present then fields[i].value else ProductColumn(p, fields[i].column)
  {
    var p := ProductWithId(rows, idProduct).value;
    if fields[i].present {
      ApplyWritesPresentField(p, fields, Num(idProduct), i);
    } else {
      forall j | 0 <= j < |fields| && fields[j].column == fields[i].column
        ensures !fields[j].present
      {
        assert j == i;
      }
      ApplyKeepsUnwrittenColumn(p, fields, Num(idProduct), fields[i].column);
    }
  }

  /** Running a statement: a column outside the fields keeps its value. */
  lemma ExecuteKeepsColumn(rows: seq<Product>, fields: seq<Field<ProductCol>>, idProduct: int, c: ProductCol)
    requires forall f :: f in fields ==> f.column != c
    requires Statement("products", "id_product", fields, Num(idProduct)).Ok?
    requires var e := ExecuteProductUpdate(rows, Statement("products", "id_product", fields, Num(idProduct)).value);
      e.returned.Ok? && e.returned.value.Some?
    ensures ProductWithId(rows, idProduct).Some?
    ensures var e := ExecuteProductUpdate(rows, Statement("products", "id_product", fields, Num(idProduct)).value);
      var p, q := ProductWithId(rows, idProduct).value, e.returned.value.value;
      ProductColumn(q, c) == ProductColumn(p, c)
  {
    assert forall j :: 0 <= j < |fields| ==> fields[j] in fields;
    ApplyKeepsUnwrittenColumn(ProductWithId(rows, idProduct).value, fields, Num(idProduct), c);
  }

  /** Partial update correctness: the updated row keeps its id; each of the
      seven optional columns holds the caller's value when the parameter
      counts as present and its old value otherwise; `id_user` and `picture`
      are untouched; the table has that row replaced and no other change. */
  lemma ProductUpdateWritesOnlyPresent(rows: seq<Product>, idProduct: int, name: JsValue, description: JsValue,
                                       category: JsValue, model: JsValue, condition: JsValue,
                                       approved: JsValue, price: JsValue)
    requires ProductUpdateEffect(rows, idProduct, name, description, category, model, condition, approved, price).returned.Ok?
    requires ProductUpdateEffect(rows, idProduct, name, description, category, model, condition, approved, price).returned.value.Some?
    ensures ProductWithId(rows, idProduct).Some?
    ensures var e := ProductUpdateEffect(rows, idProduct, name, description, category, model, condition, approved, price);
      var p, q := ProductWithId(rows, idProduct).value, e.returned.value.value;
      && q.idProduct == idProduct
      && ProductColumn(q, Name) == (if Truthy(name) then name else ProductColumn(p, Name))
      && ProductColumn(q, Description) == (if Truthy(description) then description else ProductColumn(p, Description))
      && ProductColumn(q, Category) == (if Truthy(category) then category else ProductColumn(p, Category))
      && ProductColumn(q, Model) == (if Truthy(model) then model else ProductColumn(p, Model))
      && ProductColumn(q, Condition) == (if Truthy(condition) then condition else ProductColumn(p, Condition))
      && ProductColumn(q, Approved) == (if approved != Undefined then approved else ProductColumn(p, Approved))
      && ProductColumn(q, Price) == (if price != Undefined then price else ProductColumn(p, Price))
      && ProductColumn(q, IdUser) == ProductColumn(p, IdUser)
      && ProductColumn(q, Picture) == ProductColumn(p, Picture)
      && e.rows == ReplaceProduct(rows, q)
  {
    var fields := ProductFields(name, description, category, model, condition, approved, price);
    ProductFieldsShape(name, description, category, model, condition, approved, price);
    ExecuteReplacesRow(rows, fields, idProduct);
    ExecuteSetsField(rows, fields, idProduct, 0);
    ExecuteSetsField(rows, fields, idProduct, 1);
    ExecuteSetsField(rows, fields, idProduct, 2);
    ExecuteSetsField(rows, fields, idProduct, 3);
    ExecuteSetsField(rows, fields, idProduct, 4);
    ExecuteSetsField(rows, fields, idProduct, 5);
    ExecuteSetsField(rows, fields, idProduct, 6);
    ExecuteKeepsColumn(rows, fields, idProduct, IdUser);
    ExecuteKeepsColumn(rows, fields, idProduct, Picture);
  }

  /** Whether the parameters of `createProduct`'s INSERT fit their columns:
      five strings, then the numbers `id_user` and `price`. */
  predicate InsertFits(name: JsValue, description: JsValue, category: JsValue, model: JsValue,
                       condition: JsValue, idUser: JsValue, price: JsValue)
  {
    && FitsProductColumn(Name, name) && FitsProductColumn(Description, description)
    && FitsProductColumn(Category, category) && FitsProductColumn(Model, model)
    && FitsProductColumn(Condition, condition) && FitsProductColumn(IdUser, idUser)
    && FitsProductColumn(Price, price)
  }

  /** The `products` table, with its serial `id_product`. */
  class ProductTable {
    var rows: seq<Product>
    var nextId: int

    ghost predicate Valid()
      reads this
    {
      ValidRows(rows, nextId)
    }

    constructor ()
      ensures Valid() && rows == []
    {
      rows := [];
      nextId := 1;
    }

    /** `INSERT INTO products (...) VALUES (...)` with `approved` fixed to
        false whatever the caller intends; fails when a parameter does not fit
        its column. */
    method CreateProduct(name: JsValue, description: JsValue, category: JsValue, model: JsValue,
                         condition: JsValue, idUser: JsValue, price: JsValue)
      returns (r: Result<Product>)
      requires Valid()
      modifies this
      ensures Valid()
      ensures r.Ok? <==> InsertFits(name, description, category, model, condition, idUser, price)
      ensures r.Ok? ==> !r.value.approved && r.value.picture == None
      ensures r.Ok? ==> r.value.name == name.s && r.value.description == description.s
                        && r.value.category == category.s && r.value.model == model.s
                        && r.value.condition == condition.s && r.value.idUser == idUser.n && r.value.price == price.n
      ensures r.Ok? ==> forall p :: p in old(rows) ==> p.idProduct != r.value.idProduct
      ensures r.Ok? ==> rows == old(rows) + [r.value]
      ensures r.Err? ==> rows == old(rows)
      ensures r.Ok? ==> r.value.idProduct == old(nextId) && nextId == old(nextId) + 1
      ensures r.Err? ==> nextId == old(nextId)
    {
      if !InsertFits(name, description, category, model, condition, idUser, price) {
        return Err("invalid input for column of products");
      }
      var p := Product(nextId, name.s, description.s, category.s, model.s, condition.s, false, idUser.n, None, price.n);
      AppendKeepsIncreasing(rows, p, ProductKey);
      rows := rows + [p];
      nextId := nextId + 1;
      r := Ok(p);
    }

    /** `updateProduct`: build the partial update and run it. */
    method UpdateProduct(idProduct: int, name: JsValue, description: JsValue, category: JsValue,
                         model: JsValue, condition: JsValue, approved: JsValue, price: JsValue)
      returns (r: Result<Option<Product>>)
      requires Valid()
      modifies this
      ensures Valid() && nextId == old(nextId)
      ensures UpdateEffect(r, rows) ==
        ProductUpdateEffect(old(rows), idProduct, name, description, category, model, condition, approved, price)
    {
      ProductUpdateKeepsValid(rows, nextId, idProduct, name, description, category, model, condition, approved, price);
      var statement := BuildProductUpdate(idProduct, name, description, category, model, condition, approved, price);
      if statement.Err? {
        return Err(statement.message);
      }
      var effect := ExecuteProductUpdate(rows, statement.value);
      rows := effect.rows;
      r := effect.returned;
    }

    /** `approveProduct`: sets `approved` on the row with that id and returns the id. */
    method ApproveProduct(idProduct: int) returns (r: int)
      requires Valid()
      modifies this
      ensures Valid() && nextId == old(nextId)
      ensures r == idProduct
      ensures rows == ApprovedRows(old(rows), idProduct)
    {
      rows := ApprovedRows(rows, idProduct);
      r := idProduct;
    }

    /** `deleteProduct`: removes the row with that id and returns the id. */
    method DeleteProduct(idProduct: int) returns (r: int)
      requires Valid()
      modifies this
      ensures Valid() && nextId == old(nextId)
      ensures r == idProduct
      ensures rows == WithoutProduct(old(rows), idProduct)
    {
      rows := WithoutProduct(rows, idProduct);
      r := idProduct;
    }
  }

  /** The invariant of the table: a positive serial counter, ids strictly
      increasing in storage order, every id issued by the counter. */
  ghost predicate ValidRows(rows: seq<Product>, nextId: int)
  {
    && 0 < nextId
    && Increasing(rows, ProductKey)
    && forall p :: p in rows ==> 0 < p.idProduct < nextId
  }

  /** Running an update statement keeps the invariant. */
  lemma ExecuteKeepsValid(rows: seq<Product>, nextId: int, u: UpdateStatement<ProductCol>)
    requires WellNumbered(u)
    requires ValidRows(rows, nextId)
    ensures ValidRows(ExecuteProductUpdate(rows, u).rows, nextId)
  {
    var e := ExecuteProductUpdate(rows, u);
    if e.returned.Ok? && e.returned.value.Some? {
      ReplaceKeepsValid(rows, nextId, e.returned.value.value);
    }
  }

  /** `updateProduct` keeps the invariant, whatever its parameters. */
  lemma ProductUpdateKeepsValid(rows: seq<Product>, nextId: int, idProduct: int, name: JsValue, description: JsValue,
                                category: JsValue, model: JsValue, condition: JsValue,
                                approved: JsValue, price: JsValue)
    requires ValidRows(rows, nextId)
    ensures ValidRows(ProductUpdateEffect(rows, idProduct, name, description, category, model, condition, approved, price).rows, nextId)
  {
    var s := Statement("products", "id_product",
                       ProductFields(name, description, category, model, condition, approved, price), Num(idProduct));
    if s.Ok? {
      ExecuteKeepsValid(rows, nextId, s.value);
    }
  }

  /** Replacing a row by one with the same id keeps the invariant. */
  lemma ReplaceKeepsValid(rows: seq<Product>, nextId: int, q: Product)
    requires ValidRows(rows, nextId)
    requires ProductWithId(rows, q.idProduct).Some?
    ensures ValidRows(ReplaceProduct(rows, q), nextId)
  {
    var r := ReplaceProduct(rows, q);
    assert forall k :: 0 <= k < |rows| ==> r[k].idProduct == rows[k].idProduct;
    forall p | p in r
      ensures 0 < p.idProduct < nextId
    {
      var k :| 0 <= k < |r| && r[k] == p;
      assert rows[k] in rows;
    }
  }


  /** Moderation gate: once approved, a product appears in the approved
      listing and in its category listing. */
  lemma ApprovedProductIsListed(rows: seq<Product>, images: seq<Image>, idProduct: int, p: Product)
    requires p in rows && p.idProduct == idProduct
    ensures WithImages(p.(approved := true), images) in GetApprovedProducts(ApprovedRows(rows, idProduct), images)
    ensures WithImages(p.(approved := true), images) in GetProductByCategory(ApprovedRows(rows, idProduct), images, p.category)
  {
    var k :| 0 <= k < |rows| && rows[k] == p;
    assert ApprovedRows(rows, idProduct)[k] == p.(approved := true);
  }

  /** A freshly created product is in no public listing until it is approved. */
  lemma CreatedProductIsHidden(rows: seq<Product>, images: seq<Image>, p: Product, category: string)
    requires !p.approved
    requires forall x :: x in rows ==> x.idProduct != p.idProduct
    ensures forall v :: v in GetApprovedProducts(rows + [p], images) ==> v.product.idProduct != p.idProduct
    ensures forall v :: v in GetProductByCategory(rows + [p], images, category) ==> v.product.idProduct != p.idProduct
    ensures GetApprovedProductById(rows + [p], images, p.idProduct) == None
  {
  }
}
