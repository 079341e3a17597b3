/** The image handlers (DB/controllers/images.controller.ts). Route ids
    arrive as `Number(req.params.id)`; `!id` turns away 0 and NaN. */
module ImagesController {
  import opened Js
  import opened Http
  import opened ImagesService

  /** `getImageById`: 400 for a 0 or NaN id, 404 when no image has it,
      otherwise 200 with that image. */
  function GetImageReply(images: seq<Image>, idImage: NumberValue): (r: Reply<Image>)
    ensures r.status == BAD_REQUEST <==> !Truthy(idImage)
    ensures r.status == NOT_FOUND <==> Truthy(idImage) && forall i :: i in images ==> i.idImage != idImage.n
    ensures r.status == OK <==> r.payload.Some?
    ensures r.payload.Some? ==> idImage.Num? && r.payload.value in images && r.payload.value.idImage == idImage.n
    ensures r.status in {OK, BAD_REQUEST, NOT_FOUND}
  {
    if !Truthy(idImage) then Reply(BAD_REQUEST, None)
    else
      match GetImageById(images, idImage.n)
      case None => Reply(NOT_FOUND, None)
      case Some(image) => Reply(OK, Some(image))
  }

  /** `getImagesByProductId`: 400 for a 0 or NaN id, otherwise 200 with the
      product's images (possibly none; an unknown product is not 404). */
  function GetImagesByProductReply(images: seq<Image>, idProduct: NumberValue): (r: Reply<seq<Image>>)
    ensures r.status == BAD_REQUEST <==> !Truthy(idProduct)
    ensures r.status == OK <==> r.payload.Some?
    ensures r.status in {OK, BAD_REQUEST}
    ensures r.payload.Some? ==> idProduct.Num? && forall i :: i in r.payload.value <==> i in images && i.idProduct == idProduct.n
  {
    if !Truthy(idProduct) then Reply(BAD_REQUEST, None)
    else Reply(OK, Some(GetImagesByProductId(images, idProduct.n)))
  }

  /** `createImage`: 400 when `link` or `id_product` is falsy, without
      touching the table; otherwise the insert, answered 201 with the new
      row, or 500 when a value does not fit its column. */
  method CreateImage(images: ImageTable, link: JsValue, idProduct: JsValue) returns (status: int, created: Option<Image>)
    requires images.Valid()
    modifies images
    ensures images.Valid()
    ensures status == BAD_REQUEST <==> !(Truthy(link) && Truthy(idProduct))
    ensures status == CREATED <==> Truthy(link) && Truthy(idProduct) && link.Str? && idProduct.Num?
    ensures status != CREATED ==> created == None && images.rows == old(images.rows)
    ensures status != CREATED && status != BAD_REQUEST ==> status == SERVER_ERROR
    ensures status == CREATED ==>
      && created.Some? && created.value.link == link.s && created.value.idProduct == idProduct.n
      && images.rows == old(images.rows) + [created.value]
  {
    if !Truthy(link) || !Truthy(idProduct) {
      return BAD_REQUEST, None;
    }
    var r := images.CreateImage(link, idProduct);
    if r.Err? {
      return SERVER_ERROR, None;
    }
    status, created := CREATED, Some(r.value);
  }

  /** `deleteImage`: 400 for a 0 or NaN id, 401 without a token user (any
      authenticated user may delete any image: there is no ownership check);
      otherwise the row goes and the answer is 204. */
  method DeleteImage(images: ImageTable, idImage: NumberValue, tokenUserId: JsValue) returns (status: int)
    requires images.Valid()
    modifies images
    ensures images.Valid()
    ensures status == BAD_REQUEST <==> !Truthy(idImage)
    ensures status == UNAUTHORIZED <==> Truthy(idImage) && !Truthy(tokenUserId)
    ensures status == NO_CONTENT <==> Truthy(idImage) && Truthy(tokenUserId)
    ensures status != NO_CONTENT ==> images.rows == old(images.rows)
    ensures status == NO_CONTENT ==> images.rows == WithoutImage(old(images.rows), idImage.n)
  {
    if !Truthy(idImage) {
      return BAD_REQUEST;
    }
    if !Truthy(tokenUserId) {
      return UNAUTHORIZED;
    }
    images.DeleteImage(idImage.n);
    status := NO_CONTENT;
  }

  /** An image just created is listed for its product, and reads back by
      its id, until it is deleted; after `deleteImage` it reads as 404 and
      the product's other images stay listed. */
  lemma CreatedImageReadsBack(rows: seq<Image>, image: Image)
    requires forall i :: i in rows ==> i.idImage != image.idImage
    requires image.idImage != 0 && image.idProduct != 0
    ensures GetImageReply(rows + [image], Num(image.idImage)) == Reply(OK, Some(image))
    ensures image in GetImagesByProductReply(rows + [image], Num(image.idProduct)).payload.value
    ensures GetImageReply(WithoutImage(rows + [image], image.idImage), Num(image.idImage)).status == NOT_FOUND
    ensures forall i :: i in rows && i.idProduct == image.idProduct ==>
      i in GetImagesByProductReply(WithoutImage(rows + [image], image.idImage), Num(image.idProduct)).payload.value
  {
    var found := GetImageById(rows + [image], image.idImage);
    assert image in rows + [image];
    assert found.value in rows + [image];
    assert found.value !in rows;
  }
}
