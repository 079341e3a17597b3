/** The tag handlers (DB/controllers/tags.controller.ts). */
module TagsController {
  import opened Js
  import opened Http
  import opened TagsService

  /** `getTagsByProductId`: 400 for a 0 or NaN id, otherwise 200 with the
      product's tags (possibly none). */
  function GetTagsByProductReply(tags: seq<Tag>, idProduct: NumberValue): (r: Reply<seq<Tag>>)
    ensures r.status == BAD_REQUEST <==> !Truthy(idProduct)
    ensures r.status == OK <==> r.payload.Some?
    ensures r.status in {OK, BAD_REQUEST}
    ensures r.payload.Some? ==> idProduct.Num? && forall t :: t in r.payload.value <==> t in tags && t.idProduct == idProduct.n
  {
    if !Truthy(idProduct) then Reply(BAD_REQUEST, None)
    else Reply(OK, Some(GetTagsByProductId(tags, idProduct.n)))
  }

  /** `createTag`: 400 when `name` or `id_product` is falsy, without touching
      the table; otherwise the insert, answered 201 with the new row, or 500
      when a value does not fit its column. */
  method CreateTag(tags: TagTable, name: JsValue, idProduct: JsValue) returns (status: int, created: Option<Tag>)
    requires tags.Valid()
    modifies tags
    ensures tags.Valid()
    ensures status == BAD_REQUEST <==> !(Truthy(name) && Truthy(idProduct))
    ensures status == CREATED <==> Truthy(name) && Truthy(idProduct) && name.Str? && idProduct.Num?
    ensures status != CREATED ==> created == None && tags.rows == old(tags.rows)
    ensures status != CREATED && status != BAD_REQUEST ==> status == SERVER_ERROR
    ensures status == CREATED ==>
      && created.Some? && created.value.name == name.s && created.value.idProduct == idProduct.n
      && tags.rows == old(tags.rows) + [created.value]
  {
    if !Truthy(name) || !Truthy(idProduct) {
      return BAD_REQUEST, None;
    }
    var r := tags.CreateTag(name, idProduct);
    if r.Err? {
      return SERVER_ERROR, None;
    }
    status, created := CREATED, Some(r.value);
  }

  /** `deleteTag`: 400 for a 0 or NaN id; otherwise, with no token check at
      all, the row goes and the answer is 204. */
  method DeleteTag(tags: TagTable, idTag: NumberValue) returns (status: int)
    requires tags.Valid()
    modifies tags
    ensures tags.Valid()
    ensures status == BAD_REQUEST <==> !Truthy(idTag)
    ensures status != BAD_REQUEST ==> status == NO_CONTENT && tags.rows == WithoutTag(old(tags.rows), idTag.n)
    ensures status == BAD_REQUEST ==> tags.rows == old(tags.rows)
  {
    if !Truthy(idTag) {
      return BAD_REQUEST;
    }
    tags.DeleteTag(idTag.n);
    status := NO_CONTENT;
  }

  /** A tag just created is listed for its product; after `deleteTag` of
      its id it is not, and the product's other tags still are. */
  lemma CreatedTagListedUntilDeleted(rows: seq<Tag>, tag: Tag)
    requires forall t :: t in rows ==> t.idTag != tag.idTag
    requires tag.idProduct != 0
    ensures tag in GetTagsByProductReply(rows + [tag], Num(tag.idProduct)).payload.value
    ensures tag !in GetTagsByProductReply(WithoutTag(rows + [tag], tag.idTag), Num(tag.idProduct)).payload.value
    ensures forall t :: t in rows && t.idProduct == tag.idProduct ==>
      t in GetTagsByProductReply(WithoutTag(rows + [tag], tag.idTag), Num(tag.idProduct)).payload.value
  {
  }
}
