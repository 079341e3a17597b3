/** The tags table and the service functions over it
    (DB/services/tags.service.ts). */
module TagsService {
  import opened Js
  import opened Rows

  /** A row of `tags`: a name attached to one product. */
  datatype Tag = Tag(idTag: int, name: string, idProduct: int)

  function TagKey(t: Tag): int
  {
    t.idTag
  }

  /** `SELECT * FROM tags` */
  function GetAllTags(tags: seq<Tag>): (r: seq<Tag>)
    ensures forall t :: t in r <==> t in tags
  {
    tags
  }

  /** `SELECT * FROM tags WHERE id_product = $1` */
  function GetTagsByProductId(tags: seq<Tag>, idProduct: int): (r: seq<Tag>)
    ensures forall t :: t in r <==> t in tags && t.idProduct == idProduct
  {
    Where(tags, (t: Tag) => t.idProduct == idProduct)
  }

  /** The table after `DELETE FROM tags WHERE id_tag = $1`. */
  function WithoutTag(tags: seq<Tag>, idTag: int): (r: seq<Tag>)
    ensures forall t :: t in r <==> t in tags && t.idTag != idTag
    ensures Increasing(tags, TagKey) ==> Increasing(r, TagKey)
  {
    var keep := (t: Tag) => t.idTag != idTag;
    WhereKeepsIncreasing(tags, keep, TagKey);
    Where(tags, keep)
  }

  /** The `tags` table, with its serial `id_tag`. */
  class TagTable {
    var rows: seq<Tag>
    var nextId: int

    ghost predicate Valid()
      reads this
    {
      && 0 < nextId
      && Increasing(rows, TagKey)
      && forall t :: t in rows ==> 0 < t.idTag < nextId
    }

    constructor ()
      ensures Valid() && rows == []
    {
      rows := [];
      nextId := 1;
    }

    /** `INSERT INTO tags (name, id_product) VALUES ($1, $2) RETURNING *`.
        The statement fails when a parameter does not fit its column. */
    method CreateTag(name: JsValue, idProduct: JsValue) returns (r: Result<Tag>)
      requires Valid()
      modifies this
      ensures Valid()
      ensures r.Ok? <==> name.Str? && idProduct.Num?
      ensures r.Ok? ==> r.value.name == name.s && r.value.idProduct == idProduct.n
      ensures r.Ok? ==> forall t :: t in old(rows) ==> t.idTag != r.value.idTag
      ensures r.Ok? ==> rows == old(rows) + [r.value]
      ensures r.Err? ==> rows == old(rows)
      ensures r.Ok? ==> r.value.idTag == old(nextId) && nextId == old(nextId) + 1
      ensures r.Err? ==> nextId == old(nextId)
    {
      if !name.Str? || !idProduct.Num? {
        return Err("invalid input for column of tags");
      }
      var tag := Tag(nextId, name.s, idProduct.n);
      AppendKeepsIncreasing(rows, tag, TagKey);
      rows := rows + [tag];
      nextId := nextId + 1;
      r := Ok(tag);
    }

    /** `DELETE FROM tags WHERE id_tag = $1`: only that row goes. */
    method DeleteTag(idTag: int)
      requires Valid()
      modifies this
      ensures Valid() && nextId == old(nextId)
      ensures rows == WithoutTag(old(rows), idTag)
    {
      rows := WithoutTag(rows, idTag);
    }
  }
}
