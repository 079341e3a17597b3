/** The images table and the service functions over it
    (DB/services/images.service.ts). */
module ImagesService {
  import opened Js
  import opened Rows

  /** A row of `images`: a link into blob storage, owned by one product. */
  datatype Image = Image(idImage: int, link: string, idProduct: int)

  function ImageKey(i: Image): int
  {
    i.idImage
  }

  /** `SELECT * FROM images` */
  function GetAllImages(images: seq<Image>): (r: seq<Image>)
    ensures forall i :: i in r <==> i in images
  {
    images
  }

  /** `SELECT * FROM images WHERE id_image = $1`, then `rows[0] || null`. */
  function GetImageById(images: seq<Image>, idImage: int): (r: Option<Image>)
    ensures r.Some? <==> exists i :: i in images && i.idImage == idImage
    ensures r.Some? ==> r.value in images && r.value.idImage == idImage
  {
    FirstWhere(images, (i: Image) => i.idImage == idImage)
  }

  /** `SELECT * FROM images WHERE id_product = $1` */
  function GetImagesByProductId(images: seq<Image>, idProduct: int): (r: seq<Image>)
    ensures forall i :: i in r <==> i in images && i.idProduct == idProduct
  {
    Where(images, (i: Image) => i.idProduct == idProduct)
  }

  /** The table after `DELETE FROM images WHERE id_image = $1`. */
  function WithoutImage(images: seq<Image>, idImage: int): (r: seq<Image>)
    ensures forall i :: i in r <==> i in images && i.idImage != idImage
    ensures Increasing(images, ImageKey) ==> Increasing(r, ImageKey)
  {
    var keep := (i: Image) => i.idImage != idImage;
    WhereKeepsIncreasing(images, keep, ImageKey);
    Where(images, keep)
  }

  /** The `images` table, with its serial `id_image`. */
  class ImageTable {
    var rows: seq<Image>
    var nextId: int

    ghost predicate Valid()
      reads this
    {
      && 0 < nextId
      && Increasing(rows, ImageKey)
      && forall i :: i in rows ==> 0 < i.idImage < nextId
    }

    constructor ()
      ensures Valid() && rows == []
    {
      rows := [];
      nextId := 1;
    }

    /** `INSERT INTO images (link, id_product) VALUES ($1, $2) RETURNING *`.
        The statement fails when a parameter does not fit its column. */
    method CreateImage(link: JsValue, idProduct: JsValue) returns (r: Result<Image>)
      requires Valid()
      modifies this
      ensures Valid()
      ensures r.Ok? <==> link.Str? && idProduct.Num?
      ensures r.Ok? ==> r.value.link == link.s && r.value.idProduct == idProduct.n
      ensures r.Ok? ==> forall i :: i in old(rows) ==> i.idImage != r.value.idImage
      ensures r.Ok? ==> rows == old(rows) + [r.value]
      ensures r.Err? ==> rows == old(rows)
      ensures r.Ok? ==> r.value.idImage == old(nextId) && nextId == old(nextId) + 1
      ensures r.Err? ==> nextId == old(nextId)
    {
      if !link.Str? || !idProduct.Num? {
        return Err("invalid input for column of images");
      }
      var image := Image(nextId, link.s, idProduct.n);
      AppendKeepsIncreasing(rows, image, ImageKey);
      rows := rows + [image];
      nextId := nextId + 1;
      r := Ok(image);
    }

    /** `DELETE FROM images WHERE id_image = $1`: only that row goes. */
    method DeleteImage(idImage: int)
      requires Valid()
      modifies this
      ensures Valid() && nextId == old(nextId)
      ensures rows == WithoutImage(old(rows), idImage)
    {
      rows := WithoutImage(rows, idImage);
    }
  }
}
