/**
 * The blog schema of models/blog.js: title and url are required strings,
 * author is an optional string, likes defaults to 0, and user references
 * the owning user. Serialisation renames `_id` to `id` and drops `__v`.
 */
module BlogModel {
  import opened Wrappers
  import opened ObjectIds
  import opened Json

  /** A stored blog document; `version` is the `__v` key. */
  datatype Blog = Blog(
    id: ObjectId,
    title: string,
    author: Option<string>,
    url: string,
    likes: int,
    user: Option<ObjectId>,
    version: nat)

  /** The schema fields a request body carries; an absent key is `None`. */
  datatype BlogFields = BlogFields(
    title: Option<string>,
    author: Option<string>,
    url: Option<string>,
    likes: Option<int>,
    user: Option<ObjectId>)

  const TitleRequired: string := "Title is a required value"
  const UrlRequired: string := "Url is a required value"

  /** The validation messages of a new document, in schema path order. */
  function Errors(f: BlogFields): (errs: seq<string>)
    ensures errs == [] <==> Present(f.title) && Present(f.url)
    ensures TitleRequired in errs <==> !Present(f.title)
    ensures UrlRequired in errs <==> !Present(f.url)
    ensures |errs| <= 2
  {
    (if Present(f.title) then [] else [TitleRequired]) + (if Present(f.url) then [] else [UrlRequired])
  }

  /**
   * A new document built from the request body with the requester as
   * owner, validated for saving: either the validation messages, or the
   * document with the body's fields, likes 0 when absent, and the owner in
   * place of any user the body names.
   */
  function NewBlog(id: ObjectId, f: BlogFields, owner: ObjectId): (r: Result<Blog, seq<string>>)
    ensures r.Failure? <==> !Present(f.title) || !Present(f.url)
    ensures r.Failure? ==> r.error == Errors(f) && r.error != []
    ensures r.Success? ==>
      && r.value.id == id
      && f.title == Some(r.value.title) && f.url == Some(r.value.url)
      && r.value.author == f.author
      && r.value.likes == (if f.likes.Some? then f.likes.value else 0)
      && r.value.user == Some(owner)
      && r.value.version == 0
  {
    var errs := Errors(f);
    if errs != [] then Failure(errs)
    else Success(Blog(id, f.title.value, f.author, f.url.value, f.likes.GetOr(0), Some(owner), 0))
  }

  /** An update by id (no validators run): each field the body carries overwrites the stored one. */
  function Update(b: Blog, f: BlogFields): (r: Blog)
    ensures r.id == b.id && r.version == b.version
    ensures r.title == (if f.title.Some? then f.title.value else b.title)
    ensures r.author == (if f.author.Some? then f.author else b.author)
    ensures r.url == (if f.url.Some? then f.url.value else b.url)
    ensures r.likes == (if f.likes.Some? then f.likes.value else b.likes)
    ensures r.user == (if f.user.Some? then f.user else b.user)
  {
    b.(title := f.title.GetOr(b.title),
       author := if f.author.Some? then f.author else b.author,
       url := f.url.GetOr(b.url),
       likes := f.likes.GetOr(b.likes),
       user := if f.user.Some? then f.user else b.user)
  }

  /** Applying the same body twice changes nothing more. */
  lemma UpdateIdempotent(b: Blog, f: BlogFields)
    ensures Update(Update(b, f), f) == Update(b, f)
  {
  }

  /** A body carrying only likes changes only the likes. */
  lemma UpdateLikesOnly(b: Blog, n: int)
    ensures Update(b, BlogFields(None, None, None, Some(n), None)) == b.(likes := n)
  {
  }

  /** The plain object of a stored document, as the `toJSON` transform receives it. */
  function ToObject(b: Blog): (obj: Object)
    ensures obj.Keys == {"_id", "title", "url", "likes", "__v"}
                        + (if b.author.Some? then {"author"} else {})
                        + (if b.user.Some? then {"user"} else {})
    ensures obj["_id"] == Id(b.id)
  {
    var base := map["_id" := Id(b.id), "title" := Str(b.title), "url" := Str(b.url),
                     "likes" := Num(b.likes), "__v" := Num(b.version)];
    var withAuthor := if b.author.Some? then base["author" := Str(b.author.value)] else base;
    if b.user.Some? then withAuthor["user" := Id(b.user.value)] else withAuthor
  }

  /** The schema's `toJSON` transform. */
  function Transform(obj: Object): (r: Object)
    requires "_id" in obj && obj["_id"].Id?
    ensures r.Keys == obj.Keys - {"_id", "__v"} + {"id"}
    ensures "_id" !in r && "__v" !in r
    ensures r["id"] == Str(ToHexString(obj["_id"].oid))
    ensures forall k :: k in obj && k !in {"_id", "__v", "id"} ==> k in r && r[k] == obj[k]
  {
    IdTransform(obj, {})
  }

  function ToJson(b: Blog): Object
  {
    Transform(ToObject(b))
  }

  /**
   * A serialised blog has `id` (which casts back to the document's id) in
   * place of `_id`, no `__v`, and every stored field with its value.
   */
  lemma ToJsonFields(b: Blog)
    ensures var r := ToJson(b);
      && r.Keys == {"id", "title", "url", "likes"}
                   + (if b.author.Some? then {"author"} else {})
                   + (if b.user.Some? then {"user"} else {})
      && r["id"].Str? && Cast(r["id"].str) == Some(b.id)
      && r["title"] == Str(b.title) && r["url"] == Str(b.url) && r["likes"] == Num(b.likes)
      && (b.author.Some? ==> r["author"] == Str(b.author.value))
      && (b.user.Some? ==> r["user"] == Id(b.user.value))
  {
    CastToHexString(b.id);
    ToJsonKeys(b);
    ToJsonValues(b);
  }

  lemma ToJsonKeys(b: Blog)
    ensures ToJson(b).Keys == {"id", "title", "url", "likes"}
                              + (if b.author.Some? then {"author"} else {})
                              + (if b.user.Some? then {"user"} else {})
  {
    var obj := ToObject(b);
    assert ToJson(b).Keys == obj.Keys - {"_id", "__v"} + {"id"};
  }

  /** A serialised blog carries `user` exactly when the document has an owner. */
  lemma ToJsonHasUser(b: Blog)
    ensures "user" in ToJson(b) <==> b.user.Some?
  {
    ToJsonKeys(b);
  }

  lemma ToJsonValues(b: Blog)
    ensures var r := ToJson(b);
      && r["id"] == Str(ToHexString(b.id))
      && "title" in r && r["title"] == Str(b.title)
      && "url" in r && r["url"] == Str(b.url)
      && "likes" in r && r["likes"] == Num(b.likes)
      && (b.author.Some? ==> "author" in r && r["author"] == Str(b.author.value))
      && (b.user.Some? ==> "user" in r && r["user"] == Id(b.user.value))
  {
    ToObjectValues(b);
  }

  lemma ToObjectValues(b: Blog)
    ensures var obj := ToObject(b);
      && obj["title"] == Str(b.title) && obj["url"] == Str(b.url) && obj["likes"] == Num(b.likes)
      && (b.author.Some? ==> obj["author"] == Str(b.author.value))
      && (b.user.Some? ==> obj["user"] == Id(b.user.value))
  {
  }
}
