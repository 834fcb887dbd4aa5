/**
 * The blog schema (models/blog.js): which documents validate, and the
 * `toJSON` transform applied when a blog document is serialised.
 */
module BlogModel {
  import opened Wrappers
  import opened ObjectIds

  /**
   * A blog document. The schema marks `title` and `url` required; `author`,
   * `likes` and the owning `user` reference are optional and get no default.
   */
  datatype Blog = Blog(
    title: Option<string>,
    author: Option<string>,
    url: Option<string>,
    likes: Option<int>,
    user: Option<ObjectId>)

  /** `minlength` of both `title` and `url`. */
  const MinLength: nat := 2

  /** A failed schema validator, with the path it failed on. */
  datatype Violation = Required(path: string) | TooShort(path: string)
  {
    function Path(): string
    {
      match this
      case Required(p) => p
      case TooShort(p) => p
    }
  }

  /** A required string path with `minlength: 2` holds a value of at least two characters. */
  predicate ValidString(v: Option<string>)
  {
    v.Some? && |v.value| >= MinLength
  }

  /** The documents blogSchema accepts. */
  predicate IsValid(b: Blog)
    ensures IsValid(b) <==> CheckPath("title", b.title).None? && CheckPath("url", b.url).None?
  {
    ValidString(b.title) && ValidString(b.url)
  }

  /**
   * The validators of one required string path, in schema order: `required`
   * (which a missing or empty string fails) runs first, then `minlength`;
   * the first that fails is the one reported.
   */
  function CheckPath(path: string, v: Option<string>): (r: Option<Violation>)
    ensures r.None? <==> ValidString(v)
    ensures r.Some? ==> r.value.Path() == path
    ensures r == Some(Required(path)) <==> (v.None? || v == Some(""))
  {
    if v.None? || v.value == "" then Some(Required(path))
    else if |v.value| < MinLength then Some(TooShort(path))
    else None
  }

  function ToSeq(r: Option<Violation>): seq<Violation>
  {
    if r.Some? then [r.value] else []
  }

  /** Document validation: the violations of `title` and `url`, in schema order. */
  function Validate(b: Blog): (errs: seq<Violation>)
    ensures errs == [] <==> IsValid(b)
    ensures forall e :: e in errs ==> e.Path() == "title" || e.Path() == "url"
    ensures (exists e :: e in errs && e.Path() == "title") <==> !ValidString(b.title)
    ensures (exists e :: e in errs && e.Path() == "url") <==> !ValidString(b.url)
  {
    var t := ToSeq(CheckPath("title", b.title));
    var u := ToSeq(CheckPath("url", b.url));
    assert forall e :: e in t ==> e.Path() == "title";
    assert forall e :: e in u ==> e.Path() == "url";
    t + u
  }

  /** `author`, `likes` and `user` play no part in validation. */
  lemma OptionalPathsUnchecked(b: Blog, author: Option<string>, likes: Option<int>, user: Option<ObjectId>)
    ensures Validate(b.(author := author, likes := likes, user := user)) == Validate(b)
  {
  }

  // ---------------------------------------------------------------------
  // Serialisation

  datatype Json = JString(str: string) | JNumber(num: int) | JObjectId(oid: ObjectId)

  type JsonObject = map<string, Json>

  /** The paths of a blog that hold a value, as plain-object properties. */
  function Fields(b: Blog): (m: JsonObject)
    ensures "_id" !in m && "__v" !in m && "id" !in m
    ensures ("title" in m <==> b.title.Some?) && ("url" in m <==> b.url.Some?)
    ensures ("author" in m <==> b.author.Some?) && ("likes" in m <==> b.likes.Some?)
    ensures "user" in m <==> b.user.Some?
    ensures b.title.Some? ==> m["title"] == JString(b.title.value)
    ensures b.author.Some? ==> m["author"] == JString(b.author.value)
    ensures b.url.Some? ==> m["url"] == JString(b.url.value)
    ensures b.likes.Some? ==> m["likes"] == JNumber(b.likes.value)
    ensures b.user.Some? ==> m["user"] == JObjectId(b.user.value)
  {
    var m0: JsonObject := map[];
    var m1 := if b.title.Some? then m0["title" := JString(b.title.value)] else m0;
    var m2 := if b.author.Some? then m1["author" := JString(b.author.value)] else m1;
    var m3 := if b.url.Some? then m2["url" := JString(b.url.value)] else m2;
    var m4 := if b.likes.Some? then m3["likes" := JNumber(b.likes.value)] else m3;
    if b.user.Some? then m4["user" := JObjectId(b.user.value)] else m4
  }

  /** The plain object a stored blog turns into before `toJSON`: its fields, `_id` and the version key `__v`. */
  function Document(id: ObjectId, b: Blog, version: nat): JsonObject
  {
    Fields(b)["_id" := JObjectId(id)]["__v" := JNumber(version)]
  }

  /**
   * The `toJSON` transform: `id` becomes the string form of `_id`, and
   * `_id` and `__v` are dropped; every other property is kept as it is.
   */
  function ToJSON(obj: JsonObject): (r: JsonObject)
    requires "_id" in obj && obj["_id"].JObjectId?
    ensures r.Keys == obj.Keys - {"_id", "__v"} + {"id"}
    ensures r["id"] == JString(ToHexString(obj["_id"].oid))
    ensures forall k :: k in obj && k != "_id" && k != "__v" && k != "id" ==> r[k] == obj[k]
  {
    obj["id" := JString(ToHexString(obj["_id"].oid))] - {"_id", "__v"}
  }

  /**
   * A serialised blog is exactly its fields plus `id`, and that `id`
   * string decodes back to the document's ObjectId.
   */
  lemma SerializedBlog(id: ObjectId, b: Blog, version: nat)
    ensures ToJSON(Document(id, b, version)) == Fields(b)["id" := JString(ToHexString(id))]
    ensures HexValue(ToJSON(Document(id, b, version))["id"].str) == id
  {
    var r := ToJSON(Document(id, b, version));
    var f := Fields(b)["id" := JString(ToHexString(id))];
    assert r.Keys == f.Keys;
  }

  /** The object handed to the transform hook, which rewrites its properties in place. */
  class ReturnedObject {
    var properties: JsonObject

    constructor (properties: JsonObject)
      ensures this.properties == properties
    {
      this.properties := properties;
    }

    /** The hook set with `blogSchema.set('toJSON', { transform })`. */
    method Transform()
      requires "_id" in properties && properties["_id"].JObjectId?
      modifies this
      ensures properties == ToJSON(old(properties))
    {
      properties := properties["id" := JString(ToHexString(properties["_id"].oid))];
      properties := properties - {"_id"};
      properties := properties - {"__v"};
    }
  }
}
