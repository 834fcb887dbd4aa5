/**
 * The mutating blog routes (controllers/blogs.js): POST `/`, DELETE `/:id`
 * and PUT `/:id`, as steps on the store.
 */
module BlogsController {
  import opened Wrappers
  import opened ObjectIds
  import opened BlogModel
  import opened Http
  import opened Store

  /**
   * `jwt.verify(request.token, SECRET)`: it throws on a missing or badly
   * signed token, or yields the decoded payload, whose `id` claim may be
   * absent or empty.
   */
  datatype Verification = Rejected | Decoded(id: Option<ObjectId>)

  /** The fields of the request body the handlers read. */
  datatype BlogRequest = BlogRequest(
    title: Option<string>,
    author: Option<string>,
    url: Option<string>,
    likes: Option<int>)

  /** The errors the handlers pass to `next`. */
  datatype Failure =
    | TokenRejected                                  // thrown by jwt.verify
    | UserNotFound                                   // reading `_id` of a null user
    | ValidationFailed(violations: seq<Violation>)   // thrown by blog.save()

  const TokenMissing := "token missing or invalid"
  const NoMatchingBlog := "no matching blog"
  const NotCreator := "token does not match blog's creator"

  /** The document `new Blog({...})` builds from the body for the user `owner`. */
  function NewBlog(body: BlogRequest, owner: ObjectId): (b: Blog)
    ensures b.user == Some(owner)
    ensures b.title == body.title && b.author == body.author && b.url == body.url && b.likes == body.likes
    ensures IsValid(b) <==> ValidString(body.title) && ValidString(body.url)
  {
    Blog(body.title, body.author, body.url, body.likes, Some(owner))
  }

  /**
   * POST `/`: the token must carry a user id, that user must exist, and the
   * new blog must pass schema validation; then the blog is stored and its
   * id appended to the owner's `blogs`. Every failure leaves the store as
   * it was.
   */
  method Create(db: Db, token: Verification, body: BlogRequest) returns (res: Response<Blog, Failure>)
    requires db.Valid()
    modifies db
    ensures db.Valid()
    ensures token.Rejected? ==> res == Forwarded(TokenRejected)
    ensures token == Decoded(None) ==> res == Sent(401, ErrorJson(TokenMissing))
    ensures token.Decoded? && token.id.Some? && token.id.value !in old(db.users) ==>
              res == Forwarded(UserNotFound)
    ensures token.Decoded? && token.id.Some? && token.id.value in old(db.users)
              && !IsValid(NewBlog(body, token.id.value)) ==>
              res == Forwarded(ValidationFailed(Validate(NewBlog(body, token.id.value))))
    ensures !(res.Sent? && res.status == 201) ==> unchanged(db)
    ensures res.Sent? && res.status == 201 <==>
              token.Decoded? && token.id.Some? && token.id.value in old(db.users)
              && IsValid(NewBlog(body, token.id.value))
    ensures res.Sent? && res.status == 201 ==>
              var owner := token.id.value;
              var blog := NewBlog(body, owner);
              var user := old(db.users)[owner];
              && res.payload.Saved?
              && res.payload.id !in old(db.blogs)
              && res.payload.record == blog
              && db.blogs == old(db.blogs)[res.payload.id := blog]
              && |db.blogs| == |old(db.blogs)| + 1
              && db.users == old(db.users)[owner := user.(blogs := user.blogs + [res.payload.id])]
  {
    if token.Rejected? {
      return Forwarded(TokenRejected);
    }
    if token.id.None? {
      return Sent(401, ErrorJson(TokenMissing));
    }
    var owner := token.id.value;
    if owner !in db.users {
      return Forwarded(UserNotFound);
    }
    var user := db.users[owner];
    var blog := NewBlog(body, owner);
    var violations := Validate(blog);
    if violations != [] {
      return Forwarded(ValidationFailed(violations));
    }
    var id := db.nextId;
    AddBlogConsistent(db.blogs, db.users, id, owner, blog);
    db.blogs := db.blogs[id := blog];
    db.users := db.users[owner := user.(blogs := user.blogs + [id])];
    db.nextId := id + 1;
    res := Sent(201, Saved(id, blog));
  }

  /**
   * DELETE `/:id`: checks the token, then that the blog exists (404), then
   * that the token's user created it (401); only then is the blog removed.
   * No user's `blogs` list is touched.
   */
  method Delete(db: Db, token: Verification, id: ObjectId) returns (res: Response<Blog, Failure>)
    requires db.Valid()
    modifies db
    ensures db.Valid()
    ensures db.users == old(db.users)
    ensures token.Rejected? ==> res == Forwarded(TokenRejected)
    ensures token == Decoded(None) ==> res == Sent(401, ErrorJson(TokenMissing))
    ensures token.Decoded? && token.id.Some? && id !in old(db.blogs) ==>
              res == Sent(404, ErrorJson(NoMatchingBlog))
    ensures token.Decoded? && token.id.Some? && id in old(db.blogs) && old(db.blogs)[id].user != token.id ==>
              res == Sent(401, ErrorJson(NotCreator))
    ensures token.Decoded? && token.id.Some? && id in old(db.blogs) && old(db.blogs)[id].user == token.id ==>
              res == Sent(204, NoBody) && db.blogs == old(db.blogs) - {id}
    ensures res != Sent(204, NoBody) ==> unchanged(db)
  {
    if token.Rejected? {
      return Forwarded(TokenRejected);
    }
    if token.id.None? {
      return Sent(401, ErrorJson(TokenMissing));
    }
    if id !in db.blogs {
      return Sent(404, ErrorJson(NoMatchingBlog));
    }
    var blogToDelete := db.blogs[id];
    // the owner and the token's id are compared through their string forms
    if ToHexString(blogToDelete.user.value) != ToHexString(token.id.value) {
      return Sent(401, ErrorJson(NotCreator));
    }
    RemoveBlogConsistent(db.blogs, db.users, db.nextId, id);
    db.blogs := db.blogs - {id};
    res := Sent(204, NoBody);
  }

  /**
   * PUT `/:id`: replaces `likes` with the body's value (absent included) and
   * answers 200 with the updated blog, or with `null` when no blog has the
   * id. Nothing else changes; no token is asked for.
   */
  method Update(db: Db, id: ObjectId, body: BlogRequest) returns (res: Response<Blog, Failure>)
    requires db.Valid()
    modifies db
    ensures db.Valid()
    ensures db.users == old(db.users)
    ensures id !in old(db.blogs) ==> res == Sent(200, NullJson) && unchanged(db)
    ensures id in old(db.blogs) ==>
              var updated := old(db.blogs)[id].(likes := body.likes);
              && res == Sent(200, Saved(id, updated))
              && db.blogs == old(db.blogs)[id := updated]
  {
    if id !in db.blogs {
      return Sent(200, NullJson);
    }
    var updated := db.blogs[id].(likes := body.likes);
    SetLikesConsistent(db.blogs, db.users, db.nextId, id, body.likes);
    db.blogs := db.blogs[id := updated];
    res := Sent(200, Saved(id, updated));
  }
}
