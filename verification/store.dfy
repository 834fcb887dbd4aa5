/**
 * The document store behind the handlers: the `blogs` and `users`
 * collections as maps from ObjectId to document, and the source of fresh
 * ObjectIds.
 */
module Store {
  import opened Wrappers
  import opened ObjectIds
  import opened BlogModel

  /** A user document: the password is kept only as its hash. */
  datatype User = User(username: string, name: Option<string>, passwordHash: string, blogs: seq<ObjectId>)

  /** The unique index on `username`. */
  ghost predicate UniqueUsernames(users: map<ObjectId, User>)
  {
    forall u, v :: u in users && v in users && users[u].username == users[v].username ==> u == v
  }

  /** Whether some user already has this username. */
  predicate UsernameTaken(users: map<ObjectId, User>, username: string)
  {
    exists u :: u in users && users[u].username == username
  }

  /** Every id in use was handed out before `nextId`. */
  ghost predicate Allocated(blogs: map<ObjectId, Blog>, users: map<ObjectId, User>, nextId: ObjectId)
  {
    && (forall id :: id in blogs ==> id < nextId)
    && (forall id :: id in users ==> id < nextId)
  }

  /** Every blog belongs to an existing user, whose `blogs` list records it. */
  ghost predicate Owned(blogs: map<ObjectId, Blog>, users: map<ObjectId, User>)
  {
    forall id :: id in blogs ==>
      var owner := blogs[id].user;
      owner.Some? && owner.value in users && id in users[owner.value].blogs
  }

  /**
   * The store invariant: ids are fresh when handed out, stored blogs
   * satisfy the schema, usernames are unique, and each blog is listed by
   * its owner.
   */
  ghost predicate Consistent(blogs: map<ObjectId, Blog>, users: map<ObjectId, User>, nextId: ObjectId): (r: bool)
    ensures r ==> nextId !in blogs && nextId !in users
    ensures r ==> forall id :: id in blogs ==>
              blogs[id].user.Some? && blogs[id].user.value in users && |users[blogs[id].user.value].blogs| > 0
  {
    && Allocated(blogs, users, nextId)
    && (forall id :: id in blogs ==> IsValid(blogs[id]))
    && UniqueUsernames(users)
    && Owned(blogs, users)
  }

  /** Storing a valid blog under a fresh id and appending that id to its owner's list keeps the invariant. */
  lemma AddBlogConsistent(blogs: map<ObjectId, Blog>, users: map<ObjectId, User>, nextId: ObjectId, owner: ObjectId, blog: Blog)
    requires Consistent(blogs, users, nextId)
    requires owner in users && blog.user == Some(owner) && IsValid(blog)
    ensures Consistent(blogs[nextId := blog],
                       users[owner := users[owner].(blogs := users[owner].blogs + [nextId])],
                       nextId + 1)
  {
    var blogs' := blogs[nextId := blog];
    var users' := users[owner := users[owner].(blogs := users[owner].blogs + [nextId])];
    forall id | id in blogs'
      ensures blogs'[id].user.Some? && blogs'[id].user.value in users' && id in users'[blogs'[id].user.value].blogs
    {
      if id != nextId {
        var o := blogs[id].user.value;
        assert id in users[o].blogs;
        assert users[o].blogs <= users'[o].blogs;
      }
    }
    assert UniqueUsernames(users') by {
      forall u, v | u in users' && v in users' && users'[u].username == users'[v].username
        ensures u == v
      {
        assert users'[u].username == users[u].username && users'[v].username == users[v].username;
      }
    }
  }

  /** Removing a blog keeps the invariant, although the owner's list still names it. */
  lemma RemoveBlogConsistent(blogs: map<ObjectId, Blog>, users: map<ObjectId, User>, nextId: ObjectId, id: ObjectId)
    requires Consistent(blogs, users, nextId)
    ensures Consistent(blogs - {id}, users, nextId)
  {
  }

  /** Changing a stored blog's likes keeps the invariant: validity and ownership do not depend on likes. */
  lemma SetLikesConsistent(blogs: map<ObjectId, Blog>, users: map<ObjectId, User>, nextId: ObjectId, id: ObjectId, likes: Option<int>)
    requires Consistent(blogs, users, nextId)
    requires id in blogs
    ensures Consistent(blogs[id := blogs[id].(likes := likes)], users, nextId)
  {
  }

  /** Adding a user with a fresh id and an unused username keeps the invariant. */
  lemma AddUserConsistent(blogs: map<ObjectId, Blog>, users: map<ObjectId, User>, nextId: ObjectId, user: User)
    requires Consistent(blogs, users, nextId)
    requires !UsernameTaken(users, user.username)
    ensures Consistent(blogs, users[nextId := user], nextId + 1)
  {
    var users' := users[nextId := user];
    forall id | id in blogs
      ensures blogs[id].user.Some? && blogs[id].user.value in users' && id in users'[blogs[id].user.value].blogs
    {
      assert blogs[id].user.value < nextId;
    }
  }

  class Db {
    var blogs: map<ObjectId, Blog>
    var users: map<ObjectId, User>
    var nextId: ObjectId

    ghost predicate Valid()
      reads this
    {
      Consistent(blogs, users, nextId)
    }

    constructor ()
      ensures Valid()
      ensures blogs == map[] && users == map[]
    {
      blogs, users, nextId := map[], map[], 0;
    }
  }
}
