# bloglist-backend, modelled in Dafny

A model of the logic in a small Express/Mongoose blog backend: the
aggregation helpers over a list of blog records, the blog schema with its
validation and `toJSON` transform, and the route handlers that create,
delete and update blogs and register users against the document store.

| file | module | models |
|---|---|---|
| `list_helper.dfy` | `ListHelper` | `utils/list_helper.js`: `dummy`, `totalLikes`, `favoriteBlog`, `mostBlogs`, `mostLikes` as pure functions |
| `blog_model.dfy` | `BlogModel` | `models/blog.js`: the schema's validation and the `toJSON` transform (a pure function plus the in-place hook) |
| `object_ids.dfy` | `ObjectIds` | `ObjectId.prototype.toString()`, used by `toJSON` and by the ownership check of DELETE |
| `store.dfy` | `Store` | the `blogs` and `users` collections as a class `Db` holding two maps and an id counter, with the store invariant |
| `blogs_controller.dfy` | `BlogsController` | `controllers/blogs.js`: POST `/`, DELETE `/:id`, PUT `/:id` as methods that change the `Db` |
| `users_controller.dfy` | `UsersController` | `controllers/users.js`: POST `/` (registration) |
| `http.dfy`, `wrappers.dfy` | `Http`, `Wrappers` | responses (`Sent(status, payload)` or `Forwarded(error)` for `next(error)`) and `Option` (JavaScript's `undefined`) |

Behaviour of the code worth knowing:

- Ties in `favoriteBlog`, `mostBlogs` and `mostLikes` go to the LATER
  element or author group. The reducers keep their champion only when it is
  strictly greater (utils/list_helper.js:17-19, 44-46, 69-71).
- `likes` has no default (models/blog.js:15). A blog created without
  `likes` stores none (controllers/blogs.js:35).
- PUT `/:id` for an id with no blog answers 200 with `null`, because
  `findByIdAndUpdate` yields `null` and the handler sends it as it is
  (controllers/blogs.js:94-95).
- `mostBlogs([])` and `mostLikes([])` return `undefined` (`None`): the
  reduce over an empty group list returns its seed `authorsGroup[0]`
  (utils/list_helper.js:50, 75).
- Registration answers with the default status 200
  (controllers/users.js:27).

The store invariant `Store.Consistent` says four things. Ids are below the
counter. Every stored blog passes schema validation. Usernames are unique.
Every blog's `user` exists, and that user's `blogs` list names the blog.
Every handler requires and ensures it.

## Model

| member | source | states |
|---|---|---|
| ListHelper.Dummy | utils/list_helper.js:3-5 | the result is 1 whatever the input |
| ListHelper.TotalLikes | utils/list_helper.js:7-13 | the left fold summing likes: 0 for an empty list, and non-negative when every record's likes are |
| ListHelper.TotalLikesAppend | utils/list_helper.js:7-13 | the total of a concatenation is the sum of the totals; with `TotalLikes([]) == 0` this gives `totalLikes(xs + [b]) == totalLikes(xs) + b.likes` |
| ListHelper.TotalLikesBounds | utils/list_helper.js:7-13 | with non-negative likes the total is non-negative and at least every record's likes |
| ListHelper.Keep | utils/list_helper.js:16-20 | the reducer returns one of its two arguments with the larger key, and on equal keys the current element, not the champion |
| ListHelper.Reduce | utils/list_helper.js:23 | `.reduce(reducer, init)`: the result is the seed or an element of the list, its key is at least the seed's and at least every element's |
| ListHelper.ReduceFromHead | utils/list_helper.js:16-23 | reducing a non-empty list with the keep-if-strictly-greater reducer, seeded with its head, yields the last maximal element |
| ListHelper.LastMaxUnique | utils/list_helper.js:16-19 | only one index can be the last maximal one, so the tie-break fixes the result |
| ListHelper.Project | utils/list_helper.js:23 | the destructuring keeps title, author and likes of the record unchanged |
| ListHelper.FavoriteBlog | utils/list_helper.js:15-24 | for a non-empty list the result is the title/author/likes projection of a record of the list, its likes are at least every record's, and every later record has strictly fewer likes |
| ListHelper.FavoriteBlogTieBreak | utils/list_helper.js:16-19 | whichever record is last among those with maximal likes is the one returned |
| ListHelper.AddToGroups | utils/list_helper.js:29-31 | one grouping step adds the record to its author's group (opening a new last group for a new author) and changes no other group; total size grows by one and total likes by the record's likes |
| ListHelper.GroupByAuthor | utils/list_helper.js:29-37 | the groups partition the input: keys are the distinct authors in order of first appearance, each group holds exactly that author's records in input order, sizes sum to the input length, group likes sum to the total likes, and no input gives no groups |
| ListHelper.AuthorsDistinct | utils/list_helper.js:29-31 | no author is grouped twice |
| ListHelper.AuthorsCover | utils/list_helper.js:29-31 | an author has a group exactly when some record has that author |
| ListHelper.ByAuthorNonEmpty | utils/list_helper.js:29-36 | an author present in the input has a non-empty group |
| ListHelper.GroupAt | utils/list_helper.js:29-37 | the `k`-th group is the `k`-th author with exactly that author's records |
| ListHelper.Counts | utils/list_helper.js:32-36 | each per-author summary is the group's key and its size |
| ListHelper.CountsAligned | utils/list_helper.js:29-37 | the `k`-th summary is the `k`-th author and that author's record count |
| ListHelper.TopCount | utils/list_helper.js:43-50 | the last maximal summary names an author with its true count, no author has more records, and later authors have strictly fewer |
| ListHelper.MostBlogsProof | utils/list_helper.js:43-50 | reducing the summaries from the first one yields such a summary |
| ListHelper.MostBlogs | utils/list_helper.js:26-51 | `None` exactly for an empty list; otherwise an author of the list with its record count, no author has more, and later-grouped authors have strictly fewer |
| ListHelper.Sums | utils/list_helper.js:58-62 | each per-author summary is the group's key and the sum of its likes |
| ListHelper.SumsAligned | utils/list_helper.js:55-63 | the `k`-th summary is the `k`-th author and that author's like sum |
| ListHelper.TopSum | utils/list_helper.js:68-75 | the last maximal summary names an author with its true like sum, no author has more, and later authors have strictly less |
| ListHelper.MostLikesProof | utils/list_helper.js:68-75 | reducing the summaries from the first one yields such a summary |
| ListHelper.MostLikes | utils/list_helper.js:53-76 | `None` exactly for an empty list; otherwise an author of the list with the sum of its likes, no author has a larger sum, and later-grouped authors have strictly smaller ones |
| ObjectIds.Hex | models/blog.js:24 | the numeral is non-empty and made of lower-case hex digits |
| ObjectIds.HexRoundTrip | models/blog.js:24 | decoding the hex numeral of `n` gives `n` back |
| ObjectIds.LeadingZeros | models/blog.js:24 | zero padding does not change a numeral's value |
| ObjectIds.ToHexString | models/blog.js:24 | the string form is lower-case hex, exactly 24 digits for any id that fits in 24 digits, and decodes back to the id |
| ObjectIds.ToHexStringInjective | controllers/blogs.js:72 | two ids have the same string form exactly when they are equal, so the string comparison is an id comparison |
| BlogModel.IsValid | models/blog.js:3-20 | a blog is valid exactly when both the `title` and the `url` validators pass |
| BlogModel.CheckPath | models/blog.js:4-14 | a required path with `minlength: 2` passes exactly when it holds at least two characters; a missing or empty value fails `required`, which is reported before `minlength` |
| BlogModel.Validate | models/blog.js:3-20 | no violation exactly when title and url are both present with length at least 2; a violation names `title` exactly when the title is bad, `url` exactly when the url is bad, and no other path |
| BlogModel.OptionalPathsUnchecked | models/blog.js:9-19 | author, likes and user have no effect on validation |
| BlogModel.Fields | models/blog.js:3-20 | a property is present exactly when the path holds a value, and it holds that value (strings as strings, likes as a number, the user reference as an ObjectId); `_id`, `__v` and `id` are not among them |
| BlogModel.ToJSON | models/blog.js:22-28 | the output has the input's keys minus `_id` and `__v` plus `id`, `id` is the string form of `_id`, and every other property is unchanged |
| BlogModel.SerializedBlog | models/blog.js:22-28 | a serialised stored blog is exactly its fields plus `id`, and `id` decodes back to its ObjectId |
| BlogModel.ReturnedObject.Transform | models/blog.js:23-27 | rewriting the object in place leaves exactly `ToJSON` of the old object |
| Store.Consistent | controllers/blogs.js:29-41 | the store invariant; it implies the next id is unused and every stored blog's owner exists with a non-empty `blogs` list |
| Store.Db.constructor | controllers/blogs.js:2-3 | the empty store satisfies the invariant |
| Store.AddBlogConsistent | controllers/blogs.js:39-41 | saving a valid blog under a fresh id owned by an existing user, and appending the id to that user's list, keeps the store invariant |
| Store.RemoveBlogConsistent | controllers/blogs.js:78 | removing a blog keeps the store invariant |
| Store.SetLikesConsistent | controllers/blogs.js:94 | replacing one blog's likes keeps the store invariant |
| Store.AddUserConsistent | controllers/users.js:25 | adding a user under a fresh id with an unused username keeps the store invariant |
| BlogsController.NewBlog | controllers/blogs.js:31-37 | the new document copies title, author, url and likes from the body, its `user` is the owner, and it is valid exactly when the body's title and url are |
| BlogsController.Create | controllers/blogs.js:15-47 | checks run in order: a throwing token is forwarded, a token without id answers 401 `token missing or invalid`, an unknown user is forwarded, a blog failing validation is forwarded with its violations; each leaves the store unchanged; otherwise 201, the stored blog copies title/author/url/likes from the body with `user` the token's id, the blog count grows by one, and the owner's `blogs` is the old list with the new id appended |
| BlogsController.Delete | controllers/blogs.js:49-84 | checks in order token, existence (404 `no matching blog`), ownership (401); every failure leaves the store unchanged; the owner's request removes exactly that blog, answers 204 and leaves every user (and so every `blogs` list) as it was |
| BlogsController.Update | controllers/blogs.js:86-101 | no token is asked for; an unknown id answers 200 `null` and changes nothing; otherwise only `likes` changes, to the body's value, and the updated blog is answered with 200 |
| UsersController.CheckRequest | controllers/users.js:9-14 | a missing or empty username or password gives the missing message; otherwise one shorter than 3 gives the length message; exactly length at least 3 for both passes |
| UsersController.Register | controllers/users.js:5-31 | a failed check answers 400 with its message and changes nothing; a taken username is forwarded and changes nothing; otherwise a user with the username, name, hashed password and no blogs is stored under a fresh id, the user count grows by one, blogs are untouched, and 200 answers the user |
| UsersController.RegisterTwice | tests/blog_api.test.js:221-239 | sending the same valid registration twice: the second answer is the uniqueness failure, the user count grows by one exactly when the first succeeded, and exactly one user holds the username afterwards |

## Left out

- `index.js` (server start-up), `app.js`, the login route and `models/user.js` are not part of this model. The user document's shape comes from the fields the handlers read and write. Username uniqueness comes from what the repository's test suite expects.
- The GET routes of both controllers are left out. They only read and populate.
- `jwt.verify` is a parameter of type `Verification`: either it rejects the token, or it yields the payload's `id` claim.
- `bcrypt.hash` is a parameter `hash: (string, nat) -> string`. The model does not capture its random salt.
- The error middleware behind `next(error)` is not part of this model. Those outcomes are `Forwarded(cause)`. The repository's test suite expects 401 for a rejected token and 400 for a validation or uniqueness error.
- The owner's `user.save()` is not awaited in the source. The model appends to the owner's list before answering. A crash or interleaving between the two writes is not modelled.
- Persistence calls (`save`, `findById`, `findByIdAndRemove`, `findByIdAndUpdate`) are map operations on `Db`. Fresh ObjectIds come from a counter.
- A request id that is not a well-formed ObjectId makes Mongoose throw a cast error. This is not modelled, because ids are typed.
- JavaScript coercions are not modelled. These are `undefined` likes summing to `NaN`, a missing author grouping under the key `"undefined"`, and number casting of `likes`. Aggregated records have a string author and integer likes.
- lodash groups integer-like author keys first. The model keeps groups in first-appearance order.
- String lengths count Unicode scalar values, not UTF-16 code units.
- `console.log` output is left out.
- BlogsController.Update: a body without `likes` stores no `likes`. Whether the store keeps `null` or drops the field is not distinguished.
- ObjectIds.ToHexString: an `ObjectId` is an unbounded number here, so an id too large for twelve bytes gets more than 24 digits. Real ObjectIds never are that large.
- ListHelper.FavoriteBlog: requires a non-empty list. On `[]` the source throws a TypeError while destructuring `undefined` (utils/list_helper.js:23), and that error path is not modelled.
- BlogsController.Delete: the store invariant gives every stored blog a `user`, because blogs enter the store only through Create. The schema leaves `user` optional (models/blog.js:16-19), and for a blog without one the source's `blogToDelete.user.toString()` throws (controllers/blogs.js:72). That path is not modelled.
