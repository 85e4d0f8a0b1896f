# Blog list backend: a Dafny model

This project models the parts of a small blog-sharing REST backend (Express and Mongoose) that carry logic:

- **Aggregation helpers** (`utils/list_helper.js`). These are pure folds over a list of blog records (title, author, likes): `dummy`, `totalLikes`, `favoriteBlog`, `mostBlogs` and `mostLikes`. Each JavaScript `reduce` is a left fold. It is written as the step applied to the fold of all entries but the last, and to the last entry. `lodash.groupBy` and `lodash.maxBy` are modelled as well: the keys come in order of first appearance, and `maxBy` keeps the first strict maximum.
- **Blog routes** (`controllers/blog.js`). A `Store` class holds two maps: blog id to blog, and user id to user. GET `/` is a function that reads the store. POST `/`, DELETE `/:id` and PUT `/:id` are methods that replace the maps and return a response. The requester is the user id string that the identity middleware attached, if any. Errors the handlers do not catch are returned as `Raised(...)`: a malformed id, a validation error, a duplicate key, or a blog without an owner. The application's error handler turns them into status codes.
- **Schemas** (`models/blog.js`, `models/user.js`). The model covers:
  - the required, default and minimum-length rules, with their messages;
  - username uniqueness against the stored users;
  - the `toJSON` transforms. They set `id` to the string form of `_id`, delete `_id` and `__v`, and for users also delete `password`.

Document ids are twelve-byte ObjectIds. Their string form is 24 lower-case hexadecimal digits. A string cast back to an id must be exactly 24 hexadecimal digits, in either case, as recent bson casts it.

Files: `wrappers.dfy` (Option, Result), `object_ids.dfy`, `json.dfy`, `list_helper.dfy`, `blog_model.dfy`, `user_model.dfy`, `blog_router.dfy`.

In these places the code does something its names or the usual convention would not suggest; the model follows the code:
- `favoriteBlog` breaks ties toward the **later** entry. Its replacement test `Math.max(result.likes, current.likes) === current.likes` also fires on equal likes.
- Deleting a blog that has no owner does not fail as a mismatch: reading `savedBlog.user.toString()` throws.
- A delete without a requester responds 400, because the owner string never equals `undefined`.
- A successful delete does not remove the id from the owner's `blogs` list.
- Edits are neither ownership-gated nor validated.
- The delete ownership check compares the owner id's lower-case string with the requester string as given. A requester id spelled with upper-case digits finds its user on create, but never matches on delete.

## Model

| member | source | states |
|---|---|---|
| ListHelper.Dummy | utils/list_helper.js:3-5 | returns 1 whatever the input |
| ListHelper.TotalLikes | utils/list_helper.js:7-9 | `totalLikes` as a left fold; characterised by TotalLikesIsSum, TotalLikesAppend and TotalLikesBounds |
| ListHelper.TotalLikesIsSum | utils/list_helper.js:7-9 | the fold equals the arithmetic sum of the `likes` fields (reference definition summing head first), and is 0 for no blogs |
| ListHelper.TotalLikesAppend | utils/list_helper.js:7-9 | the total of a concatenation is the sum of the two totals |
| ListHelper.TotalLikesBounds | utils/list_helper.js:7-9 | with no negative like counts, the total is non-negative and at least every entry's likes |
| ListHelper.FavoriteBlog | utils/list_helper.js:11-19 | `favoriteBlog` as a left fold with the code's replacement test; characterised by FavoriteBlogIsLastMaximum and FavoriteBlogPrefersLater |
| ListHelper.FavoriteBlogIsLastMaximum | utils/list_helper.js:11-19 | the result is `{}` exactly for an empty list; otherwise it is the entry at an index holding the most likes, after which every entry has strictly fewer |
| ListHelper.FavoriteBlogIsMaximal | utils/list_helper.js:12-18 | for a non-empty list the result is an element of the input with likes ≥ every element's likes |
| ListHelper.FavoriteBlogPrefersLater | utils/list_helper.js:14 | on tied likes the later entry is returned: the last most-liked entry is exactly the result |
| ListHelper.MaxBy | utils/list_helper.js:23 | `lodash.maxBy`, replacing the kept element only on a strictly larger key; characterised by MaxByIsFirstMaximum |
| ListHelper.MaxByIsFirstMaximum | utils/list_helper.js:23 | `maxBy` is absent exactly for an empty list; otherwise it returns the first element whose key is maximal |
| ListHelper.GroupByAuthor | utils/list_helper.js:22 | `lodash.groupBy` on the author; characterised by GroupByAuthorGroups |
| ListHelper.GroupByAuthorGroups | utils/list_helper.js:22 | the grouping has one key per input author, keys in order of first appearance, each holding exactly that author's entries in input order |
| ListHelper.MostBlogsAsWritten | utils/list_helper.js:21-25 | `mostBlogs` exactly as written, including the truthiness test on the winning author; characterised by MostBlogsAsWrittenDropsEmptyAuthor and MostBlogsAsWrittenAgrees |
| ListHelper.MostBlogs | utils/list_helper.js:21-25 | `mostBlogs` as intended, `{}` only when there is no winner at all; characterised by MostBlogsIsMaximum |
| ListHelper.MostBlogsIsMaximum | utils/list_helper.js:21-25 | `{}` exactly for no blogs; otherwise an input author, with `blogs` equal to that author's entry count, no author having more entries, and every author appearing earlier having strictly fewer |
| ListHelper.MostBlogsAsWrittenDropsEmptyAuthor | utils/list_helper.js:24 | as written, a one-entry list whose author is `""` yields `{}`, where the intended result is that author with count 1 |
| ListHelper.MostBlogsAsWrittenAgrees | utils/list_helper.js:24 | as written, the result differs from the intended one only when the winning author is `""` |
| ListHelper.AuthorTotalsAreSums | utils/list_helper.js:31-34 | the mapped records name exactly the input authors, each once, in order of first appearance, each with the sum of that author's likes |
| ListHelper.MostLikes | utils/list_helper.js:27-37 | `mostLikes`: `{}` for an empty list, otherwise `maxBy` over the per-author totals; characterised by MostLikesIsMaximum |
| ListHelper.MostLikesIsMaximum | utils/list_helper.js:27-37 | `{}` exactly for no blogs; otherwise an input author, with `likes` equal to that author's summed likes, no author's sum being larger, and every author appearing earlier having a strictly smaller sum |
| ObjectIds.ToHexString | models/blog.js:25 | an id's string form is 24 lower-case hexadecimal digits |
| ObjectIds.Cast | controllers/blog.js:32 | a string casts to an id exactly when it consists of 24 hexadecimal digits of either case |
| ObjectIds.CastToHexString | models/blog.js:25 | casting an id's string form gives the same id back |
| ObjectIds.ToHexStringInjective | models/blog.js:25 | two ids have equal string forms exactly when they are the same id |
| ObjectIds.ToHexStringOfCast | models/blog.js:25 | a string that casts to an id is that id's string form exactly when all its digits are lower case |
| ObjectIds.OwnerStringMatch | controllers/blog.js:37 | a requester string that casts to an id equals an owner's string form exactly when the owner is that id and the requester wrote it in lower case |
| Json.IdTransform | models/blog.js:23-29 | the transform both schemas share: `id` becomes the string of `_id`, `_id`, `__v` and the hidden keys are removed, every other key keeps its value |
| BlogModel.Errors | models/blog.js:4-12 | no messages exactly when title and url are present and non-empty; `'Title is a required value'` is reported iff the title is missing, `'Url is a required value'` iff the url is missing; author is never checked |
| BlogModel.NewBlog | models/blog.js:3-21 | a new document fails validation exactly when title or url is missing; otherwise it carries the body's title, author and url, likes 0 when absent, and the given owner |
| BlogModel.Update | controllers/blog.js:50 | each field present in the body overwrites the stored one; absent fields, the id and the version are kept |
| BlogModel.UpdateIdempotent | controllers/blog.js:50 | applying the same update twice equals applying it once |
| BlogModel.UpdateLikesOnly | controllers/blog.js:50 | a body with only `likes` changes only the likes |
| BlogModel.ToObject | models/blog.js:3-21 | the stored document has `_id`, title, url, likes and `__v`, plus author and user when set |
| BlogModel.Transform | models/blog.js:23-29 | the transform sets `id` to the string of `_id`, removes `_id` and `__v`, and keeps every other key and value |
| BlogModel.ToJson | models/blog.js:23-29 | the serialised document; characterised by ToJsonFields |
| BlogModel.ToJsonFields | models/blog.js:24-27 | a serialised blog has exactly `id`, title, url, likes (plus author and user when set) with the stored values, and its `id` casts back to the blog's id |
| UserModel.Errors | models/user.js:5-14 | no messages exactly when the username is present with at least 3 characters and the password is present; `'username is required to create the user'` iff the username is missing, `'minimum length is 3 characters'` iff it is present and shorter, `'password is required to create the user'` iff the password is missing |
| UserModel.Admit | models/user.js:9 | saving fails with the validation messages exactly when invalid; it fails as a duplicate `_id` exactly when it is valid and the id is stored; it fails as a duplicate `username` exactly when it is valid, its id is new and a stored user holds the username; it succeeds exactly when it is valid, its id is new and the username is unused; an admitted user is well-formed, carries the given fields and shares no username with a stored user |
| UserModel.AdmitKeepsUnique | models/user.js:9 | storing an admitted user keeps usernames unique |
| UserModel.ToObject | models/user.js:3-19 | the stored document has `_id`, username, password, blogs and `__v`, plus name when set |
| UserModel.ToObjectValues | models/user.js:3-19 | the stored document holds the user's username, password, name (when set) and the owned blog ids in order |
| UserModel.Transform | models/user.js:21-28 | the transform sets `id` to the string of `_id`, removes `_id`, `__v` and `password`, and keeps every other key and value |
| UserModel.ToJson | models/user.js:21-28 | the serialised user; characterised by ToJsonHidesPassword |
| UserModel.ToJsonHidesPassword | models/user.js:22-27 | a serialised user has exactly `id`, username, blogs (plus name), never `password`; its `id` casts back to the user's id, and username, name and the owned blog ids keep their values |
| BlogRouter.FindById | controllers/blog.js:14 | a lookup finds a stored id exactly when the key is present and casts to it; a key that does not cast is malformed; an absent key finds nothing |
| BlogRouter.OwnerView | controllers/blog.js:8 | the populated owner shows only id, username and name |
| BlogRouter.Populate | controllers/blog.js:8 | the populate step: a referenced owner becomes its projection, or null when it is not stored; no other key changes |
| BlogRouter.Listed | controllers/blog.js:7-9 | a listed blog has exactly the serialised blog's keys and values, except that `user` is present exactly when the blog has an owner and holds the owner's projection, or null when the owner is not stored |
| BlogRouter.ListedEntry | controllers/blog.js:7-9 | a listed blog shows `id` as the id's string, no `_id` or `__v`, the stored title, url and likes, the author exactly when set, and the populated owner exactly when set |
| BlogRouter.ListedOwner | controllers/blog.js:8 | a populated owner never shows the password or any key besides name, username and id |
| BlogRouter.AppendOwnedKeepsUsers | controllers/blog.js:24-25 | appending a blog id to an owner's list keeps user ids, schema validity and unique usernames |
| BlogRouter.Store.List | controllers/blog.js:7-10 | one entry per stored blog, keyed by its id, each the listed form of that blog (see Listed); in particular `id` is the id's string, no `_id` or `__v`, the stored title and likes, and an owner projection without password and with no key besides name, username and id |
| BlogRouter.Store.Create | controllers/blog.js:12-28 | an absent or unknown requester gets 400 `'User ID not exists'` and the tables are unchanged; a failed validation changes nothing; on success the new blog is stored with the requester as owner, the owner's list is the old list with the new id appended, and the response is 201 with the serialised blog |
| BlogRouter.Store.Delete | controllers/blog.js:30-45 | a missing blog gets 404; a requester string other than the owner id's lower-case string form (see OwnerStringMatch) gets 400 `'User must be the owner to delete a blog.'`; both leave the store unchanged; the owner's request removes exactly that blog (count drops by one), leaves users unchanged and gets 204 |
| BlogRouter.Store.Edit | controllers/blog.js:47-57 | a missing id gets 404 `'No record to update.'` and nothing changes; otherwise the blog is replaced by the merge of the body into it, other blogs and the count are kept, and the status is 200 |
| BlogRouter.Store.InsertUser | models/user.js:5-14 | saving a user stores it exactly when it is admitted (valid, new id, unused username), and keeps usernames unique across the store |

## Left out

- Password hashing (bcrypt), token signing and verification (jsonwebtoken), and the login and user-creation routes (controllers/login.js, controllers/user.js) are not modelled. The stored `password` is whatever string the caller supplies.
- The identity middleware (`tokenExtractor`, `userExtractor`) is not part of this model. The requester id is a parameter.
- The error handler and the unknown-endpoint fallback are not part of this model. The statuses and messages for `Raised` failures are not modelled. This includes the 400 for a malformed id and the message for a duplicate username.
- Database and HTTP plumbing is not modelled: connections, async I/O, logging, and concurrency between requests. Each handler is one atomic step, so the window between Create's two writes is not modelled.
- Likes are unbounded integers. JavaScript numbers are doubles, and NaN, fractional and non-numeric likes are not modelled. Neither is the cast of a numeric string to a number.
- In `Object.keys`, keys that look like array indices (for example an author named `"7"`) come first, in ascending order. The model lists every author in order of first appearance, so this only affects tie-breaking in mostBlogs and mostLikes.
- The list response is a map keyed by blog id. The order of the response array (the collection's natural order) is not modelled.
- The `__v` version key is never incremented. Mongoose versioning on `user.save()` is not modelled.
- Request bodies are limited to the schema fields. The model does not cover keys outside the schema or an `_id` in the body. It also does not cover the cast of a `user` string in a PUT body: the model takes that value as an id that has already been cast.
- ObjectIds.Cast: the cast accepts only 24 hexadecimal digits, as recent bson does. Older bson also casts any 12-character string, byte by byte; that path is not modelled.
- Only string keys are cast to ids. Mongoose's other ObjectId inputs (buffers, objects) are not modelled.
- Username length is counted in Dafny characters. JavaScript counts UTF-16 code units.
- ListHelper.Blog: the author is a string. A record without an author is represented by the string `"undefined"`, which is the key `lodash.groupBy` files it under, so mostBlogs and mostLikes may answer with that author.
- BlogRouter.Store.Edit: the contract states the status only, not the response body. That body is the stored document as it was before the update, which is Mongoose's default.

## Findings

| source | as written | input that shows it | evidently intended | confidence | as-written member | corrected member |
|---|---|---|---|---|---|---|
| utils/list_helper.js:24 | `mostBlogsAuthor ? {...} : {}` tests whether the winning author name is truthy, so an empty-string author yields `{}` | `[{ title: 'Untitled', author: '', likes: 1 }]` | `{ author: '', blogs: 1 }`: `{}` only for an empty list, as mostLikes does | not executed; medium | ListHelper.MostBlogsAsWrittenDropsEmptyAuthor | ListHelper.MostBlogsIsMaximum |
