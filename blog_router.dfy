/**
 * The blog routes of controllers/blog.js over an in-memory store: a table of
 * blogs and a table of users, both keyed by ObjectId. Each handler is one
 * sequential step that reads or replaces the tables and yields a response.
 * The requester is the user id the identity middleware attached, if any.
 */
module BlogRouter {
  import opened Wrappers
  import opened ObjectIds
  import opened Json
  import BlogModel
  import UserModel

  type Blog = BlogModel.Blog
  type User = UserModel.User

  const UserNotFound: string := "User ID not exists"
  const NotOwner: string := "User must be the owner to delete a blog."
  const NoRecord: string := "No record to update."

  /** Errors a handler does not catch; the application's error handler turns them into responses. */
  datatype Failure =
    | CastError                          // an id string that is not 24 hexadecimal digits
    | ValidationFailed(messages: seq<string>)
    | DuplicateKey(key: string)
    | OwnerMissing                       // reading `.user.toString()` of a blog without an owner

  datatype Response = Reply(status: int, body: Option<Value>) | Raised(failure: Failure)

  datatype Lookup = Found(id: ObjectId) | NotFound | Malformed

  /** `Model.findById(key)`: an absent key finds nothing, a key that does not cast raises. */
  function FindById<V>(table: map<ObjectId, V>, key: Option<string>): (r: Lookup)
    ensures r.Found? ==> r.id in table && key.Some? && Cast(key.value) == Some(r.id)
    ensures r.Malformed? <==> key.Some? && Cast(key.value).None?
    ensures r.NotFound? <==> key.None? || (Cast(key.value).Some? && Cast(key.value).value !in table)
  {
    match key
    case None => NotFound
    case Some(s) =>
      match Cast(s)
      case None => Malformed
      case Some(id) => if id in table then Found(id) else NotFound
  }

  /** The owner as the list route's populate step selects it (name, username and id only), then serialised. */
  function OwnerView(u: User): (r: Object)
    ensures r.Keys == {"id", "username"} + (if u.name.Some? then {"name"} else {})
    ensures r["username"] == Str(u.username) && r["id"] == Str(ToHexString(u.id))
    ensures u.name.Some? ==> r["name"] == Str(u.name.value)
  {
    var selected := map["_id" := Id(u.id), "username" := Str(u.username)];
    UserModel.Transform(if u.name.Some? then selected["name" := Str(u.name.value)] else selected)
  }

  /** One entry of the list response: the serialised blog with its owner populated. */
  function Listed(b: Blog, users: map<ObjectId, User>): (r: Object)
    ensures r.Keys == BlogModel.ToJson(b).Keys
    ensures forall k :: k in r && k != "user" ==> r[k] == BlogModel.ToJson(b)[k]
    ensures "user" in r <==> b.user.Some?
    ensures b.user.Some? ==>
      r["user"] == if b.user.value in users then Obj(OwnerView(users[b.user.value])) else Null
  {
    BlogModel.ToJsonHasUser(b);
    Populate(BlogModel.ToJson(b), b.user, users)
  }

  /** The populate step: a referenced owner is replaced by its projection, or null when it is not stored. */
  function Populate(serialised: Object, owner: Option<ObjectId>, users: map<ObjectId, User>): (r: Object)
    ensures r.Keys == serialised.Keys + (if owner.Some? then {"user"} else {})
    ensures forall k :: k in serialised && k != "user" ==> r[k] == serialised[k]
    ensures owner.Some? ==> r["user"] == if owner.value in users then Obj(OwnerView(users[owner.value])) else Null
  {
    match owner
    case None => serialised
    case Some(id) => serialised["user" := if id in users then Obj(OwnerView(users[id])) else Null]
  }

  /** The users table keeps ids, schema validity and unique usernames when an owner gains a blog. */
  lemma AppendOwnedKeepsUsers(users: map<ObjectId, User>, owner: ObjectId, blog: ObjectId)
    requires owner in users
    requires forall id :: id in users ==> users[id].id == id && UserModel.WellFormed(users[id])
    requires UserModel.UniqueUsernames(users)
    ensures var users' := users[owner := users[owner].(blogs := users[owner].blogs + [blog])];
      && (forall id :: id in users' ==> users'[id].id == id && UserModel.WellFormed(users'[id]))
      && UserModel.UniqueUsernames(users')
  {
    var users' := users[owner := users[owner].(blogs := users[owner].blogs + [blog])];
    assert forall id :: id in users' ==> users'[id].username == users[id].username;
  }

  /** The id, title and likes of every entry of the list response. */
  lemma ListedEntries(blogs: map<ObjectId, Blog>, users: map<ObjectId, User>, r: map<ObjectId, Object>)
    requires r.Keys == blogs.Keys
    requires forall id :: id in r ==> r[id] == Listed(blogs[id], users)
    requires forall id :: id in blogs ==> blogs[id].id == id
    ensures forall id :: id in r ==>
      && "id" in r[id] && r[id]["id"] == Str(ToHexString(id))
      && "_id" !in r[id] && "__v" !in r[id]
      && "title" in r[id] && "likes" in r[id]
      && r[id]["title"] == Str(blogs[id].title) && r[id]["likes"] == Num(blogs[id].likes)
  {
    forall id | id in r
      ensures "id" in r[id] && r[id]["id"] == Str(ToHexString(id))
      ensures "_id" !in r[id] && "__v" !in r[id]
      ensures "title" in r[id] && "likes" in r[id]
      ensures r[id]["title"] == Str(blogs[id].title) && r[id]["likes"] == Num(blogs[id].likes)
    {
      ListedEntry(blogs[id], users);
    }
  }

  lemma ListedOwner(b: Blog, users: map<ObjectId, User>)
    ensures var e := Listed(b, users);
      "user" in e && e["user"].Obj? ==>
        "password" !in e["user"].fields && e["user"].fields.Keys <= {"name", "username", "id"}
  {
    var e := Listed(b, users);
    if "user" in e && e["user"].Obj? {
      var owner := b.user.value;
      assert owner in users;
      var v := OwnerView(users[owner]);
      assert e["user"].fields == v;
    }
  }

  /** A populated owner in the list response never shows more than name, username and id. */
  lemma ListedOwners(blogs: map<ObjectId, Blog>, users: map<ObjectId, User>, r: map<ObjectId, Object>)
    requires r.Keys == blogs.Keys
    requires forall id :: id in r ==> r[id] == Listed(blogs[id], users)
    ensures forall id :: id in r && "user" in r[id] && r[id]["user"].Obj? ==>
      && "password" !in r[id]["user"].fields
      && r[id]["user"].fields.Keys <= {"name", "username", "id"}
  {
    forall id | id in r && "user" in r[id] && r[id]["user"].Obj?
      ensures "password" !in r[id]["user"].fields
      ensures r[id]["user"].fields.Keys <= {"name", "username", "id"}
    {
      ListedOwner(blogs[id], users);
    }
  }

  lemma ListedEntry(b: Blog, users: map<ObjectId, User>)
    ensures var e := Listed(b, users);
      && e.Keys == BlogModel.ToJson(b).Keys
      && "id" in e && e["id"] == Str(ToHexString(b.id))
      && "_id" !in e && "__v" !in e
      && "title" in e && "url" in e && "likes" in e
      && e["title"] == Str(b.title) && e["url"] == Str(b.url) && e["likes"] == Num(b.likes)
      && ("author" in e <==> b.author.Some?)
      && (b.author.Some? ==> e["author"] == Str(b.author.value))
      && ("user" in e <==> b.user.Some?)
      && (b.user.Some? ==> e["user"] == if b.user.value in users then Obj(OwnerView(users[b.user.value])) else Null)
  {
    BlogModel.ToJsonFields(b);
  }

  class Store {
    var blogs: map<ObjectId, Blog>
    var users: map<ObjectId, User>

    /** Keys are the documents' ids, stored users satisfy the schema, and usernames are unique. */
    ghost predicate Valid()
      reads this
    {
      && (forall id :: id in blogs ==> blogs[id].id == id)
      && (forall id :: id in users ==> users[id].id == id && UserModel.WellFormed(users[id]))
      && UserModel.UniqueUsernames(users)
    }

    constructor ()
      ensures Valid() && blogs == map[] && users == map[]
    {
      blogs, users := map[], map[];
    }

    /**
     * GET /: every stored blog, serialised, with its owner reduced to name,
     * username and id (never the password). Keyed by blog id.
     */
    function List(): (r: map<ObjectId, Object>)
      reads this
      requires Valid()
      ensures r.Keys == blogs.Keys
      ensures forall id :: id in r ==> r[id] == Listed(blogs[id], users)
      ensures forall id :: id in r ==>
        && "id" in r[id] && r[id]["id"] == Str(ToHexString(id))
        && "_id" !in r[id] && "__v" !in r[id]
        && "title" in r[id] && "likes" in r[id]
        && r[id]["title"] == Str(blogs[id].title) && r[id]["likes"] == Num(blogs[id].likes)
      ensures forall id :: id in r && "user" in r[id] && r[id]["user"].Obj? ==>
        && "password" !in r[id]["user"].fields
        && r[id]["user"].fields.Keys <= {"name", "username", "id"}
    {
      var r := map id | id in blogs :: Listed(blogs[id], users);
      ListedEntries(blogs, users, r);
      ListedOwners(blogs, users, r);
      r
    }

    /**
     * POST /: the requester must resolve to a stored user; the blog is
     * saved with that user as owner, then the blog's id is appended to the
     * owner's list.
     */
    method Create(requester: Option<string>, body: BlogModel.BlogFields, newId: ObjectId) returns (resp: Response)
      requires Valid()
      modifies this
      ensures Valid()
      ensures FindById(old(users), requester).NotFound? ==>
        resp == Reply(400, Some(ErrorBody(UserNotFound))) && blogs == old(blogs) && users == old(users)
      ensures FindById(old(users), requester).Malformed? ==>
        resp == Raised(CastError) && blogs == old(blogs) && users == old(users)
      ensures FindById(old(users), requester).Found? ==>
        var owner := FindById(old(users), requester).id;
        var made := BlogModel.NewBlog(newId, body, owner);
        && (made.Failure? ==>
              resp == Raised(ValidationFailed(made.error)) && blogs == old(blogs) && users == old(users))
        && (made.Success? && newId in old(blogs) ==>
              resp == Raised(DuplicateKey("_id")) && blogs == old(blogs) && users == old(users))
        && (made.Success? && newId !in old(blogs) ==>
              && blogs == old(blogs)[newId := made.value]
              && users == old(users)[owner := old(users)[owner].(blogs := old(users)[owner].blogs + [newId])]
              && resp == Reply(201, Some(Obj(BlogModel.ToJson(made.value)))))
    {
      match FindById(users, requester)
      case NotFound =>
        resp := Reply(400, Some(ErrorBody(UserNotFound)));
      case Malformed =>
        resp := Raised(CastError);
      case Found(owner) =>
        var made := BlogModel.NewBlog(newId, body, owner);
        if made.Failure? {
          resp := Raised(ValidationFailed(made.error));
        } else if newId in blogs {
          resp := Raised(DuplicateKey("_id"));
        } else {
          var saved := made.value;
          blogs := blogs[newId := saved];
          var user := users[owner];
          AppendOwnedKeepsUsers(users, owner, saved.id);
          users := users[owner := user.(blogs := user.blogs + [saved.id])];
          resp := Reply(201, Some(Obj(BlogModel.ToJson(saved))));
        }
    }

    /**
     * DELETE /:id: only the requester whose id string equals the owner's id
     * string may delete. The owner's list of blogs is left as it was.
     */
    method Delete(requester: Option<string>, idParam: string) returns (resp: Response)
      requires Valid()
      modifies this
      ensures Valid()
      ensures users == old(users)
      ensures Cast(idParam).None? ==> resp == Raised(CastError) && blogs == old(blogs)
      ensures Cast(idParam).Some? && Cast(idParam).value !in old(blogs) ==>
        resp == Reply(404, None) && blogs == old(blogs)
      ensures Cast(idParam).Some? && Cast(idParam).value in old(blogs) ==>
        var id := Cast(idParam).value;
        var owner := old(blogs)[id].user;
        && (owner.None? ==> resp == Raised(OwnerMissing) && blogs == old(blogs))
        && (owner.Some? && requester != Some(ToHexString(owner.value)) ==>
              resp == Reply(400, Some(Str(NotOwner))) && blogs == old(blogs))
        && (owner.Some? && requester == Some(ToHexString(owner.value)) ==>
              && resp == Reply(204, None)
              && blogs == old(blogs) - {id}
              && |blogs| == |old(blogs)| - 1)
    {
      match Cast(idParam)
      case None =>
        resp := Raised(CastError);
      case Some(id) =>
        if id !in blogs {
          resp := Reply(404, None);
        } else {
          var saved := blogs[id];
          match saved.user
          case None =>
            resp := Raised(OwnerMissing);
          case Some(owner) =>
            if Some(ToHexString(owner)) != requester {
              resp := Reply(400, Some(Str(NotOwner)));
            } else {
              blogs := blogs - {id};
              resp := Reply(204, None);
            }
        }
    }

    /**
     * PUT /:id: no ownership check and no validation; the fields present in
     * the body overwrite the stored ones.
     */
    method Edit(idParam: string, body: BlogModel.BlogFields) returns (resp: Response)
      requires Valid()
      modifies this
      ensures Valid()
      ensures users == old(users)
      ensures Cast(idParam).None? ==> resp == Raised(CastError) && blogs == old(blogs)
      ensures Cast(idParam).Some? && Cast(idParam).value !in old(blogs) ==>
        resp == Reply(404, Some(ErrorBody(NoRecord))) && blogs == old(blogs)
      ensures Cast(idParam).Some? && Cast(idParam).value in old(blogs) ==>
        var id := Cast(idParam).value;
        && resp.Reply? && resp.status == 200
        && blogs == old(blogs)[id := BlogModel.Update(old(blogs)[id], body)]
        && |blogs| == |old(blogs)|
    {
      match Cast(idParam)
      case None =>
        resp := Raised(CastError);
      case Some(id) =>
        if id in blogs {
          var record := blogs[id];
          blogs := blogs[id := BlogModel.Update(record, body)];
          resp := Reply(200, Some(Obj(BlogModel.ToJson(record))));
        } else {
          resp := Reply(404, Some(ErrorBody(NoRecord)));
        }
    }

    /** Saving a new user document: schema validation, then the unique indexes. */
    method InsertUser(f: UserModel.UserFields, newId: ObjectId) returns (r: Result<User, UserModel.Rejection>)
      requires Valid()
      modifies this
      ensures Valid()
      ensures r == UserModel.Admit(old(users), newId, f)
      ensures blogs == old(blogs)
      ensures users == if r.Success? then old(users)[newId := r.value] else old(users)
    {
      r := UserModel.Admit(users, newId, f);
      if r.Success? {
        UserModel.AdmitKeepsUnique(users, newId, f);
        users := users[newId := r.value];
      }
    }
  }
}
