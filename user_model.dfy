/**
 * The user schema of models/user.js: username is required, at least three
 * characters long and unique; password is required; name is optional.
 * Serialisation renames `_id` to `id` and drops `__v` and the password.
 */
module UserModel {
  import opened Wrappers
  import opened ObjectIds
  import opened Json

  /** A stored user document; `password` holds whatever the caller stored (a hash). */
  datatype User = User(
    id: ObjectId,
    name: Option<string>,
    username: string,
    password: string,
    blogs: seq<ObjectId>,
    version: nat)

  datatype UserFields = UserFields(name: Option<string>, username: Option<string>, password: Option<string>)

  const MinUsernameLength: nat := 3
  const UsernameRequired: string := "username is required to create the user"
  const UsernameTooShort: string := "minimum length is 3 characters"
  const PasswordRequired: string := "password is required to create the user"

  /**
   * Validation messages in schema path order. On a path the required check
   * runs first and only the first failing check of a path is reported.
   */
  function Errors(f: UserFields): (errs: seq<string>)
    ensures errs == [] <==> Present(f.username) && |f.username.value| >= MinUsernameLength && Present(f.password)
    ensures UsernameRequired in errs <==> !Present(f.username)
    ensures UsernameTooShort in errs <==> Present(f.username) && |f.username.value| < MinUsernameLength
    ensures PasswordRequired in errs <==> !Present(f.password)
  {
    var usernameErrs :=
      if !Present(f.username) then [UsernameRequired]
      else if |f.username.value| < MinUsernameLength then [UsernameTooShort]
      else [];
    var passwordErrs := if Present(f.password) then [] else [PasswordRequired];
    usernameErrs + passwordErrs
  }

  /** What every stored user satisfies. */
  predicate WellFormed(u: User)
  {
    |u.username| >= MinUsernameLength && u.password != ""
  }

  ghost predicate UniqueUsernames(users: map<ObjectId, User>)
  {
    forall a, b :: a in users && b in users && a != b ==> users[a].username != users[b].username
  }

  predicate UsernameTaken(users: map<ObjectId, User>, username: string)
  {
    exists id :: id in users && users[id].username == username
  }

  datatype Rejection = Invalid(messages: seq<string>) | Duplicate(key: string)

  /**
   * Saving a new user: validation first, then the unique indexes on `_id`
   * and on `username`.
   */
  function Admit(users: map<ObjectId, User>, id: ObjectId, f: UserFields): (r: Result<User, Rejection>)
    ensures r.Failure? && r.error.Invalid? <==> Errors(f) != []
    ensures r.Failure? && r.error.Invalid? ==> r.error.messages == Errors(f)
    ensures r == Failure(Duplicate("_id")) <==> Errors(f) == [] && id in users
    ensures r == Failure(Duplicate("username")) <==>
              Errors(f) == [] && id !in users && UsernameTaken(users, f.username.value)
    ensures r.Success? <==> Errors(f) == [] && id !in users && !UsernameTaken(users, f.username.value)
    ensures r.Success? ==>
      && WellFormed(r.value)
      && r.value.id == id && id !in users
      && Some(r.value.username) == f.username && Some(r.value.password) == f.password
      && r.value.name == f.name && r.value.blogs == []
      && !UsernameTaken(users, r.value.username)
  {
    var errs := Errors(f);
    if errs != [] then Failure(Invalid(errs))
    else if id in users then Failure(Duplicate("_id"))
    else if UsernameTaken(users, f.username.value) then Failure(Duplicate("username"))
    else Success(User(id, f.name, f.username.value, f.password.value, [], 0))
  }

  /** Storing an admitted user keeps usernames unique. */
  lemma AdmitKeepsUnique(users: map<ObjectId, User>, id: ObjectId, f: UserFields)
    requires UniqueUsernames(users)
    requires Admit(users, id, f).Success?
    ensures UniqueUsernames(users[id := Admit(users, id, f).value])
  {
    var u := Admit(users, id, f).value;
    var users' := users[id := u];
    forall a, b | a in users' && b in users' && a != b
      ensures users'[a].username != users'[b].username
    {
      if a == id {
        assert users'[b] == users[b];
      } else if b == id {
        assert users'[a] == users[a];
      }
    }
  }

  function ToObject(u: User): (obj: Object)
    ensures obj.Keys == {"_id", "username", "password", "blogs", "__v"} + (if u.name.Some? then {"name"} else {})
    ensures obj["_id"] == Id(u.id)
  {
    var ids := seq(|u.blogs|, i requires 0 <= i < |u.blogs| => Id(u.blogs[i]));
    var base := map["_id" := Id(u.id), "username" := Str(u.username), "password" := Str(u.password),
                     "blogs" := Arr(ids), "__v" := Num(u.version)];
    if u.name.Some? then base["name" := Str(u.name.value)] else base
  }

  /** The stored document holds the user's username, password, name and owned blog ids. */
  lemma ToObjectValues(u: User)
    ensures var obj := ToObject(u);
      && obj["username"] == Str(u.username)
      && obj["password"] == Str(u.password)
      && obj["blogs"].Arr? && |obj["blogs"].items| == |u.blogs|
      && (forall i :: 0 <= i < |u.blogs| ==> obj["blogs"].items[i] == Id(u.blogs[i]))
      && (u.name.Some? ==> obj["name"] == Str(u.name.value))
  {
  }

  /** The schema's `toJSON` transform, which also deletes the password. */
  function Transform(obj: Object): (r: Object)
    requires "_id" in obj && obj["_id"].Id?
    ensures r.Keys == obj.Keys - {"_id", "__v", "password"} + {"id"}
    ensures "_id" !in r && "__v" !in r && "password" !in r
    ensures r["id"] == Str(ToHexString(obj["_id"].oid))
    ensures forall k :: k in obj && k !in {"_id", "__v", "id", "password"} ==> k in r && r[k] == obj[k]
  {
    IdTransform(obj, {"password"})
  }

  function ToJson(u: User): Object
  {
    Transform(ToObject(u))
  }

  /**
   * A serialised user never shows the password; its `id` casts back to the
   * user's id, and username, name and the owned blog ids keep their values.
   */
  lemma ToJsonHidesPassword(u: User)
    ensures var r := ToJson(u);
      && r.Keys == {"id", "username", "blogs"} + (if u.name.Some? then {"name"} else {})
      && "password" !in r
      && r["id"].Str? && Cast(r["id"].str) == Some(u.id)
      && r["username"] == Str(u.username)
      && r["blogs"].Arr? && |r["blogs"].items| == |u.blogs|
      && (forall i :: 0 <= i < |u.blogs| ==> r["blogs"].items[i] == Id(u.blogs[i]))
      && (u.name.Some? ==> r["name"] == Str(u.name.value))
  {
    CastToHexString(u.id);
    ToJsonKeys(u);
    ToJsonValues(u);
  }

  lemma ToJsonKeys(u: User)
    ensures ToJson(u).Keys == {"id", "username", "blogs"} + (if u.name.Some? then {"name"} else {})
  {
    var obj := ToObject(u);
    assert ToJson(u).Keys == obj.Keys - {"_id", "__v", "password"} + {"id"};
  }

  lemma ToJsonValues(u: User)
    ensures var r := ToJson(u);
      && r["id"] == Str(ToHexString(u.id))
      && "username" in r && r["username"] == Str(u.username)
      && "blogs" in r && r["blogs"] == ToObject(u)["blogs"]
      && (u.name.Some? ==> "name" in r && r["name"] == Str(u.name.value))
  {
    ToObjectValues(u);
  }
}
