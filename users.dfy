/** user.py: the User record, its flat-map encoding, and the user list
    with strict-unique add, search, update and delete. */
module Users {
  import opened Common

  datatype User = User(userId: string, name: string, extras: map<string, Value>)

  /** The two names `to_dict` writes before merging the extras. */
  const Fields: set<string> := {"user_id", "name"}

  /** Extra attributes that neither collide with a field `to_dict` writes
      nor with the constructor's `self` parameter. */
  predicate NoReservedKeys(extras: map<string, Value>)
  {
    extras.Keys !! Fields && "self" !in extras
  }

  /** `to_dict`: user_id and name, then the extras on top of them. */
  function ToDict(u: User): (d: Doc)
    ensures d.Keys == Fields + u.extras.Keys
    ensures forall k :: k in u.extras ==> d[k] == u.extras[k]
    ensures "user_id" !in u.extras ==> d["user_id"] == Text(u.userId)
    ensures "name" !in u.extras ==> d["name"] == Text(u.name)
  {
    map["user_id" := Text(u.userId), "name" := Text(u.name)] + u.extras
  }

  /** `from_dict`: take user_id, then name (failing on the first one
      missing), and pass everything else to the constructor as extras; a
      leftover "self" clashes with the constructor's own first parameter. */
  function FromDict(d: Doc): (r: Result<User>)
    ensures "user_id" !in d ==> r == Err(MissingField("user_id"))
    ensures "user_id" in d && d["user_id"].Text? && "name" !in d ==> r == Err(MissingField("name"))
    ensures "user_id" in d && d["user_id"].Text? && "name" in d && d["name"].Text? && "self" in d ==>
      r == Err(Clash("self"))
    ensures r.Ok? <==>
      "user_id" in d && d["user_id"].Text? && "name" in d && d["name"].Text? && "self" !in d
    ensures r.Ok? ==>
      && d["user_id"] == Text(r.value.userId)
      && d["name"] == Text(r.value.name)
      && r.value.extras == d - Fields
      && NoReservedKeys(r.value.extras)
  {
    var userId :- TextField(d, "user_id");
    var name :- TextField(d, "name");
    if "self" in d then Err(Clash("self")) else
    Ok(User(userId, name, d - Fields))
  }

  /** Encoding then decoding gives the user back, as long as no extra
      attribute is called "user_id", "name" or "self". */
  lemma RoundTrip(u: User)
    requires NoReservedKeys(u.extras)
    ensures FromDict(ToDict(u)) == Ok(u)
  {
    assert ToDict(u) - Fields == u.extras;
  }

  /** Decoding then encoding gives back exactly the map that was decoded. */
  lemma DecodeThenEncode(d: Doc, u: User)
    requires FromDict(d) == Ok(u)
    ensures ToDict(u) == d
  {
    var e := ToDict(u);
    forall k | k in d ensures e[k] == d[k] {
      if k !in Fields {
        assert k in u.extras;
      }
    }
    assert e.Keys == d.Keys;
  }

  ghost predicate AllNoReservedKeys(users: seq<User>)
  {
    forall i :: 0 <= i < |users| ==> NoReservedKeys(users[i].extras)
  }

  /** `save_users` then `load_users` gives the same list, when no user's
      extras use a field name. */
  lemma SaveLoadUsers(users: seq<User>)
    requires AllNoReservedKeys(users)
    ensures DecodeAll(EncodeAll(users, ToDict), FromDict) == Ok(users)
  {
    forall i | 0 <= i < |users| ensures FromDict(ToDict(users[i])) == Ok(users[i]) {
      RoundTrip(users[i]);
    }
    SaveLoadRoundTrip(users, ToDict, FromDict);
  }

  ghost predicate DistinctIds(users: seq<User>)
  {
    forall i, j :: 0 <= i < j < |users| ==> users[i].userId != users[j].userId
  }

  /** The linear scan every user operation starts with: the position of
      the first user with that id, if any. */
  function IndexOfId(users: seq<User>, userId: string): (r: Option<nat>)
    ensures r.Some? ==> r.value < |users| && users[r.value].userId == userId
    ensures r.Some? ==> forall j :: 0 <= j < r.value ==> users[j].userId != userId
    ensures r.None? <==> forall j :: 0 <= j < |users| ==> users[j].userId != userId
  {
    if users == [] then None
    else if users[0].userId == userId then Some(0)
    else match IndexOfId(users[1..], userId)
      case None => None
      case Some(k) => Some(k + 1)
  }

  /** `add_user` on the list: a known id is refused and nothing changes;
      a new id is appended as one new user at the end. */
  function AddUserTo(users: seq<User>, userId: string, name: string,
                     extras: map<string, Value>): (r: (Status, seq<User>))
    ensures r.0 == DuplicateKey <==> IndexOfId(users, userId).Some?
    ensures r.0 == DuplicateKey ==> r.1 == users
    ensures r.0 != DuplicateKey ==>
      r.0 == Done && r.1 == users + [User(userId, name, extras)]
    ensures IndexOfId(r.1, userId).Some?
    ensures DistinctIds(users) ==> DistinctIds(r.1)
    ensures AllNoReservedKeys(users) && NoReservedKeys(extras) ==> AllNoReservedKeys(r.1)
  {
    if IndexOfId(users, userId).Some? then (DuplicateKey, users)
    else
      var r := users + [User(userId, name, extras)];
      assert forall j :: 0 <= j < |users| ==> r[j] == users[j];
      assert r[|users|].userId == userId;
      (Done, r)
  }

  /** Whether `search_users` reports user `u`. "name" matches the name
      case-insensitively; "user_id" matches the id exactly; any other
      parameter matches the extra attribute of that name case-insensitively,
      and otherwise falls back on the name and the exact id. */
  predicate UserMatches(u: User, keyword: string, parameter: string)
  {
    if parameter == "name" then MatchesIgnoringCase(u.name, keyword)
    else if parameter == "user_id" then keyword == u.userId
    else
      || (parameter in u.extras && MatchesIgnoringCase(ToStr(u.extras[parameter]), keyword))
      || MatchesIgnoringCase(u.name, keyword)
      || keyword == u.userId
  }

  function UserTest(keyword: string, parameter: string): User -> bool
  {
    u => UserMatches(u, keyword, parameter)
  }

  /** What the filtered list holds, stated with `UserMatches` itself. */
  lemma UserFilterMeans(users: seq<User>, keyword: string, parameter: string)
    ensures var r := Filter(users, UserTest(keyword, parameter));
      && (forall u :: u in r <==> u in users && UserMatches(u, keyword, parameter))
      && (forall u :: multiset(r)[u] == if UserMatches(u, keyword, parameter) then multiset(users)[u] else 0)
      && IsSubseq(r, users)
  {
    var test := UserTest(keyword, parameter);
    assert forall u :: test(u) == UserMatches(u, keyword, parameter);
  }

  /** `update_user` on the list: for a known id, replace the name when one
      is given and merge the other keyword attributes into the extras; the
      id, the order and every other user stay as they were. An unknown id
      changes nothing. */
  function UpdateUserIn(users: seq<User>, userId: string, newName: Option<string>,
                        others: map<string, Value>): (r: seq<User>)
    ensures |r| == |users|
    ensures IndexOfId(users, userId).None? ==> r == users
    ensures IndexOfId(users, userId).Some? ==>
      var k := IndexOfId(users, userId).value;
      && r[k].userId == users[k].userId
      && r[k].name == (if newName.Some? then newName.value else users[k].name)
      && r[k].extras.Keys == users[k].extras.Keys + others.Keys
      && (forall a :: a in others ==> r[k].extras[a] == others[a])
      && (forall a :: a in users[k].extras && a !in others ==> r[k].extras[a] == users[k].extras[a])
      && forall j :: 0 <= j < |r| && j != k ==> r[j] == users[j]
    ensures forall j :: 0 <= j < |r| ==> r[j].userId == users[j].userId
    ensures DistinctIds(users) ==> DistinctIds(r)
    ensures AllNoReservedKeys(users) && NoReservedKeys(others) ==> AllNoReservedKeys(r)
  {
    match IndexOfId(users, userId)
    case None => users
    case Some(k) =>
      var u := users[k];
      var name := if newName.Some? then newName.value else u.name;
      var r := users[k := u.(name := name, extras := u.extras + others)];
      assert forall j :: 0 <= j < |r| && j != k ==> r[j] == users[j];
      r
  }

  /** `delete_user` on the list: for a known id, remove exactly that user,
      keeping the others in order. An unknown id changes nothing. */
  function DeleteUserFrom(users: seq<User>, userId: string): (r: seq<User>)
    ensures IndexOfId(users, userId).None? ==> r == users
    ensures IndexOfId(users, userId).Some? ==>
      var k := IndexOfId(users, userId).value;
      && |r| == |users| - 1
      && r[..k] == users[..k]
      && r[k..] == users[k + 1..]
    ensures DistinctIds(users) ==> DistinctIds(r) && IndexOfId(r, userId).None?
    ensures AllNoReservedKeys(users) ==> AllNoReservedKeys(r)
  {
    match IndexOfId(users, userId)
    case None => users
    case Some(k) => users[..k] + users[k + 1..]
  }

  /** ManageUsers: the ordered list of users and the last document written
      for it (`None` until the first save). */
  class UserList {
    var users: seq<User>
    ghost var saved: Option<seq<Doc>>

    constructor (initial: seq<User>)
      ensures users == initial && saved == None
    {
      users := initial;
      saved := None;
    }

    /** Add a user unless the id is taken; the list is saved only on success.
        `extras` are the keyword arguments, which can never be called
        "user_id", "name" or "self": Python binds those to the parameters. */
    method AddUser(userId: string, name: string, extras: map<string, Value>) returns (status: Status)
      requires NoReservedKeys(extras)
      modifies this
      ensures (status, users) == AddUserTo(old(users), userId, name, extras)
      ensures saved == if status == Done then Some(EncodeAll(users, ToDict)) else old(saved)
    {
      if IndexOfId(users, userId).Some? {
        status := DuplicateKey;
        return;
      }
      users := users + [User(userId, name, extras)];
      saved := Some(EncodeAll(users, ToDict));
      status := Done;
    }

    /** `list_users`: every user, in list order. */
    method ListUsers() returns (r: seq<User>)
      ensures r == users
    {
      r := users;
    }

    /** `search_users`: the users the parameter and keyword select, in list
        order, each as often as it stands in the list. */
    method SearchUsers(keyword: string, parameter: string) returns (results: seq<User>)
      ensures results == Filter(users, UserTest(keyword, parameter))
      ensures forall u :: u in results <==> u in users && UserMatches(u, keyword, parameter)
      ensures forall u :: multiset(results)[u] ==
                if UserMatches(u, keyword, parameter) then multiset(users)[u] else 0
      ensures IsSubseq(results, users)
    {
      results := SelectWhere(users, UserTest(keyword, parameter));
      UserFilterMeans(users, keyword, parameter);
    }

    /** Update a user in place; the list is saved only when the id is known.
        `newName` is the `name` keyword argument and `others` the rest;
        `user_id` and `self` can never be among them, as Python binds them
        to the method's own parameters. */
    method UpdateUser(userId: string, newName: Option<string>, others: map<string, Value>)
      returns (status: Status)
      requires NoReservedKeys(others)
      modifies this
      ensures status == if IndexOfId(old(users), userId).Some? then Done else NotFound
      ensures users == UpdateUserIn(old(users), userId, newName, others)
      ensures saved == if status == Done then Some(EncodeAll(users, ToDict)) else old(saved)
    {
      var found := IndexOfId(users, userId);
      match found
      case None =>
        status := NotFound;
      case Some(k) =>
        var u := users[k];
        if newName.Some? {
          u := u.(name := newName.value);
        }
        u := u.(extras := u.extras + others);
        users := users[k := u];
        saved := Some(EncodeAll(users, ToDict));
        status := Done;
    }

    /** Delete a user; the list is saved only when the id is known. */
    method DeleteUser(userId: string) returns (status: Status)
      modifies this
      ensures status == if IndexOfId(old(users), userId).Some? then Done else NotFound
      ensures users == DeleteUserFrom(old(users), userId)
      ensures saved == if status == Done then Some(EncodeAll(users, ToDict)) else old(saved)
    {
      var found := IndexOfId(users, userId);
      match found
      case None =>
        status := NotFound;
      case Some(k) =>
        users := users[..k] + users[k + 1..];
        saved := Some(EncodeAll(users, ToDict));
        status := Done;
    }
  }
}
