/** The in-memory user store: the `User` and `UserRef` records and the
    controller that hands out ids and keeps users by id. */
module Server {
  import opened Python

  /** The attribute slots of a `User`, which are also the parameters of its
      constructor, in declaration order. */
  const UserSlots: seq<string> := ["id_", "name", "email", "age", "sex"]
  const IdSlot: string := "id_"

  /** The fields a caller supplies when creating a user. */
  const UserFields: set<string> := {"name", "email", "age", "sex"}

  /** One stored user. Nothing constrains the attribute values; the
      controller only ever stores users whose `id` is an `Int`. */
  datatype User = User(id: Value, name: Value, email: Value, age: Value, sex: Value)

  /** The listing projection of a user. */
  datatype UserRef = UserRef(id: Value, name: Value, url: Value)

  /** A user's attributes as a dictionary from slot name to value. */
  function Attributes(u: User): map<string, Value>
  {
    map["id_" := u.id, "name" := u.name, "email" := u.email, "age" := u.age, "sex" := u.sex]
  }

  /** The slots are the caller's fields plus the id. */
  lemma SlotsAreFieldsAndId()
    ensures Names(UserSlots) == UserFields + {IdSlot}
    ensures IdSlot !in UserFields
  {
  }

  /** `User(**kwargs)`: succeeds exactly when the keywords are the five
      slots, and then the new user's attributes are those keyword values. */
  function NewUser(kwargs: map<string, Value>): (r: Result<User, BindError>)
    ensures r.Ok? <==> kwargs.Keys == Names(UserSlots)
    ensures r.Ok? ==> Attributes(r.value) == kwargs
    ensures r.Err? ==> (r.error.UnexpectedKeywords? <==> !(kwargs.Keys <= Names(UserSlots)))
  {
    match BindArguments(UserSlots, kwargs)
    case Ok(args) => Ok(User(args[0], args[1], args[2], args[3], args[4]))
    case Err(e) => Err(e)
  }

  /** A user's own attribute dictionary rebuilds it. */
  lemma NewUserOfAttributes(u: User)
    ensures NewUser(Attributes(u)) == Ok(u)
  {
  }

  /** Once the id slot is set, `User(**data)` succeeds exactly when the
      caller supplied the four fields and nothing else. */
  lemma {:induction false} NewUserAfterIdSet(data: map<string, Value>, id: int)
    ensures NewUser(data[IdSlot := Int(id)]).Ok? <==> data.Keys - {IdSlot} == UserFields
    ensures NewUser(data[IdSlot := Int(id)]).Ok? ==> NewUser(data[IdSlot := Int(id)]).value.id == Int(id)
  {
    SlotsAreFieldsAndId();
    var kwargs := data[IdSlot := Int(id)];
    assert kwargs.Keys == data.Keys - {IdSlot} + {IdSlot};
    var r := NewUser(kwargs);
    if r.Ok? {
      assert r.value.id == Attributes(r.value)[IdSlot];
    }
  }

  /** `s` lists distinct ids in ascending order. */
  predicate StrictlyIncreasing(s: seq<int>)
  {
    forall i, j :: 0 <= i < j < |s| ==> s[i] < s[j]
  }

  /** `m` is the smallest of `ids`. */
  predicate IsLeast(m: int, ids: set<int>)
  {
    m in ids && forall k :: k in ids ==> m <= k
  }

  /** Some member of a non-empty set. */
  lemma Member<T>(s: set<T>) returns (x: T)
    requires s != {}
    ensures x in s
  {
    x :| x in s;
  }

  /** A set without members is empty. */
  lemma NoMembersEmpty<T>(s: set<T>)
    requires forall x :: x !in s
    ensures s == {}
  {
  }

  /** Every non-empty finite set of ids has a least element. */
  lemma {:induction false} LeastExists(ids: set<int>)
    requires ids != {}
    ensures exists m :: IsLeast(m, ids)
    decreases |ids|
  {
    var x := Member(ids);
    var rest := ids - {x};
    if rest == {} {
      assert ids == {x};
      assert IsLeast(x, ids);
    } else {
      LeastExists(rest);
      var m :| IsLeast(m, rest);
      var least := if x < m then x else m;
      assert IsLeast(least, ids) by {
        forall k | k in ids ensures least <= k { if k != x { assert k in rest; } }
      }
    }
  }

  /** There is at most one least element. */
  lemma LeastUnique(ids: set<int>)
    ensures forall a, b :: IsLeast(a, ids) && IsLeast(b, ids) ==> a == b
  {
  }

  /** `sorted(ids)`: the ids in ascending order. */
  function SortedIds(ids: set<int>): (s: seq<int>)
    ensures |s| == |ids|
    ensures forall k :: k in ids <==> k in s
    ensures StrictlyIncreasing(s)
    decreases |ids|
  {
    if ids == {} then []
    else
      LeastExists(ids);
      LeastUnique(ids);
      var m :| IsLeast(m, ids);
      [m] + SortedIds(ids - {m})
  }

  /** The listing of a non-empty set starts with its least element. */
  lemma SortedIdsFirst(ids: set<int>, m: int)
    requires IsLeast(m, ids)
    ensures SortedIds(ids) == [m] + SortedIds(ids - {m})
  {
  }

  /** The first element of a strictly increasing sequence is its least. */
  lemma HeadIsLeast(ids: set<int>, s: seq<int>)
    requires StrictlyIncreasing(s) && s != []
    requires forall k :: k in ids <==> k in s
    ensures IsLeast(s[0], ids)
    ensures forall k :: k in ids - {s[0]} <==> k in s[1..]
  {
  }

  /** Only one strictly increasing sequence holds exactly the given ids. */
  lemma {:induction false} SortedIdsUnique(ids: set<int>, s: seq<int>)
    requires StrictlyIncreasing(s)
    requires forall k :: k in ids <==> k in s
    ensures s == SortedIds(ids)
    decreases |s|
  {
    if s == [] {
      assert forall k :: k !in ids;
      NoMembersEmpty(ids);
    } else {
      HeadIsLeast(ids, s);
      var rest := ids - {s[0]};
      SortedIdsUnique(rest, s[1..]);
      SortedIdsFirst(ids, s[0]);
      assert s == [s[0]] + s[1..];
    }
  }

  /** Adding an id above every existing one appends it to the listing. */
  lemma SortedIdsExtend(ids: set<int>, n: int)
    requires forall k :: k in ids ==> k < n
    ensures SortedIds(ids + {n}) == SortedIds(ids) + [n]
  {
    var s := SortedIds(ids) + [n];
    assert StrictlyIncreasing(s) by {
      forall i, j | 0 <= i < j < |s| ensures s[i] < s[j] {
        if j == |s| - 1 && i < j {
          assert s[i] in ids;
        }
      }
    }
    SortedIdsUnique(ids + {n}, s);
  }

  /** Every stored user sits under its own id, and every id is below the
      counter, so the counter's value is always free. */
  ghost predicate Registered(users: map<int, User>, lastId: nat)
  {
    forall id :: id in users ==> 0 <= id < lastId && users[id].id == Int(id)
  }

  /** Storing a user carrying the counter's value under that value, and
      advancing the counter, keeps every stored user registered. */
  lemma RegisterNext(users: map<int, User>, lastId: nat, u: User)
    requires Registered(users, lastId)
    requires u.id == Int(lastId)
    ensures lastId !in users
    ensures Registered(users[lastId := u], lastId + 1)
  {
  }

  class UserController {
    var users: map<int, User>
    var lastId: nat

    ghost predicate Valid()
      reads this
    {
      Registered(users, lastId)
    }

    constructor ()
      ensures Valid()
      ensures users == map[] && lastId == 0
    {
      users := map[];
      lastId := 0;
    }

    /** `create(data)`: takes the counter's value as the new id, advances the
        counter, writes the id into the caller's `data`, builds a `User` from
        `data` and stores it under the id. The counter advances and `data`
        changes even when building the user fails. */
    method Create(data: Dict) returns (outcome: Outcome<BindError>)
      requires Valid()
      modifies this, data
      ensures Valid()
      ensures lastId == old(lastId) + 1
      ensures data.items == old(data.items)[IdSlot := Int(old(lastId))]
      ensures outcome.Pass? <==> old(data.items).Keys - {IdSlot} == UserFields
      ensures outcome.Fail? ==> users == old(users) && NewUser(data.items) == Err(outcome.error)
      ensures outcome.Pass? ==>
                && NewUser(data.items).Ok?
                && old(lastId) !in old(users)
                && users == old(users)[old(lastId) := NewUser(data.items).value]
                && users[old(lastId)].id == Int(old(lastId))
                && Attributes(users[old(lastId)]) == data.items
                && SortedIds(users.Keys) == SortedIds(old(users).Keys) + [old(lastId)]
    {
      var id := lastId;
      NewUserAfterIdSet(data.items, id);
      lastId := lastId + 1;
      data.SetItem(IdSlot, Int(id));
      var r := NewUser(data.items);
      if r.Ok? {
        RegisterNext(users, id, r.value);
        assert users[id := r.value].Keys == users.Keys + {id};
        SortedIdsExtend(users.Keys, id);
        users := users[id := r.value];
        outcome := Pass;
      } else {
        outcome := Fail(r.error);
      }
    }

    /** The first step of `list()`: the stored ids in ascending order. */
    method ListIds() returns (ids: seq<int>)
      ensures forall id :: id in users <==> id in ids
      ensures |ids| == |users|
      ensures StrictlyIncreasing(ids)
    {
      ids := SortedIds(users.Keys);
    }
  }
}
