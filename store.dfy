/** The in-memory user directory of app/main.py: the dictionary `users_db`
    from id to `User`, its key insertion order (which `list(users_db.values())`
    observes), and the counter `next_user_id`. Each handler runs after the
    framework has validated its body, so each method below takes the raw body
    and validates it first. */
module UserDirectory {
  import opened Models

  /** What a handler answers: a record (200 or 201), an empty 204, a 404
      naming the id, or a 422 listing the failing fields. */
  datatype Response = Record(user: User) | NoContent | NotFound(id: int) | Invalid(errors: seq<FieldError>)

  predicate Increasing(s: seq<int>) {
    forall i, j :: 0 <= i < j < |s| ==> s[i] < s[j]
  }

  /** The key order left by `del d[id]`: `id` is dropped, the rest keep their order. */
  function Without(order: seq<int>, id: int): (r: seq<int>)
    ensures forall k :: k in r <==> k in order && k != id
    ensures |r| <= |order|
    ensures Increasing(order) ==> Increasing(r)
  {
    if order == [] then []
    else if order[0] == id then Without(order[1..], id)
    else
      var rest := Without(order[1..], id);
      assert Increasing(order) ==> Increasing(order[1..]) && forall k :: k in rest ==> order[0] < k by {
        if Increasing(order) {
          forall k | k in order[1..] ensures order[0] < k {
            var j :| 0 <= j < |order[1..]| && order[1..][j] == k;
            assert order[j + 1] == k;
          }
        }
      }
      assert Increasing(order) ==> forall j :: 0 <= j < |rest| ==> order[0] < rest[j] by {
        forall j | 0 <= j < |rest| ensures rest[j] in rest { }
      }
      [order[0]] + rest
  }

  /** `list(users.values())` when `order` is the key insertion order. */
  function ValuesInOrder(users: map<int, User>, order: seq<int>): (r: seq<User>)
    requires forall i :: 0 <= i < |order| ==> order[i] in users
    ensures |r| == |order|
    ensures forall i :: 0 <= i < |order| ==> r[i] == users[order[i]]
  {
    if order == [] then [] else [users[order[0]]] + ValuesInOrder(users, order[1..])
  }

  /** An increasing sequence that enumerates a set of keys has one entry per key. */
  lemma {:induction false} OrderCoversKeys(order: seq<int>, keys: set<int>)
    requires Increasing(order)
    requires forall i :: 0 <= i < |order| ==> order[i] in keys
    requires forall k :: k in keys ==> k in order
    ensures |order| == |keys|
  {
    if order != [] {
      var tail, rest := order[1..], keys - {order[0]};
      forall i | 0 <= i < |tail| ensures tail[i] in rest {
        assert tail[i] == order[i + 1] != order[0];
      }
      forall k | k in rest ensures k in tail {
        var j :| 0 <= j < |order| && order[j] == k;
        assert tail[j - 1] == k;
      }
      OrderCoversKeys(tail, rest);
      assert keys == rest + {order[0]};
    } else {
      assert forall k :: k !in keys;
      assert keys == {};
    }
  }

  /** Appending a key above every key keeps the order increasing and the key fresh. */
  lemma AppendLarger(order: seq<int>, id: int)
    requires Increasing(order)
    requires forall i :: 0 <= i < |order| ==> order[i] < id
    ensures Increasing(order + [id]) && id !in order
  {
  }

  /** A record inserted under a fresh key is listed after all older ones. */
  lemma ListAfterInsert(users: map<int, User>, order: seq<int>, id: int, u: User)
    requires forall i :: 0 <= i < |order| ==> order[i] in users
    requires id !in order
    ensures ValuesInOrder(users[id := u], order + [id]) == ValuesInOrder(users, order) + [u]
  {
  }

  /** Every listed value is a stored record, filed under its own id. */
  lemma ListedAreStored(users: map<int, User>, order: seq<int>, u: User)
    requires forall k :: k in users ==> users[k].id == k
    requires forall i :: 0 <= i < |order| ==> order[i] in users
    requires u in ValuesInOrder(users, order)
    ensures u.id in users && users[u.id] == u
  {
    var us := ValuesInOrder(users, order);
    var i :| 0 <= i < |us| && us[i] == u;
    var k := order[i];
    assert k in users && u == users[k] && users[k].id == k;
  }

  /** Every stored record is listed. */
  lemma StoredAreListed(users: map<int, User>, order: seq<int>, id: int)
    requires forall i :: 0 <= i < |order| ==> order[i] in users
    requires id in users && id in order
    ensures users[id] in ValuesInOrder(users, order)
  {
  }

  class UserStore {
    /** `users_db` */
    var users: map<int, User>
    /** The insertion order of the keys of `users_db`. */
    var order: seq<int>
    /** `next_user_id` */
    var nextId: int
    /** Every id ever handed out, deleted ones included. */
    ghost var issued: set<int>

    /** The store invariant: each record sits under its own id, every key was
        issued, ids are issued from 1 upward with no gaps, every record
        satisfies the schema, and the key order is the creation order. */
    ghost predicate Valid()
      reads this
    {
      && 1 <= nextId
      && (forall k :: k in issued <==> 1 <= k < nextId)
      && (forall k :: k in users ==> users[k].id == k && k in issued && ValidUser(users[k]))
      && (forall i :: 0 <= i < |order| ==> order[i] in users)
      && (forall k :: k in users ==> k in order)
      && Increasing(order)
    }

    /** A fresh process: an empty directory and the counter at 1. */
    constructor ()
      ensures Valid()
      ensures users == map[] && order == [] && nextId == 1 && issued == {}
    {
      users, order, nextId := map[], [], 1;
      issued := {};
    }

    /** `get_users`: every stored record exactly once, oldest first. */
    method List() returns (us: seq<User>)
      requires Valid()
      ensures us == ValuesInOrder(users, order)
      ensures |us| == |users|
      ensures forall u :: u in us <==> u.id in users && users[u.id] == u
      ensures forall i, j :: 0 <= i < j < |us| ==> us[i].id < us[j].id
    {
      us := ValuesInOrder(users, order);
      OrderCoversKeys(order, users.Keys);
      forall u | u in us ensures u.id in users && users[u.id] == u {
        ListedAreStored(users, order, u);
      }
      forall u: User | u.id in users && users[u.id] == u ensures u in us {
        StoredAreListed(users, order, u.id);
      }
    }

    /** `get_user`: the stored record, or not-found. */
    method Get(id: int) returns (r: Response)
      requires Valid()
      ensures r.Record? || r.NotFound?
      ensures r.Record? <==> id in users
      ensures r.Record? ==> r.user == users[id] && r.user.id == id && ValidUser(r.user)
      ensures r.NotFound? ==> r.id == id
    {
      if id !in users {
        return NotFound(id);
      }
      r := Record(users[id]);
    }

    /** `create_user`: the record is stored under the current counter, which
        then advances by one. An invalid body changes nothing. */
    method Create(body: UserBody) returns (r: Response)
      requires Valid()
      modifies this
      ensures Valid()
      ensures r.Record? || r.Invalid?
      ensures r.Invalid? <==> Validate(body).Err?
      ensures r.Invalid? ==> r.errors == Validate(body).error && unchanged(this)
      ensures r.Record? ==>
        && r.user == ToUser(old(nextId), Validate(body).value)
        && r.user.id !in old(issued) && r.user.id !in old(users)
        && users == old(users)[r.user.id := r.user]
        && order == old(order) + [r.user.id]
        && nextId == old(nextId) + 1
        && issued == old(issued) + {r.user.id}
        && ValuesInOrder(users, order) == old(ValuesInOrder(users, order)) + [r.user]
    {
      var v := Validate(body);
      if v.Err? {
        return Invalid(v.error);
      }
      var user := ToUser(nextId, v.value);
      assert forall j :: 0 <= j < |order| ==> order[j] < nextId;
      AppendLarger(order, nextId);
      ListAfterInsert(users, order, nextId, user);
      users := users[nextId := user];
      order := order + [nextId];
      issued := issued + {nextId};
      nextId := nextId + 1;
      r := Record(user);
    }

    /** `update_user`: full replacement of an existing record; the path id is
        kept and an omitted `age` is dropped. The body is validated before the
        id is looked up. Nothing else changes, and a failure changes nothing. */
    method Update(id: int, body: UserBody) returns (r: Response)
      requires Valid()
      modifies this
      ensures Valid()
      ensures r.Record? || r.NotFound? || r.Invalid?
      ensures r.Invalid? <==> Validate(body).Err?
      ensures r.Invalid? ==> r.errors == Validate(body).error
      ensures r.NotFound? <==> Validate(body).Ok? && id !in old(users)
      ensures r.NotFound? ==> r.id == id
      ensures !r.Record? ==> unchanged(this)
      ensures r.Record? ==>
        && r.user == ToUser(id, Validate(body).value)
        && id in old(users)
        && users == old(users)[id := r.user]
        && order == old(order) && nextId == old(nextId) && issued == old(issued)
        && forall i :: 0 <= i < |order| ==>
             ValuesInOrder(users, order)[i] == if order[i] == id then r.user else old(ValuesInOrder(users, order))[i]
    {
      var v := Validate(body);
      if v.Err? {
        return Invalid(v.error);
      }
      if id !in users {
        return NotFound(id);
      }
      var user := ToUser(id, v.value);
      users := users[id := user];
      r := Record(user);
    }

    /** `delete_user`: removes exactly that key. The counter is untouched, so
        the id is never issued again. */
    method Delete(id: int) returns (r: Response)
      requires Valid()
      modifies this
      ensures Valid()
      ensures r.NoContent? || r.NotFound?
      ensures r.NotFound? <==> id !in old(users)
      ensures r.NotFound? ==> r.id == id && unchanged(this)
      ensures r.NoContent? ==>
        && users == old(users) - {id}
        && order == Without(old(order), id)
        && nextId == old(nextId) && issued == old(issued)
        && id in issued
    {
      if id !in users {
        return NotFound(id);
      }
      users := users - {id};
      order := Without(order, id);
      forall i | 0 <= i < |order| ensures order[i] in users {
        assert order[i] in order;
      }
      r := NoContent;
    }
  }
}
