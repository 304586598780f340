# User directory service — Dafny model

The service keeps an in-memory directory of users: the dictionary `users_db`,
which maps an integer id to a `User` record, and the counter `next_user_id`,
which starts at 1. Its handlers list, get, create, update and delete records.
The pydantic schema validates request bodies before any handler runs. `name`
and `email` are required strings of 1 to 100 characters. `age` is optional
and, when present, lies in 0..150.

- `models.dfy`, module `Models`: the schema (`app/models.py`). It holds the
  body, field and record datatypes and the per-field checks. `Validate`
  reports every failing field, in declaration order, and is shared by create
  and update, because `UserCreate` and `UserUpdate` add nothing to `UserBase`.
- `store.dfy`, module `UserDirectory`: the store (`app/main.py`) as the class
  `UserStore`. Its fields are `users` (`users_db`), `order` (the dictionary's
  key insertion order, which `list(users_db.values())` observes) and `nextId`
  (`next_user_id`). A ghost field `issued` holds every id ever handed out.
  `Valid()` is the store invariant:
  - every record sits under its own id;
  - every key lies in `[1, nextId)`;
  - every record satisfies the schema;
  - `order` enumerates exactly the keys, in strictly increasing order.

  Each handler is a method that validates the body first, as the framework
  does, and returns a `Response`: `Record(user)`, `NoContent`, `NotFound(id)`
  or `Invalid(errors)`.
- `scenarios.dfy`, module `UserScenarios`: request sequences that follow
  `tests/test_users.py` and extend them, proved from the store's contracts
  alone. They cover: first id 1, listing order, an update that omits `age`,
  get after delete, a create after a delete that does not reuse the id,
  unknown id 999, and invalid bodies leaving the store unchanged.

FastAPI validates the body before `update_user` runs (`app/main.py:46`), so an
update with an unknown id and an invalid body answers `Invalid`; the model
does the same.

## Model

| member | source | states |
|---|---|---|
| `Models.Validate` | app/models.py:5-16 | a body is accepted iff every field meets its `UserBase` constraint; an accepted body is passed on field for field (an absent age stays absent); a rejected one lists exactly the failing fields, each once |
| `Models.CheckText` | app/models.py:6-7 | a required string passes iff present with length 1..100; a missing field is reported as `Missing`, an empty one as `StringTooShort`, one over 100 characters as `StringTooLong`; there is no format check |
| `Models.CheckAge` | app/models.py:8 | an absent age passes; a present one passes iff 0 <= age <= 150; -5 is reported as `LessThanMin`, an age above 150 as `GreaterThanMax` |
| `Models.ToUser` | app/models.py:19-22 | a `User` is the validated fields plus the given id, with nothing dropped or added; built from valid fields it satisfies the same constraints |
| `UserDirectory.Without` | app/main.py:66 | `del` keeps every other key and drops exactly `id`; on an increasing key order, which is the only kind the store holds, the remaining keys stay in their order |
| `UserDirectory.ValuesInOrder` | app/main.py:21 | the listed values are the records under the keys, position by position in insertion order |
| `UserDirectory.OrderCoversKeys` | app/main.py:21 | an increasing insertion order that lists exactly the stored keys has one entry per key, so the listing has as many entries as the store |
| `UserDirectory.ListedAreStored` | app/main.py:21 | every listed value is a stored record filed under its own id |
| `UserDirectory.StoredAreListed` | app/main.py:21 | every stored record whose key is in the insertion order appears in the listing (the store invariant puts every key there) |
| `UserDirectory.ListAfterInsert` | app/main.py:39-41 | a record stored under a fresh key appears at the end of the listing, after all older records, which are unchanged |
| `UserDirectory.UserStore.constructor` | app/main.py:8-9 | a fresh store is empty with the counter at 1 and no id issued |
| `UserDirectory.UserStore.List` | app/main.py:18-21 | every stored record appears exactly once, nothing else appears, and records come in creation order (ascending id); an empty store lists nothing |
| `UserDirectory.UserStore.Get` | app/main.py:24-32 | a present id yields exactly the stored record, whose id is that id; an absent id yields `NotFound(id)` |
| `UserDirectory.UserStore.Create` | app/main.py:35-42 | an invalid body yields the field errors and changes nothing; otherwise the record takes the current counter as its id, an id never issued before; it is stored under that key and listed last; the counter grows by exactly 1; the invariant is kept |
| `UserDirectory.UserStore.Update` | app/main.py:45-55 | an invalid body yields the field errors; an absent id yields `NotFound(id)`; either failure changes nothing; otherwise the record is rebuilt from the body alone with the path id, replaced in place in the listing, and no other key, the order or the counter changes |
| `UserDirectory.UserStore.Delete` | app/main.py:58-66 | an absent id yields `NotFound(id)` and changes nothing; otherwise exactly that key is removed from the map and the order; the counter and the issued ids are untouched, so the id is never handed out again |

## Left out

- `health_check` (app/main.py:12-15) returns a constant and has no logic.
- HTTP routing, status codes and JSON (de)serialisation are replaced by the
  `Response` variants. `Record` stands for 200/201, `NoContent` for 204,
  `NotFound` for 404 and `Invalid` for 422.
- The text of the not-found detail is left out; `NotFound` carries the id it
  names.
- The layout of pydantic's 422 payload is left out; only the failing field
  and the kind of violation are kept.
- Coercion by the framework is left out: the path parameter to `int`, and
  body values of the wrong type (such as a string for `age`). Bodies are
  modelled already typed, with `None` for an absent field or a null `age`.
- A null `name` or `email` is modelled as missing and reported as `Missing`;
  pydantic reports it as a type error. The rejected field is the same.
- String length is counted in Dafny `char`s, which are Unicode scalar values,
  the same as the code points Python counts.
- `async` handlers and concurrency are left out. The handlers never suspend
  between reading and advancing the counter, so a sequential model is
  faithful.
- The pytest fixture that resets the module globals is the class constructor.
