# In-memory user store

A Dafny model of the user store behind a small CRUD web service. Two kinds of
record are modelled: `User`, with slots `id_`, `name`, `email`, `age` and `sex`,
and `UserRef`, the listing projection with `id_`, `name` and `url`. The
`UserController` keeps a dictionary `users` from integer id to `User`, plus a
counter `last_id` that starts at 0.

`create(data)` first takes the counter's value as the new id and advances the
counter. It then writes the id into the caller's dictionary, builds a `User`
from the dictionary with keyword-argument binding (`User(**data)`), and stores
the user under the id. The binding fails unless the dictionary holds exactly
the five slots. When it fails, nothing is stored, but the counter has already
moved and the caller's dictionary already holds the id. So a failed create still
uses up an id. `list()` starts by sorting the stored ids.

Files:

- `python.dfy` (module `Python`): the few Python run-time notions the store
  uses. These are the values a decoded body can hold, a dictionary the caller
  owns and that is changed in place (`Dict`), and the binding of `f(**kwargs)`
  to a parameter list, with CPython's two `TypeError` cases: an unexpected
  keyword, checked first, and missing arguments.
- `server.dfy` (module `Server`): the records, `User(**kwargs)` as `NewUser`,
  the controller as a class with `users: map<int, User>` and `lastId: nat`,
  and `sorted(self.users)` as `SortedIds`, with lemmas.

The controller's invariant `Valid()` (through `Registered`) says two things.
Every stored key is in `0 .. lastId-1`, and the user stored under a key
carries that key as its `id`. The constructor establishes it and `Create`
keeps it. Because `Create` stores only under the old counter value and
always advances the counter, no id is ever handed out twice.

## Model

| member | source | states |
|---|---|---|
| `Python.BindArguments` | server.py:34 | `f(**kwargs)` binds exactly when the keyword set equals the parameter set. The arguments then come back in parameter order, each the keyword's value. Otherwise the error names the non-empty set of unexpected keywords, which are checked first, or else the non-empty set of missing parameters. |
| `Python.Dict.SetItem` | server.py:32 | `data[key] = v` changes the caller's dictionary in place to `old[key := v]`. |
| `Server.NewUser` | server.py:1-9 | `User(**kwargs)` succeeds if and only if the keywords are exactly the five slots. On success, the new user's attribute dictionary equals `kwargs`. On failure, the error is "unexpected keyword" exactly when some keyword is not a slot. |
| `Server.NewUserOfAttributes` | server.py:4-9 | Round trip: building a user from its own attribute dictionary gives back that user. |
| `Server.NewUserAfterIdSet` | server.py:32-34 | Once `data['id_']` is set to the new id, building the user succeeds if and only if the caller supplied exactly `name`, `email`, `age` and `sex`, with any caller-supplied `id_` ignored. The built user's id is the assigned one. |
| `Server.SortedIds` | server.py:41 | `sorted(ids)` holds exactly the given ids, in strictly ascending order, with no repeats, so it is a permutation of the set. |
| `Server.SortedIdsUnique` | server.py:39-41 | Independent characterisation: any strictly ascending sequence holding exactly the given ids is `SortedIds` of them. |
| `Server.SortedIdsExtend` | server.py:30-41 | Adding an id larger than every stored id appends it to the end of the sorted listing. |
| `Server.RegisterNext` | server.py:30-35 | If the store is registered and a user carrying the counter's value is stored under that value, the counter's value was free and the store stays registered with the counter advanced. |
| `Server.UserController.constructor` | server.py:22-24 | A fresh controller has no users and `lastId == 0`, and its invariant holds. |
| `Server.UserController.Create` | server.py:26-35 | Keeps the invariant. Advances `lastId` by exactly 1 on every call, failure included. Sets the caller's `data['id_']` to the old counter value. Succeeds if and only if `data` minus `id_` is exactly the four fields. On failure, `users` is unchanged and the binding error is returned. On success, the old counter value was not a key. Exactly that key is added, every other entry is unchanged, and the stored user's id is the assigned id with the other attributes equal to the caller's values. The sorted listing gains the new id at its end. |
| `Server.UserController.ListIds` | server.py:37-41 | The ids `list()` walks are exactly the stored keys, strictly ascending, with as many entries as stored users. |

## Left out

- The rest of `list()` after `sorted(self.users)`, including how the `UserRef` projections and their `url` strings are built. It is not part of this model. `UserRef` is declared as a record only.
- `Server.UserController.ListIds`: returns the sorted ids rather than `UserRef` values, because only the sorting step of `list()` is modelled.
- Get, update and delete, HTTP routing, JSON body parsing and serialisation, and the mapping of errors to status codes. None of these are part of this model.
- The text of Python's `TypeError` messages, and which unexpected keyword CPython names first. That choice depends on dictionary order, which a `map` does not keep. The model reports the whole set of unexpected keywords or missing arguments.
- A keyword named `self` makes CPython report "multiple values for argument" instead of "unexpected keyword". Both are `TypeError`s, and the model classes it as an unexpected keyword.
- Python's `__slots__` mechanics as such. Only their effect is modelled: the keyword set must be exactly `id_`, `name`, `email`, `age`, `sex`.
- The types of `age` and `sex`, and of `name` and `email`. The source does not constrain them, so they are arbitrary decoded values. Floating-point numbers are not among the modelled values.
- Concurrency: the store is used by one request at a time.
