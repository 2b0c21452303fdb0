# Task manager backend, modelled in Dafny

The task manager's REST backend keeps everything in process memory: an array
of registered users and an array of tasks (`api/server.js:75-76`). Eight
request handlers validate their input and then read or change those two
arrays: register, login, create task, list a user's tasks (status filter,
title search, newest first), update fields (PUT), set completed (PATCH),
delete one task and delete all of a user's tasks. Each handler answers with
a success status and payload, or with status 400, 401 or 404 and a fixed
Portuguese message.

This project models that backend as one Dafny class, `Server.Store`. It
holds `users: seq<User>` and `tasks: seq<Task>`, and each handler is one
method returning `Response<T>`, which is either `Ok(status, payload)` or
`Err(status, message)`. The store's invariant `Valid()` holds between
requests, and every method is proved to keep it. The invariant says:

- emails are unique;
- user ids and task ids are unique;
- tasks are stored in creation order;
- every task belongs to a registered user.

The pure parts are functions with lemmas:

- `Filters`: one `Filter` over a `Criterion` (owner, not-owner, completed,
  pending, title contains), with lemmas for membership, partition,
  commuting, absorption, and keeping order and distinct ids.
- `Queries`: the lookup helpers and the listing pipeline, with its stable
  sort by creation time.
- `Edits`: what PUT, PATCH and the two deletes do to the task sequence.

`UpdateFields`, `SetCompleted`, `DeleteTaskById` and `DeleteAllTasksOf` are
proved to leave exactly the tasks that `UpdateTask`, `DeleteTask` and
`DeleteAllOf` of module `Edits` give for the old sequence. `Register` and
`CreateTask` are proved to append exactly one record. The store invariant is
kept through value-level lemmas on `Consistent(users, tasks, clock)`, one per
kind of change. `Scenarios` holds client methods that run the
register / login / create / complete / filter / delete walk-through using
only the handlers' contracts.

How the parts the backend does not control are abstracted:

- **Password hashing** (`bcrypt.hash`, `bcrypt.compare`): the store is
  built with two function constants, `hash(password, salt)` and
  `matches(password, hash)`. The constructor requires that a password
  matches every hash made from it. The salt, which is bcrypt's randomness,
  is a parameter of `Register`.
- **Ids** (`generateId`): the id is a parameter of `Register` and
  `CreateTask`. It must be `Fresh`, that is, carried by no stored user or
  task.
- **Time** (`new Date()`): the store's `clock: nat` stamps each new user or
  task and then moves forward by one.
- **JavaScript truthiness**: `Given(field)` is false for an absent field,
  for null and for `""`. The tests `!name`, `!title`, `if (status)` and
  `if (search)` are all modelled with it.
- **Case folding** (`toLowerCase`): `Text.Lower` folds ASCII letters only.

Behaviour of `api/server.js` worth noting:

- PUT does not check the title, so an empty title is accepted
  (`api/server.js:615-618`).
- A duplicate email gets status 400 with its own message
  (`api/server.js:167-171`).
- The PUT body's `dueDate` can be absent or an explicit `null`, and the
  two are told apart: only an absent one keeps the stored date
  (`api/server.js:618`).

## Model

| member | source | states |
|---|---|---|
| `Server.Store.constructor` | api/server.js:75-76 | The store starts with no users and no tasks, satisfies the invariant, and uses the given hash and match functions. |
| `Server.Store.Register` | api/server.js:147-204 | Returns 400 with the required-fields message, and changes nothing, if name, email or password is missing or empty. Returns 400 with the too-short message if the password has fewer than 6 characters. Returns 400 with the taken-email message if a user already has that exact email. It succeeds exactly when none of these holds. Success appends exactly one user, holding the hashed password and the current clock, and answers 201 with id, name and email. Tasks never change, and emails stay unique. |
| `Server.Store.Login` | api/server.js:266-312 | Returns 400 when email or password is missing. Otherwise it succeeds exactly when a user with that email has a hash the password matches. Every failure after validation is the same 401 'Email ou senha inválidos', for an unknown email and for a wrong password alike. On success it answers 200 with that user's public view. |
| `Server.Store.CreateTask` | api/server.js:382-428 | Returns 400 if userId or title is missing or empty, and 404 if no user has that id. In neither case does anything change. It succeeds exactly otherwise. Success appends one task with `completed = false`, description defaulting to "", dueDate defaulting to null and the current clock as creation time, and answers 201 with it. |
| `Server.Store.ListTasks` | api/server.js:485-531 | Returns 404 for an unknown user and 200 otherwise. A task is listed exactly when it is stored, belongs to the user, and passes the status and search parameters. The list is ordered newest first. It equals the selected tasks in reverse storage order. Nothing is modified. |
| `Server.Store.UpdateFields` | api/server.js:600-632 | Returns 404 and changes nothing if no task has the id. Otherwise only the first task with the id changes: the fields the body supplies are overwritten and the others are kept. The answer is 200 with the updated task. Users and the clock stay the same. |
| `Server.Store.SetCompleted` | api/server.js:696-733 | Returns 400 unless `completed` is a JSON boolean, checked before any lookup. Returns 404 if the id is unknown. In both cases nothing changes. Otherwise only that task's `completed` changes, and the answer is 200 with the task. |
| `Server.Store.DeleteTaskById` | api/server.js:778-805 | Returns 404 and changes nothing for an unknown id. Otherwise it removes the first task with the id and answers 200 with it. One task fewer remains, the multiset of tasks loses exactly that task, and no remaining task has the id. |
| `Server.Store.DeleteAllTasksOf` | api/server.js:852-881 | Returns 404 and changes nothing for an unknown user. Otherwise it answers 200 with the number of the user's tasks, which may be 0. Afterwards the tasks are the old ones filtered to other users, in order. None of the user's tasks remain, and every other user's tasks are unchanged. |
| `Server.OverwriteFields` | api/server.js:615-618 | The field-by-field overwrite gives exactly the patched task: supplied fields replaced, the others kept. |
| `Server.RegisterKeepsConsistent` | api/server.js:167-186 | Appending a user with a new email and id, stamped with the clock, keeps emails and ids unique and every task's owner registered. |
| `Server.CreateKeepsConsistent` | api/server.js:395-414 | Appending a task with a new id, stamped with the clock and owned by a registered user, keeps ids unique and creation order. |
| `Server.TaskEditKeepsConsistent` | api/server.js:615-619 | Tasks that keep ids distinct and creation order, each with the owner and timestamp of a stored task, keep the invariant. |
| `Server.RemovalKeepsConsistent` | api/server.js:791 | Keeping only stored tasks, with ids distinct and in creation order, keeps the invariant. |
| `Queries.FindUserByEmail` | api/server.js:82 | Returns none exactly when no user has the email. Otherwise it returns the first user in storage order whose email is exactly equal. |
| `Queries.FindUserById` | api/server.js:395 | Returns none exactly when no user has the id. Otherwise it returns the first user in storage order with that id. |
| `Queries.FindTaskIndex` | api/server.js:606 | Returns -1 exactly when no task has the id. Otherwise it returns the smallest index of a task with that id. |
| `Queries.FindTasksByUserId` | api/server.js:85 | A task is returned exactly when it is stored and belongs to the user. |
| `Text.Includes` | api/server.js:511-515 | Holds exactly when the needle occurs in the text at some position. The empty needle occurs everywhere. |
| `Filters.FilterMembership` | api/server.js:504-506 | A filter keeps a task exactly when the task is in the input and passes the criterion. |
| `Filters.FilterPartition` | api/server.js:502-508 | Two complementary filters split the input: the multisets of the two parts add up to the input's multiset. |
| `Filters.FilterPartitionSizes` | api/server.js:866-867 | The lengths of the two parts of complementary filters add up to the input's length. |
| `Filters.FilterMultiplicity` | api/server.js:85 | A filter keeps every copy of a task that passes the criterion and no copy of one that fails it. |
| `Filters.FilterDistributes` | api/server.js:85 | Filtering a concatenation is filtering each part and concatenating, so the passing tasks keep their relative order. |
| `Filters.FilterCommutes` | api/server.js:502-515 | The status filter and the search filter give the same result in either order. |
| `Filters.FilterAbsorbs` | api/server.js:866-867 | Applying a narrower filter after a wider one is the same as applying the narrower one alone. The delete-all proof uses this to show other users' tasks are unchanged. |
| `Filters.FilterNoneHolds` | api/server.js:867 | When no task passes, the filter returns nothing. |
| `Filters.FilterKeepsOldestFirst` | api/server.js:867 | Filtering keeps creation order. |
| `Filters.FilterKeepsDistinctIds` | api/server.js:867 | Filtering keeps task ids distinct. |
| `Queries.InsertNewestPermutes` | api/server.js:518 | One insertion step of the sort adds exactly the inserted task. |
| `Queries.InsertNewestKeepsOrder` | api/server.js:518 | Inserting into a newest-first list keeps it newest first. |
| `Queries.SortPermutes` | api/server.js:518 | The sort by creation time returns a permutation of its input. |
| `Queries.SortOrders` | api/server.js:518 | The sort returns its input newest first. |
| `Queries.SortReversesOldestFirst` | api/server.js:518 | On tasks in creation order, the sort is exactly a reversal. |
| `Queries.ListingMembership` | api/server.js:499-518 | A task is listed exactly when it is stored, belongs to the user, and passes the status and search parameters, both directions. |
| `Queries.ListingIsNewestFirst` | api/server.js:518 | The listing is ordered by creation time, newest first. |
| `Queries.ListingReversesStorage` | api/server.js:499-518 | With tasks held in creation order, the listing is the user's selected tasks in reverse storage order. |
| `Queries.OtherStatusIsNoFilter` | api/server.js:502-508 | Any status value other than "completed" and "pending" lists the same as no status. |
| `Queries.StatusPartitionsListing` | api/server.js:502-508 | With any search, the completed listing holds only completed tasks and the pending listing only pending ones. Together, as multisets, they are exactly the listing without a status. |
| `Edits.ApplyPatch` | api/server.js:615-618 | A PUT never changes a task's id, owner or creation time. |
| `Edits.FindTaskIndexReadsIdsOnly` | api/server.js:606 | The index lookup depends on task ids alone, so changing other fields cannot move it. |
| `Edits.UpdateTouchesOneTask` | api/server.js:606-618 | A PUT keeps the length and every task except the one found. That task becomes the patched one. An unknown id changes nothing. |
| `Edits.UpdateIsIdempotent` | api/server.js:615-618 | Sending the same PUT twice leaves the tasks as sending it once. |
| `Edits.SetCompletedIsIdempotent` | api/server.js:719 | Setting `completed` twice to the same value equals setting it once. |
| `Edits.UpdateKeepsInvariants` | api/server.js:615-619 | A PUT keeps ids distinct and creation order, and every task after it has the owner and creation time of a task before it. |
| `Edits.DeleteRemovesFirstMatch` | api/server.js:783-791 | A delete by id shortens the tasks by one. The tasks before and after the removed one keep their order, and the multiset loses exactly the removed task. |
| `Edits.DeleteKeepsOrder` | api/server.js:791 | A delete by id keeps creation order. |
| `Edits.DeleteKeepsDistinctIds` | api/server.js:791 | A delete by id keeps ids distinct. |
| `Edits.DeleteKeepsOnlyStored` | api/server.js:791 | A delete by id keeps only stored tasks. With distinct ids, no task with the deleted id remains. |
| `Edits.DeleteKeepsInvariants` | api/server.js:791 | A delete by id keeps creation order and distinct ids, and keeps only stored tasks. With distinct ids, no task with the deleted id remains. |
| `Edits.DeleteAllCounts` | api/server.js:866-872 | The deleted count plus the number of remaining tasks is the old number of tasks. None of the user's tasks remain, and every other user's tasks are unchanged. |
| `Edits.DeleteAllKeepsInvariants` | api/server.js:867 | Deleting a user's tasks keeps creation order and distinct ids, and keeps only stored tasks. |

## Left out

- The Express, CORS, JSON and Swagger setup and `app.listen` (`api/server.js:1-72`, `884-887`) are HTTP plumbing, not store logic.
- The try/catch branches that answer 500 handle unexpected runtime failures, which have no cause in the model.
- bcrypt itself, with its cost factor 10, is a foreign cryptographic library. It is replaced by the `hash` and `matches` constants, as described above.
- `generateId` depends on `Date.now` and `Math.random`. The id is a parameter required to be fresh.
- `new Date()` reads the wall clock. Two records created in the same millisecond would share a timestamp, which the counter clock never does. So `ListTasks`'s `r.payload == Reverse(Selected(...))` and `Queries.ListingReversesStorage` rely on the clock: with equal timestamps the stable sort (`api/server.js:518`) keeps those tasks in storage order instead.
- `Text.Lower` folds ASCII letters only, while `toLowerCase` folds all of Unicode. Password length is counted in Dafny characters, not UTF-16 code units.
- Body fields are strings, or a boolean for PUT's `completed`. Other JSON types are not modelled: a number as a name, a null title in PUT, a non-boolean `completed` in PUT that JavaScript would store as is. Only PATCH's `completed` covers every scalar JSON type.
- Repeated query parameters, which reach the handler as arrays, are not modelled.
- Success messages are not modelled, including the `deletedCount` sentence with its formatted number. Only the status and payload of a success are. Error messages are modelled word for word.
- A stored task and the object sent in the response are the same JavaScript object. The model treats tasks as values, so this aliasing does not show.
- Requests suspend at the bcrypt calls, so concurrent requests could interleave there. The model runs one request at a time. Register checks the email (`api/server.js:167`) and appends the user (`api/server.js:186`) with `await bcrypt.hash` (`api/server.js:175`) in between, so two concurrent registrations of one email could both succeed: `DistinctEmails` holds only when requests run one at a time.
- Queries.SortOrders: states newest-first order and, with `SortPermutes`, permutation. It does not state stability among equal timestamps. Stability is built into `SortNewestFirst`'s definition, and the store's clock never gives equal timestamps.
- `web/public/script.js` (DOM, `fetch`, `localStorage`, debounce, date formatting) and the Cypress scripts under `cypress/e2e/` are user interface and browser tests. They are not part of this model.
