# User repository and response envelope of the consul user service

This project models two pieces of the Spring Cloud learning repository in Dafny and proves
properties of them.

- **`UserServiceImpl`** (consul-user-service). It is an in-memory user table: a mutable list of
  `User(id, username, password)` records, seeded with three users. It offers `create` (append),
  `getUser` and `getByUserName` (first match in list order, or `null`), `update` (rewrite the
  credentials of every entry with a given id), `delete` (remove the first entry with a given id)
  and `getUserByIds` (an order-preserving filter).
  - The service object is the class `Users.UserServiceImpl`. Its `userList` field is a `seq<User>`
    that `Create`, `Update` and `Delete` reassign. `Update` walks the list in a loop, as the
    source's `forEach` does.
  - The three queries are stream filters that change nothing. They are functions over the list
    value: `Users.GetUser`, `Users.GetByUserName`, `Users.GetUserByIds`. `Delete` calls
    `GetUser(userList, id)` just as the source's `delete` calls `getUser(id)`.
  - The Java library behaviour the service relies on is in module `Lists`:
    `stream().filter(p).collect(toList())` is `Filter`, and `List.remove(Object)` is `RemoveFirst`.
  - `Users.Updated` and `Users.RemoveAt` describe the list after `update` and `delete`. The
    methods are proved against them, and the lemmas state what they mean.
- **`CommonResult<T>`** (consul-ribbon-service). It is the response envelope `(data, msg, code)`.
  Its four constructors are functions over an immutable datatype. Every field is nullable, so
  each is an `Option`.

`null` results and nullable fields are `Nullable.Option`.

## Model

| member | source | states |
|---|---|---|
| `Lists.Filter` | consul-user-service/src/main/java/com/yanl/cloud/service/impl/UserServiceImpl.java:59 | the filtered list is a subsequence of the list (order kept) and holds each passing element exactly as often as the list does, and no other element |
| `Lists.FilterEmpty` | consul-user-service/src/main/java/com/yanl/cloud/service/impl/UserServiceImpl.java:25-29 | the filtered list is empty exactly when no element passes the filter (the `isEmpty` test that yields `null`) |
| `Lists.FilterFirst` | consul-user-service/src/main/java/com/yanl/cloud/service/impl/UserServiceImpl.java:25-27 | `get(0)` of the filtered list is the first element of the list that passes the filter |
| `Lists.RemoveFirst` | consul-user-service/src/main/java/com/yanl/cloud/service/impl/UserServiceImpl.java:44 | `List.remove(Object)` leaves the list unchanged when the value is absent; otherwise it removes exactly one occurrence (length drops by one, multiset loses one copy) |
| `Lists.RemoveFirstAt` | consul-user-service/src/main/java/com/yanl/cloud/service/impl/UserServiceImpl.java:44 | the occurrence removed is the first one; everything before and after it keeps its order |
| `Users.GetUser` | consul-user-service/src/main/java/com/yanl/cloud/service/impl/UserServiceImpl.java:24-30 | returns `null` exactly when no user has the id; otherwise returns the first user in list order with that id |
| `Users.GetByUserName` | consul-user-service/src/main/java/com/yanl/cloud/service/impl/UserServiceImpl.java:49-55 | returns `null` exactly when no user has the username; otherwise returns the first user in list order with it |
| `Users.GetUserByIds` | consul-user-service/src/main/java/com/yanl/cloud/service/impl/UserServiceImpl.java:58-60 | the result is a subsequence of the list (list order, not `ids` order); a user is in it exactly when it is in the list and its id is in `ids`, and as often as in the list |
| `Users.SeedLookups` | consul-user-service/src/main/java/com/yanl/cloud/service/impl/UserServiceImpl.java:63-68 | the seed users have distinct ids; ids 1, 2, 3 and the name "lyzzy" find the expected users; id 4 finds none |
| `Users.CreateThenGetUser` | consul-user-service/src/main/java/com/yanl/cloud/service/impl/UserServiceImpl.java:19-30 | after appending a user whose id nobody has, `getUser` of that id returns that user |
| `Users.CreateKeepsGetUser` | consul-user-service/src/main/java/com/yanl/cloud/service/impl/UserServiceImpl.java:19-30 | appending does not change `getUser` for any other id, nor for an id already present (the earlier match still wins) |
| `Users.CreateDistinctIds` | consul-user-service/src/main/java/com/yanl/cloud/service/impl/UserServiceImpl.java:19-21 | the appended list has distinct ids if and only if the old list had them and the new id was not taken |
| `Users.UpdateKeepsIds` | consul-user-service/src/main/java/com/yanl/cloud/service/impl/UserServiceImpl.java:33-38 | `update` keeps length, order and every id; entries with other ids are unchanged; distinct ids stay distinct |
| `Users.UpdateAbsentIsNoOp` | consul-user-service/src/main/java/com/yanl/cloud/service/impl/UserServiceImpl.java:33-38 | `update` of an id nobody has leaves the list unchanged |
| `Users.UpdateThenGetUser` | consul-user-service/src/main/java/com/yanl/cloud/service/impl/UserServiceImpl.java:24-38 | after `update(user)` of a present id, `getUser(user.id)` returns a record equal to `user` |
| `Users.UpdateIdempotent` | consul-user-service/src/main/java/com/yanl/cloud/service/impl/UserServiceImpl.java:33-38 | applying the same `update` twice gives the same list as applying it once |
| `Users.DeleteRemovesFirstMatch` | consul-user-service/src/main/java/com/yanl/cloud/service/impl/UserServiceImpl.java:41-46 | removing the value `getUser` found with `List.remove(Object)` removes exactly the entry at the first position holding the id |
| `Users.DeleteThenGetUser` | consul-user-service/src/main/java/com/yanl/cloud/service/impl/UserServiceImpl.java:24-46 | after `delete(id)`, `getUser(id)` finds the next user with that id (the first one after the removed entry), if any |
| `Users.DeleteUniqueId` | consul-user-service/src/main/java/com/yanl/cloud/service/impl/UserServiceImpl.java:41-46 | when ids are distinct, `delete(id)` leaves no user with that id, and ids stay distinct |
| `Users.UserServiceImpl.constructor` | consul-user-service/src/main/java/com/yanl/cloud/service/impl/UserServiceImpl.java:63-68 | `initData` leaves the list as exactly `[(1,"ly","5211"), (2,"zy","5211"), (3,"lyzzy","5211")]` |
| `Users.UserServiceImpl.Create` | consul-user-service/src/main/java/com/yanl/cloud/service/impl/UserServiceImpl.java:19-21 | the new list is the old list followed by the user; earlier entries are unchanged |
| `Users.UserServiceImpl.Update` | consul-user-service/src/main/java/com/yanl/cloud/service/impl/UserServiceImpl.java:33-38 | the new list is `Updated(old list, user)`: every entry with the id takes `user`'s username and password, all else stays |
| `Users.UserServiceImpl.Delete` | consul-user-service/src/main/java/com/yanl/cloud/service/impl/UserServiceImpl.java:41-46 | with no user holding the id the list is unchanged; otherwise it is the old list without its first entry holding the id |
| `CommonResults.Empty` | consul-ribbon-service/src/main/java/com/yanl/cloud/domain/CommonResult.java:13 | the no-argument constructor leaves data, msg and code all `null` |
| `CommonResults.Make` | consul-ribbon-service/src/main/java/com/yanl/cloud/domain/CommonResult.java:15-19 | the three-argument constructor stores data, msg and code exactly as given |
| `CommonResults.WithMessage` | consul-ribbon-service/src/main/java/com/yanl/cloud/domain/CommonResult.java:21-23 | `CommonResult(msg, code)` has a `null` payload and the given msg and code |
| `CommonResults.Success` | consul-ribbon-service/src/main/java/com/yanl/cloud/domain/CommonResult.java:25-27 | `CommonResult(data)` keeps the payload and sets msg "操作成功" and code 200 |
| `CommonResults.MakeFromGetters` | consul-ribbon-service/src/main/java/com/yanl/cloud/domain/CommonResult.java:6-19 | every envelope has the same data, msg and code as the three-argument constructor applied to its own getters |
| `CommonResults.AcknowledgementIsEmptySuccess` | consul-ribbon-service/src/main/java/com/yanl/cloud/domain/CommonResult.java:21-27 | `CommonResult("操作成功", 200)` has the same data, msg and code as `CommonResult(null)` |
| `CommonResults.SuccessInjective` | consul-ribbon-service/src/main/java/com/yanl/cloud/domain/CommonResult.java:25-27 | two success envelopes have the same fields exactly when their payloads are equal |

## Left out

- `User` is not part of this model's sources. It is taken to be a record `(id, username, password)`
  with getters, setters and field-wise `equals`, as its constructor call at line 65 of
  `UserServiceImpl.java` suggests. `delete` removes the first user with the id for any `equals`
  under which equal users have equal ids (identity, field-wise or by id). This is because the found user is the list entry
  itself, and no earlier entry shares its id. Under an `equals` that ignores the id, `remove` could
  drop an earlier entry instead; the model does not cover such an `equals`.
- Object identity and aliasing. In Java the list holds references. A caller that keeps the `User` it
  passed to `create` can later change the stored entry, and `update` changes objects that callers
  may still hold. The model stores users as values, so these effects are not captured.
- `null` ids, usernames, passwords, list elements and a `null` `ids` argument. The source throws
  `NullPointerException` on a stored user whose id or username is `null`, and on a `null` `ids` list
  in `getUserByIds`; `equals(null)` is false for a `null` argument. A `null` password is stored and
  copied by `create` and `update` without any exception, but `password` is a `string` here and cannot
  hold it. Ids, names, passwords and `ids` are always present in this model.
- Ids are Java `Long` and the code is an `Integer`. They are only stored and compared, never computed
  with, so they are unbounded `int`s.
- The list before `initData` runs is `null`. `initData` is the constructor, and Spring's
  `@PostConstruct` wiring is not modelled.
- Concurrency. The service is a Spring singleton whose unsynchronised `ArrayList` is shared by
  request threads; the model runs one operation at a time.
- `CommonResult` inherits `Object.equals`, so two separately built envelopes are never `equals` in
  Java. The lemmas about envelopes compare them by their three fields (Dafny datatype equality).
- The `@Setter` mutators of `CommonResult` are not modelled, because no shown code calls them. The
  envelope is immutable here.
- The `UserService` interface (consul-user-service/.../service/UserService.java) only declares the
  six operations modelled above.
- Circuit breaking, fallback, request caching, collapsing and timeouts in hystrix-service are
  requested from the Hystrix library by annotation. That library is not part of this model, and
  neither are the `RestTemplate` and Feign HTTP clients, the controllers or the gateway filter.
