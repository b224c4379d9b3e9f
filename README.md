# birbs backend — a Dafny model

birbs is a small social beer-tracking service. Its HTTP backend holds five tables:

- `users`;
- `sessions` (opaque tokens with an expiry);
- `beers` (consumption entries, each with a quantity);
- `friend_requests` (directed, pending / accepted / declined);
- `friends` (one row per couple, stored as the pair smaller id, larger id).

Every handler reads, checks and writes those tables and answers with a body or an HTTP error status.

The model keeps the tables as fields of one class, `Backend.Store`. A handler that changes them is a method with a `modifies` frame. A read-only handler is a function over them, except `list_friends`: it loops over the friend pairs in the source, so `ListFriends` is a method with loops over the tables. The store's invariant `Valid()` is preserved by every method. It says:

- ids lie below their next-id counters;
- user names are unique, non-empty and already stripped;
- no session has the empty token;
- every beer entry has quantity at least one;
- friend pairs are canonical (`user_a < user_b`);
- nobody has a request to themselves;
- a couple has at most one pending request;
- a couple with a pending request is not yet a pair of friends.

Modules:

- `Text`: Python's `str.strip()` with its full whitespace set.
- `Responses`: status codes, `Result` and `Option`.
- `Identity`: users, sessions, lookup by name, lazy session expiry.
- `Ledger`: beer entries, per-user listing newest first, totals and their update lemmas.
- `Friendship`: requests, canonical pairs, friend counts, request listings and the invariants of the request state machine.
- `Backend`: the `Store` class with one member per handler (`ListMyBeers` and `PublicUserBeers` hand off to `Ledger.Listing`).
- `Scenario`: a client that replays one story through the contracts alone. Two users register, one asks the other, the crossed request is refused, the request is accepted, both count one friend, and a further request is refused.

Collaborators outside the backend become parameters:

- The password hasher is the pair of function-valued constants `hash` and `verify`.
- The session lifetime `SESSION_TTL_DAYS` is the constant `ttlDays`.
- The clock is the `now` argument, in seconds.
- The random session token is the `token` argument of `Login`.
- For an upload, the number of bytes sent, whether `Image.open` identifies the bytes as an image, the stored file name and the re-encoded size are arguments of `UploadBeer`.

A handler that acts for the current user takes the id that `get_current_user` resolved as `caller`. `PublicProfile` and `PublicUserBeers` are also behind `get_current_user` (lines 550, 564), but they do not use the resolved user. They take no `caller`, and their 401 gate is `GetCurrentUser`, applied before them.

Status codes:

- Sending a request to an existing friend, or to a couple with a pending request in either direction, fails with 400 (lines 505, 517).
- A manual count outside 1..500 fails the payload schema, which the framework answers with 422.

## Model

| member | source | states |
|---|---|---|
| Text.IsSpace | backend/src/backend/backend.py:241 | the whitespace set of `str.strip()` contains space, tab, newline and carriage return, and no ASCII letter or digit |
| Text.LeadingSpaces | backend/src/backend/backend.py:241 | the count is the length of the longest all-whitespace prefix |
| Text.TrailingSpaces | backend/src/backend/backend.py:241 | the count is the length of the longest all-whitespace suffix |
| Text.Strip | backend/src/backend/backend.py:241-242 | the result is the infix of the input after its leading whitespace; everything cut off is whitespace; the result neither starts nor ends with whitespace |
| Text.StripEmptyIff | backend/src/backend/backend.py:242 | a string strips to nothing exactly when all its characters are whitespace (the "not username" test of register) |
| Text.StripIdempotent | backend/src/backend/backend.py:241 | stripping twice equals stripping once, and an already stripped string is unchanged |
| Identity.NameTaken | backend/src/backend/backend.py:244 | the 409 test holds exactly when some stored user carries the name |
| Identity.UniqueNames | backend/src/backend/backend.py:61 | under the unique index, removing any user frees that user's name |
| Identity.FindUser | backend/src/backend/backend.py:244 | the lookup by name returns a user of that name in the scanned range, or none when no user in the range has it |
| Identity.FindUserExact | backend/src/backend/backend.py:61 | with unique names, the lookup finds exactly the user holding the name, and nothing exactly when the name is free |
| Identity.Trusted | backend/src/backend/backend.py:134-145 | a session is trusted exactly for a non-empty stored token whose expiry is not before now, and it is the stored row |
| Identity.AfterLoad | backend/src/backend/backend.py:140-144 | the table after a lookup keeps every row unchanged except that the presented token is gone exactly when it is non-empty, stored and expired |
| Identity.CurrentUser | backend/src/backend/backend.py:148-156 | success exactly for a trusted session whose user exists, yielding that user; every failure is 401 |
| Identity.ExpiredTokenRejectedAndPruned | backend/src/backend/backend.py:140-144 | a token expired at presentation gives 401, exactly its row is deleted, and it gives 401 at every later time |
| Identity.LoadKeepsOthers | backend/src/backend/backend.py:134-145 | loading never deletes a trusted session, and never affects any token but the one presented |
| Identity.Issue | backend/src/backend/backend.py:259-264 | the new session belongs to the user, is created now and lives exactly `ttlDays` days |
| Identity.IssuedTokenLifetime | backend/src/backend/backend.py:258-264 | a freshly issued token authenticates its user at every time up to its expiry and yields 401 after it |
| Ledger.DisplayName | backend/src/backend/backend.py:408 | the stored name is the stripped input, or none exactly when that is empty |
| Ledger.Owned | backend/src/backend/backend.py:302 | the per-user scan lists no more entries than its id range has ids |
| Ledger.OwnedExact | backend/src/backend/backend.py:302 | the per-user scan lists exactly the stored entries of that user |
| Ledger.InsertByTime | backend/src/backend/backend.py:303 | one insertion step yields one more entry, headed by the inserted entry or by the old head |
| Ledger.InsertSorted | backend/src/backend/backend.py:303 | inserting into a newest-first list keeps it newest first |
| Ledger.InsertPermutes | backend/src/backend/backend.py:303 | inserting adds exactly that entry to the multiset of entries, and its quantity to the sum |
| Ledger.ByTimeDesc | backend/src/backend/backend.py:303 | the result is newest first, a permutation of the input, with the same quantity sum |
| Ledger.Listing | backend/src/backend/backend.py:299-306 | the listing of `list_my_beers` holds exactly the user's entries, each once (a permutation of the per-user scan), newest first, and its quantities add up to the user's total |
| Ledger.Total | backend/src/backend/backend.py:220-222 | a user with no entries has total 0 (the `coalesce(sum, 0)`) |
| Ledger.TotalCountsEntries | backend/src/backend/backend.py:220-222 | with every quantity at least one, a total is at least the number of entries, and it is 0 exactly when there are none |
| Ledger.InsertEffect | backend/src/backend/backend.py:424-431 | a new row under the next id is appended to its owner's entries and raises only its owner's total, by its quantity |
| Ledger.DecrementEffect | backend/src/backend/backend.py:328-330 | lowering an entry by one lowers only its owner's total, by exactly one |
| Ledger.RemoveEffect | backend/src/backend/backend.py:319-320 | deleting an entry lowers only its owner's total, by that entry's quantity |
| Friendship.Canonical | backend/src/backend/backend.py:534 | the pair holds the same two ids, smaller first |
| Friendship.CanonicalSymmetric | backend/src/backend/backend.py:534 | both orders of a couple give the same pair, and distinct ids give a strictly ordered pair |
| Friendship.PairsOf | backend/src/backend/backend.py:228 | the filtered pairs are exactly the stored pairs with the user in either position |
| Friendship.Other | backend/src/backend/backend.py:453 | for a pair touching the user, the user and the returned id form that pair |
| Friendship.Between | backend/src/backend/backend.py:511-512 | a request lies between two users, in either direction, exactly when it concerns their couple |
| Friendship.Party | backend/src/backend/backend.py:466-471 | the listed party is one of the request's two users: its recipient exactly for the incoming list |
| Friendship.Counterpart | backend/src/backend/backend.py:475 | the counterpart and the listed party are the request's two users, and they differ |
| Friendship.NameOrUnknown | backend/src/backend/backend.py:480 | an existing user's name; when no user is named "unknown", the sentinel appears exactly for a missing user |
| Friendship.AreFriends | backend/src/backend/backend.py:498-503 | the "already friends" query holds exactly when the couple's pair is stored in either order, whichever order the two ids are given in |
| Friendship.PendingBetween | backend/src/backend/backend.py:509-514 | the "existing pending" query holds exactly when some pending request concerns the same couple, in either direction |
| Friendship.FriendCount | backend/src/backend/backend.py:225-230 | the count is at most the number of pairs, and 0 exactly when no pair touches the user |
| Friendship.FriendIds | backend/src/backend/backend.py:450-453 | the collected ids are exactly the users the "already friends" query relates to the user |
| Friendship.AreFriendsCanonical | backend/src/backend/backend.py:498-503 | with canonical pairs, the two-order lookup of "already friends" is membership of the canonical pair, and never holds for oneself |
| Friendship.SendKeepsConsistent | backend/src/backend/backend.py:509-521 | a new pending request between unrelated distinct users keeps at most one pending request per couple and none for a couple of friends |
| Friendship.AcceptKeepsConsistent | backend/src/backend/backend.py:531-537 | accepting a pending request keeps the invariants; its couple's pair was not stored before, and pairs stay canonical |
| Friendship.DeclineKeepsConsistent | backend/src/backend/backend.py:538-539 | declining keeps the invariants |
| Friendship.ResolvedCouple | backend/src/backend/backend.py:525-543 | after a decline, the couple has no pending request and is not friends, so it may send a fresh request; after an accept, it has no pending request and is friends in both orders |
| Friendship.FriendCountAfterAdd | backend/src/backend/backend.py:225-230 | storing a new couple's pair raises the friend count of each of the two by one and of nobody else |
| Friendship.FriendIdsCount | backend/src/backend/backend.py:450-453 | with canonical pairs, a user has as many distinct friends as pairs touching them |
| Friendship.ToItem | backend/src/backend/backend.py:474-482 | the rendered request carries its id, direction and creation time, and the counterpart's name, or "unknown" when the counterpart does not resolve |
| Friendship.PendingFor | backend/src/backend/backend.py:464-473 | the request scan lists no more entries than its id range has ids |
| Friendship.PendingForExact | backend/src/backend/backend.py:464-482 | the request listing holds exactly the pending requests for the user, each rendered with its counterpart's name or "unknown"; the model lists them in increasing id order |
| Backend.Store.constructor | backend/src/backend/backend.py:107 | empty tables satisfy the invariant |
| Backend.Store.LoadSession | backend/src/backend/backend.py:134-145 | returns the trusted session; deletes the presented row exactly when it had expired |
| Backend.Store.GetCurrentUser | backend/src/backend/backend.py:148-156 | returns the current user or 401, pruning an expired token |
| Backend.Store.Register | backend/src/backend/backend.py:240-250 | 400 exactly when the stripped name or the stripped password is empty; otherwise 409 exactly when the stripped name is taken; otherwise one new user under the next id, with the stripped name and the hash of the unstripped password |
| Backend.Store.Accepts | backend/src/backend/backend.py:255-256 | accepted credentials name an existing user, and with unique names at most one user accepts them |
| Backend.Store.Login | backend/src/backend/backend.py:254-269 | success exactly when the stripped name's user verifies the password, and then exactly one new session for that user, expiring `ttlDays` days later; otherwise 401 with no change |
| Backend.Store.Logout | backend/src/backend/backend.py:273-281 | afterwards no session for the token remains, whether it was valid, expired or absent, and no other session changes |
| Backend.Store.OwnedBy | backend/src/backend/backend.py:310-311 | the entry passes the ownership test exactly when it is one of the caller's listed entries |
| Backend.Store.DeleteBeer | backend/src/backend/backend.py:308-321 | 404 exactly for an absent or foreign entry, with no change; otherwise the entry is removed and only the caller's total drops, by its quantity |
| Backend.Store.DecrementBeer | backend/src/backend/backend.py:323-341 | 404 exactly for an absent or foreign entry; a quantity above one drops by one and the updated entry is returned; a quantity of one deletes the entry; either way only the caller's total drops, by exactly one |
| Backend.Store.InsertBeer | backend/src/backend/backend.py:406-416 | the row goes under the next id, nothing else in the table changes, and only its owner's total rises, by its quantity |
| Backend.Store.AddManualBeers | backend/src/backend/backend.py:422-433 | fails with 422 exactly for a count outside 1..500 (the payload schema at lines 200-202), with no change; otherwise exactly one new manual entry whose quantity is the count, raising the caller's total by it |
| Backend.Store.UploadBeer | backend/src/backend/backend.py:354-418 | nothing read gives 400, more than 8 MiB gives 413, bytes that `Image.open` cannot identify give 400, all with no change; otherwise exactly one new non-manual entry of quantity one, with its image and size, raising the caller's total by one |
| Backend.Store.ListMyBeers | backend/src/backend/backend.py:298-306 | exactly the caller's entries, each once, newest first, with quantities adding up to the caller's total |
| Backend.Store.PublicUserBeers | backend/src/backend/backend.py:563-574 | 404 exactly for an unknown name; otherwise that user's listing |
| Backend.Store.PublicProfile | backend/src/backend/backend.py:549-560 | 404 exactly for an unknown name; otherwise that user's id, name, join time, total quantity and friend count |
| Backend.Store.SendFriendRequest | backend/src/backend/backend.py:489-522 | 404 when no user has the stripped name; 400 for oneself, for friends in either order, or for a pending request in either direction; otherwise exactly one new pending request from caller to target, and otherwise no change |
| Backend.Store.RespondFriendRequest | backend/src/backend/backend.py:525-543 | 404 with no change unless the request exists, is addressed to the caller and is pending; accept marks it accepted, stores the canonical pair (new to the table) and raises both parties' friend counts by one; decline marks it declined; any other action is 400 with no change |
| Backend.Store.MyFriendRequests | backend/src/backend/backend.py:462-486 | incoming holds exactly the pending requests to the caller, and outgoing exactly those from the caller, each with the counterpart's name or "unknown"; the model lists them in id order |
| Backend.Store.CollectFriendIds | backend/src/backend/backend.py:450-453 | collects exactly the other party of every pair touching the caller |
| Backend.Store.UsersAmong | backend/src/backend/backend.py:456-458 | every existing user whose id is among the given ids, once each, in id order, with its name |
| Backend.Store.ListFriends | backend/src/backend/backend.py:448-459 | each existing friend of the caller exactly once, in id order, with its name; when all friends exist, the list has as many entries as the friend count |

## Left out

- The frontend and the HTTP plumbing: cookies, JSON rendering, CORS settings and the media URL prefix in `beer_to_dict`.
- Password hashing: bcrypt is a pair of uninterpreted function-valued constants.
  - `hash` is deterministic, so in the model equal passwords give equal stored hashes; bcrypt salts at random, so in the source they do not. No contract depends on this.
  - `verify` is total, so the exception that `verify_password` turns into `False` is folded into it.
- Token generation: the random hex token is a parameter of `Login`, which requires it to be non-empty and unused.
- Image processing: decoding, resizing, re-encoding, the WEBP/JPEG fallback, writing the file, its name.
  - Filename collisions between two uploads in the same second are not modelled.
- `os.remove` of an entry's image on delete and decrement, and `backfill_image_sizes` at startup: both are filesystem effects that leave the tables unchanged or only fill `image_size_bytes`.
- `my_profile`: it returns the same fields as `public_profile` for the current user, and `PublicProfile` models them.
- Configuration from the environment: the TTL is the constructor argument `ttlDays`.
- Timestamps are integers on one clock, not ISO date-times. Server-side defaults are the `now` argument. A NULL `expires_at`, which the code would not expire, is not representable.
- Concurrency and transactions: each handler runs atomically on the store.
- The database's row order:
  - Listings with equal timestamps: `ByTimeDesc` fixes one valid order.
  - `list_friends` lists users in primary-key order; the source does not promise this.
  - `my_friend_requests` lists requests in primary-key order; its queries (lines 464-473) have no `order_by`.
- Foreign keys: the invariant does not require sessions or requests to name existing users. This keeps reachable the 401 "User missing" branch and the "unknown" counterpart in request listings.
- Backend.Store.Login: does not state that the token is random or secret; it states only that the issued session uses the supplied fresh token.
- Backend.Store.ListFriends: states the length equality with the friend count only when every friend still exists as a user, because the code drops friends whose user row is gone.
- Backend.Store.Register: does not bound name lengths. `username` is `String(64)` (line 61) and `Beer.name` is `String(120)` (line 80). The database refuses longer values with an error, while `Register`, `AddManualBeers` and `UploadBeer` accept them.
- Identity.FindUser: compares names exactly, character by character. The MySQL database of line 44 (utf8mb4) compares by its default collation, where the model treats names as different:
  - MySQL 8's `utf8mb4_0900_ai_ci` ignores case and accents, so `Alice`, `alice` and `alicé` are one name.
  - MySQL 5.7's `utf8mb4_general_ci` ignores case and trailing spaces, so `bob` and `bob ` are one name. That matters for the unstripped lookups of `public_profile` and `public_user_beers` (lines 551, 565).
- Identity.Trusted: compares tokens exactly, like `FindUser`, not by the database's collation. The issued hex tokens are lower-case, so this matters only for a client that presents a token in another case.
- Backend.Store.DeleteBeer, Backend.Store.DecrementBeer, Backend.Store.RespondFriendRequest: the ids are `nat` where the source takes `int` (lines 309, 324, 444). A negative id, which the source answers with 404, is not representable.
- Backend.Store.UploadBeer: `decodes` stands for `Image.open` accepting the bytes, which reads only the header (lines 362-365). A later failure is not represented: resizing (line 377), converting (line 381), the JPEG fallback save (line 396) or writing the file (lines 402-403). Such a failure raises an uncaught exception, answered with 500 and no new row.
- Backend.Store.UploadBeer: stores the re-encoded size and file name it is given, without relating them to the uploaded bytes.
