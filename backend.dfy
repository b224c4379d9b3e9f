/** The backend's relational store as one object: the five tables are fields, every
    mutating handler is a method that reads, checks and writes them, and the read-only
    handlers are functions over them. A handler that depends on `get_current_user`
    takes the id of the user that `GetCurrentUser` resolved as `caller`. */
module Backend {
  import opened Responses
  import opened Text
  import opened Identity
  import opened Ledger
  import opened Friendship

  /** The two answers of `decrement_beer`: the updated entry, or `deleted: True`. */
  datatype Decrement = Decremented(item: Item) | Deleted

  /** The body of `public_profile`. */
  datatype Profile = Profile(id: nat, username: string, joinedAt: int, totalBeers: int, friendsCount: nat)

  /** An entry of `list_friends`. */
  datatype FriendItem = FriendItem(id: nat, username: string)

  /** The body of `my_friend_requests`. */
  datatype RequestLists = RequestLists(incoming: seq<RequestItem>, outgoing: seq<RequestItem>)

  predicate FriendIdsIncreasing(items: seq<FriendItem>) {
    forall i, j :: 0 <= i < j < |items| ==> items[i].id < items[j].id
  }

  /** A list with strictly increasing ids, whose ids are exactly the set `ids`, has as
      many entries as `ids` has elements. */
  lemma {:induction false} IncreasingIdsCount(items: seq<FriendItem>, ids: set<nat>)
    requires FriendIdsIncreasing(items)
    requires forall k :: 0 <= k < |items| ==> items[k].id in ids
    requires forall f :: f in ids ==> exists k :: 0 <= k < |items| && items[k].id == f
    ensures |items| == |ids|
  {
    if items == [] {
      assert ids == {};
    } else {
      var rest := items[1..];
      var ids' := ids - {items[0].id};
      forall k | 0 <= k < |rest| ensures rest[k].id in ids' {
        assert rest[k] == items[k + 1];
      }
      forall f | f in ids' ensures exists k :: 0 <= k < |rest| && rest[k].id == f {
        var k :| 0 <= k < |items| && items[k].id == f;
        assert rest[k - 1] == items[k];
      }
      IncreasingIdsCount(rest, ids');
    }
  }

  class Store {
    /** The password-hashing collaborator: `hash_password` and `verify_password`. */
    const hash: string -> string
    const verify: (string, string) -> bool
    /** The `SESSION_TTL_DAYS` setting. */
    const ttlDays: int

    var users: map<nat, User>
    var sessions: map<string, Session>
    var beers: map<nat, Beer>
    var requests: map<nat, FriendRequest>
    var friends: set<Pair>
    /** The next value of each auto-increment primary key. */
    var nextUserId: nat
    var nextBeerId: nat
    var nextRequestId: nat

    ghost predicate Valid()
      reads this
    {
      && (forall id :: id in users ==> id < nextUserId)
      && UniqueNames(users)
      && (forall id :: id in users ==> users[id].username != [] && IsStripped(users[id].username))
      && "" !in sessions
      && (forall id :: id in beers ==> id < nextBeerId)
      && PositiveQuantities(beers)
      && (forall id :: id in requests ==> id < nextRequestId)
      && CanonicalPairs(friends)
      && RequestsConsistent(requests, friends)
    }

    constructor (hash: string -> string, verify: (string, string) -> bool, ttlDays: int)
      ensures Valid()
      ensures this.hash == hash && this.verify == verify && this.ttlDays == ttlDays
      ensures users == map[] && sessions == map[] && beers == map[] && requests == map[] && friends == {}
      ensures nextUserId == 1 && nextBeerId == 1 && nextRequestId == 1
    {
      this.hash := hash;
      this.verify := verify;
      this.ttlDays := ttlDays;
      users, sessions, beers, requests, friends := map[], map[], map[], map[], {};
      nextUserId, nextBeerId, nextRequestId := 1, 1, 1;
    }

    // ----------------------------------------------------------------------------------
    // Identity and sessions
    // ----------------------------------------------------------------------------------

    /** `_load_session`: the session trusted for `token`; an expired one is deleted. */
    method LoadSession(token: string, now: int) returns (s: Option<Session>)
      requires Valid()
      modifies this`sessions
      ensures Valid()
      ensures s == Trusted(old(sessions), token, now)
      ensures sessions == AfterLoad(old(sessions), token, now)
    {
      if token == "" {
        return None;
      }
      if token !in sessions {
        return None;
      }
      var row := sessions[token];
      if row.expiresAt < now {
        sessions := sessions - {token};
        return None;
      }
      return Some(row);
    }

    /** `get_current_user`: 401 without a trusted session or when its user is missing. */
    method GetCurrentUser(token: string, now: int) returns (r: Result<nat>)
      requires Valid()
      modifies this`sessions
      ensures Valid()
      ensures r == CurrentUser(users, old(sessions), token, now)
      ensures sessions == AfterLoad(old(sessions), token, now)
    {
      var s := LoadSession(token, now);
      if s.None? {
        return Err(Unauthorized);
      }
      if s.value.userId !in users {
        return Err(Unauthorized);
      }
      return Ok(s.value.userId);
    }

    /** `register`: 400 when the stripped name or password is empty, 409 when the stripped
        name is taken, otherwise one new user under the next id. */
    method Register(username: string, password: string, now: int) returns (r: Result<()>)
      requires Valid()
      modifies this`users, this`nextUserId
      ensures Valid()
      ensures r == Err(BadRequest) <==> Strip(username) == [] || Strip(password) == []
      ensures r == Err(Conflict)
              <==> Strip(username) != [] && Strip(password) != [] && NameTaken(old(users), Strip(username))
      ensures r.Ok? || r == Err(BadRequest) || r == Err(Conflict)
      ensures r.Err? ==> users == old(users) && nextUserId == old(nextUserId)
      ensures r.Ok? ==> users == old(users)[old(nextUserId) := User(Strip(username), hash(password), now)]
      ensures r.Ok? ==> nextUserId == old(nextUserId) + 1
    {
      var name := Strip(username);
      if name == [] || Strip(password) == [] {
        return Err(BadRequest);
      }
      var existing := FindUser(users, name, 0, nextUserId);
      if existing.Some? {
        return Err(Conflict);
      }
      users := users[nextUserId := User(name, hash(password), now)];
      nextUserId := nextUserId + 1;
      return Ok(());
    }

    /** The check of `login`: `id` is the user of that (stripped) name and the password
        verifies against its hash. */
    function Accepts(id: nat, name: string, password: string): (b: bool)
      reads this`users
      ensures b ==> NameTaken(users, name)
      ensures b && UniqueNames(users) ==> forall j :: j in users && users[j].username == name ==> j == id
    {
      id in users && users[id].username == name && verify(password, users[id].passwordHash)
    }

    /** `login`: 401 unless the stripped name belongs to a user whose hash verifies the
        password; otherwise a session for that user, issued now and expiring `ttlDays`
        days later. `token` is the fresh random token the generator supplied. */
    method Login(username: string, password: string, token: string, now: int) returns (r: Result<string>)
      requires Valid()
      requires token != "" && token !in sessions
      modifies this`sessions
      ensures Valid()
      ensures r.Ok? <==> exists id :: Accepts(id, Strip(username), password)
      ensures r.Err? ==> r.status == Unauthorized && sessions == old(sessions)
      ensures forall id :: r.Ok? && Accepts(id, Strip(username), password) ==>
                r.value == token && sessions == old(sessions)[token := Issue(id, now, ttlDays)]
    {
      var name := Strip(username);
      var found := FindUser(users, name, 0, nextUserId);
      if found.None? {
        return Err(Unauthorized);
      }
      var id := found.value;
      assert forall j :: Accepts(j, name, password) ==> j == id;
      if !verify(password, users[id].passwordHash) {
        return Err(Unauthorized);
      }
      sessions := sessions[token := Issue(id, now, ttlDays)];
      assert Accepts(id, name, password);
      return Ok(token);
    }

    /** `logout`: whatever the token's state, no session for it remains. */
    method Logout(token: string, now: int)
      requires Valid()
      modifies this`sessions
      ensures Valid()
      ensures sessions == old(sessions) - {token}
    {
      var s := LoadSession(token, now);
      if s.Some? {
        sessions := sessions - {token};
      }
    }

    // ----------------------------------------------------------------------------------
    // Ledger
    // ----------------------------------------------------------------------------------

    /** The 404 test of `delete_beer` and `decrement_beer`: the entry exists and belongs
        to `caller`, that is, it is one of the entries listed for `caller`. */
    function OwnedBy(beerId: nat, caller: nat): (b: bool)
      reads this`beers
      ensures b <==> exists it :: it in Owned(beers, caller, 0, beerId + 1) && it.id == beerId
    {
      OwnedExact(beers, caller, 0, beerId + 1);
      assert beerId in beers && beers[beerId].owner == caller ==> Item(beerId, beers[beerId]) in Owned(beers, caller, 0, beerId + 1);
      beerId in beers && beers[beerId].owner == caller
    }

    /** `delete_beer`: 404 for an absent or foreign entry; otherwise the entry is removed
        whatever its quantity, and only its owner's total drops, by that quantity. */
    method DeleteBeer(caller: nat, beerId: nat) returns (r: Result<()>)
      requires Valid()
      modifies this`beers
      ensures Valid()
      ensures r.Err? <==> !old(OwnedBy(beerId, caller))
      ensures r.Err? ==> r.status == NotFound && beers == old(beers)
      ensures r.Ok? ==> beers == old(beers) - {beerId}
      ensures r.Ok? ==> Total(beers, caller, nextBeerId) == Total(old(beers), caller, nextBeerId) - old(beers[beerId].quantity)
      ensures forall u :: u != caller ==> Total(beers, u, nextBeerId) == Total(old(beers), u, nextBeerId)
    {
      if beerId !in beers || beers[beerId].owner != caller {
        return Err(NotFound);
      }
      ghost var before := beers;
      beers := beers - {beerId};
      forall u ensures Total(beers, u, nextBeerId) == Total(before, u, nextBeerId) - (if u == caller then before[beerId].quantity else 0) {
        RemoveEffect(before, nextBeerId, beerId, u);
      }
      return Ok(());
    }

    /** `decrement_beer`: 404 for an absent or foreign entry; an entry of quantity above
        one loses exactly one unit and is returned; an entry of quantity one is removed
        instead of being left at zero. Either way its owner's total drops by exactly one. */
    method DecrementBeer(caller: nat, beerId: nat) returns (r: Result<Decrement>)
      requires Valid()
      modifies this`beers
      ensures Valid()
      ensures r.Err? <==> !old(OwnedBy(beerId, caller))
      ensures r.Err? ==> r.status == NotFound && beers == old(beers)
      ensures old(OwnedBy(beerId, caller)) && old(beers[beerId].quantity) > 1 ==>
                && beers == old(beers)[beerId := old(beers[beerId]).(quantity := old(beers[beerId].quantity) - 1)]
                && r == Ok(Decremented(Item(beerId, beers[beerId])))
      ensures old(OwnedBy(beerId, caller)) && old(beers[beerId].quantity) == 1 ==>
                beers == old(beers) - {beerId} && r == Ok(Deleted)
      ensures r.Ok? ==> Total(beers, caller, nextBeerId) == Total(old(beers), caller, nextBeerId) - 1
      ensures forall u :: u != caller ==> Total(beers, u, nextBeerId) == Total(old(beers), u, nextBeerId)
    {
      if beerId !in beers || beers[beerId].owner != caller {
        return Err(NotFound);
      }
      ghost var before := beers;
      var b := beers[beerId];
      if b.quantity > 1 {
        beers := beers[beerId := b.(quantity := b.quantity - 1)];
        forall u ensures Total(beers, u, nextBeerId) == Total(before, u, nextBeerId) - (if u == caller then 1 else 0) {
          DecrementEffect(before, nextBeerId, beerId, u);
        }
        return Ok(Decremented(Item(beerId, beers[beerId])));
      }
      beers := beers - {beerId};
      forall u ensures Total(beers, u, nextBeerId) == Total(before, u, nextBeerId) - (if u == caller then 1 else 0) {
        RemoveEffect(before, nextBeerId, beerId, u);
      }
      return Ok(Deleted);
    }

    /** Stores `b` under the next beer id and returns it with that id. */
    method InsertBeer(b: Beer) returns (item: Item)
      requires Valid() && b.quantity >= 1
      modifies this`beers, this`nextBeerId
      ensures Valid()
      ensures item == Item(old(nextBeerId), b)
      ensures beers == old(beers)[item.id := b] && nextBeerId == old(nextBeerId) + 1
      ensures forall u :: Total(beers, u, nextBeerId)
                          == Total(old(beers), u, old(nextBeerId)) + (if u == b.owner then b.quantity else 0)
    {
      ghost var before := beers;
      item := Item(nextBeerId, b);
      beers := beers[nextBeerId := b];
      nextBeerId := nextBeerId + 1;
      forall u ensures Total(beers, u, nextBeerId) == Total(before, u, item.id) + (if u == b.owner then b.quantity else 0) {
        InsertEffect(before, item.id, b, u);
      }
    }

    /** `add_manual_beers`: a count outside `1..500` fails the payload schema (422);
        otherwise exactly one new manual entry with quantity = count. */
    method AddManualBeers(caller: nat, count: int, name: Option<string>, now: int) returns (r: Result<Item>)
      requires Valid()
      modifies this`beers, this`nextBeerId
      ensures Valid()
      ensures r.Err? <==> !(ManualMin <= count <= ManualMax)
      ensures r.Err? ==> r.status == UnprocessableEntity && beers == old(beers) && nextBeerId == old(nextBeerId)
      ensures r.Ok? ==> r.value == Item(old(nextBeerId), Beer(caller, DisplayName(name), true, count, None, None, now))
      ensures r.Ok? ==> beers == old(beers)[r.value.id := r.value.beer] && nextBeerId == old(nextBeerId) + 1
      ensures r.Ok? ==> Total(beers, caller, nextBeerId) == Total(old(beers), caller, old(nextBeerId)) + count
    {
      if !(ManualMin <= count <= ManualMax) {
        return Err(UnprocessableEntity);
      }
      var item := InsertBeer(Beer(caller, DisplayName(name), true, count, None, None, now));
      return Ok(item);
    }

    /** `upload_beer`, row creation: of an upload of `uploadSize` bytes at most
        `UploadSizeLimit + 1` are read; nothing read is 400, more than the limit is 413,
        bytes that `Image.open` cannot identify (`decodes` false) are 400. Otherwise exactly one new entry of
        quantity one, not manual, with the stored image's name and re-encoded size. */
    method UploadBeer(caller: nat, uploadSize: nat, decodes: bool, imageName: string, encodedSize: nat,
                      name: string, now: int) returns (r: Result<Item>)
      requires Valid()
      modifies this`beers, this`nextBeerId
      ensures Valid()
      ensures uploadSize == 0 ==> r == Err(BadRequest)
      ensures uploadSize > UploadSizeLimit ==> r == Err(PayloadTooLarge)
      ensures 0 < uploadSize <= UploadSizeLimit && !decodes ==> r == Err(BadRequest)
      ensures r.Err? ==> beers == old(beers) && nextBeerId == old(nextBeerId)
      ensures 0 < uploadSize <= UploadSizeLimit && decodes ==>
                r == Ok(Item(old(nextBeerId), Beer(caller, DisplayName(Some(name)), false, 1, Some(imageName), Some(encodedSize), now)))
      ensures r.Ok? ==> beers == old(beers)[r.value.id := r.value.beer] && nextBeerId == old(nextBeerId) + 1
      ensures r.Ok? ==> Total(beers, caller, nextBeerId) == Total(old(beers), caller, old(nextBeerId)) + 1
    {
      var readSize := if uploadSize > UploadSizeLimit + 1 then UploadSizeLimit + 1 else uploadSize;
      if readSize == 0 {
        return Err(BadRequest);
      }
      if readSize > UploadSizeLimit {
        return Err(PayloadTooLarge);
      }
      if !decodes {
        return Err(BadRequest);
      }
      var item := InsertBeer(Beer(caller, DisplayName(Some(name)), false, 1, Some(imageName), Some(encodedSize), now));
      return Ok(item);
    }

    /** `list_my_beers`: exactly the caller's entries, each once, newest first; their
        quantities add up to the caller's `total_beers_sum`. */
    function ListMyBeers(caller: nat): (r: seq<Item>)
      reads this
      requires Valid()
      ensures NewestFirst(r)
      ensures forall it :: it in r <==> it.id in beers && it.beer == beers[it.id] && it.beer.owner == caller
      ensures |r| == |Owned(beers, caller, 0, nextBeerId)|
      ensures Quantities(r) == Total(beers, caller, nextBeerId)
    {
      Listing(beers, caller, nextBeerId)
    }

    /** `public_user_beers`: 404 for an unknown name, otherwise that user's listing. */
    function PublicUserBeers(username: string): (r: Result<seq<Item>>)
      reads this
      requires Valid()
      ensures r.Err? <==> !NameTaken(users, username)
      ensures r.Err? ==> r.status == NotFound
      ensures forall id :: id in users && users[id].username == username ==>
                r == Ok(Listing(beers, id, nextBeerId))
    {
      match FindUser(users, username, 0, nextUserId)
      case None => Err(NotFound)
      case Some(id) => Ok(Listing(beers, id, nextBeerId))
    }

    /** `public_profile`: 404 for an unknown name, otherwise that user's row with its
        total quantity and friend count. */
    function PublicProfile(username: string): (r: Result<Profile>)
      reads this
      requires Valid()
      ensures r.Err? <==> !NameTaken(users, username)
      ensures r.Err? ==> r.status == NotFound
      ensures forall id :: id in users && users[id].username == username ==>
                r == Ok(Profile(id, username, users[id].joinedAt, Total(beers, id, nextBeerId), FriendCount(friends, id)))
    {
      match FindUser(users, username, 0, nextUserId)
      case None => Err(NotFound)
      case Some(id) => Ok(Profile(id, users[id].username, users[id].joinedAt, Total(beers, id, nextBeerId), FriendCount(friends, id)))
    }

    // ----------------------------------------------------------------------------------
    // Friends
    // ----------------------------------------------------------------------------------

    /** `send_friend_request`: 404 when no user has the stripped name; 400 for oneself,
        for a couple already stored as friends in either order, or with a pending request
        in either direction; otherwise exactly one new pending request caller -> target. */
    method SendFriendRequest(caller: nat, toUsername: string, now: int) returns (r: Result<()>)
      requires Valid()
      modifies this`requests, this`nextRequestId
      ensures Valid()
      ensures !NameTaken(users, Strip(toUsername)) ==> r == Err(NotFound)
      ensures forall t :: t in users && users[t].username == Strip(toUsername) ==>
                r == if t == caller || AreFriends(friends, caller, t) || PendingBetween(old(requests), caller, t)
                     then Err(BadRequest) else Ok(())
      ensures r.Err? ==> requests == old(requests) && nextRequestId == old(nextRequestId)
      ensures forall t :: t in users && users[t].username == Strip(toUsername) && r.Ok? ==>
                requests == old(requests)[old(nextRequestId) := FriendRequest(caller, t, Pending, now)]
      ensures r.Ok? ==> nextRequestId == old(nextRequestId) + 1
    {
      var name := Strip(toUsername);
      var target := FindUser(users, name, 0, nextUserId);
      if target.None? {
        return Err(NotFound);
      }
      var t := target.value;
      assert forall j :: j in users && users[j].username == name ==> j == t;
      if t == caller {
        return Err(BadRequest);
      }
      if (caller, t) in friends || (t, caller) in friends {
        return Err(BadRequest);
      }
      if PendingBetween(requests, caller, t) {
        return Err(BadRequest);
      }
      SendKeepsConsistent(requests, friends, nextRequestId, FriendRequest(caller, t, Pending, now));
      requests := requests[nextRequestId := FriendRequest(caller, t, Pending, now)];
      nextRequestId := nextRequestId + 1;
      return Ok(());
    }

    /** `respond_friend_request`: 404 unless the request exists, is addressed to the caller
        and is pending. "accept" marks it accepted and stores the couple's canonical pair,
        which was not stored before, so both parties' friend counts rise by exactly one and
        nobody else's changes; "decline" marks it declined and stores nothing; any other
        action is 400 and changes nothing. */
    method RespondFriendRequest(caller: nat, requestId: nat, action: string) returns (r: Result<()>)
      requires Valid()
      modifies this`requests, this`friends
      ensures Valid()
      ensures !(requestId in old(requests) && old(requests)[requestId].to == caller && old(requests)[requestId].status == Pending) ==>
                r == Err(NotFound) && requests == old(requests) && friends == old(friends)
      ensures requestId in old(requests) && old(requests)[requestId].to == caller && old(requests)[requestId].status == Pending ==>
                var fr := old(requests)[requestId];
                if action == "accept" then
                  && r == Ok(())
                  && requests == old(requests)[requestId := fr.(status := Accepted)]
                  && Canonical(fr.from, fr.to) !in old(friends)
                  && friends == old(friends) + {Canonical(fr.from, fr.to)}
                  && forall u :: FriendCount(friends, u) == FriendCount(old(friends), u) + (if u == fr.from || u == fr.to then 1 else 0)
                else if action == "decline" then
                  r == Ok(()) && requests == old(requests)[requestId := fr.(status := Declined)] && friends == old(friends)
                else
                  r == Err(BadRequest) && requests == old(requests) && friends == old(friends)
    {
      if requestId !in requests || requests[requestId].to != caller || requests[requestId].status != Pending {
        return Err(NotFound);
      }
      var fr := requests[requestId];
      if action == "accept" {
        AcceptKeepsConsistent(requests, friends, requestId);
        requests := requests[requestId := fr.(status := Accepted)];
        var pair := Canonical(fr.from, fr.to);
        if pair !in friends {
          forall u ensures FriendCount(friends + {pair}, u) == FriendCount(friends, u) + (if u == fr.from || u == fr.to then 1 else 0) {
            FriendCountAfterAdd(friends, fr.from, fr.to, u);
          }
          friends := friends + {pair};
        }
      } else if action == "decline" {
        DeclineKeepsConsistent(requests, friends, requestId);
        requests := requests[requestId := fr.(status := Declined)];
      } else {
        return Err(BadRequest);
      }
      return Ok(());
    }

    /** `my_friend_requests`: the pending requests addressed to `caller` and those sent by
        `caller`, each with the counterpart's name ("unknown" if it does not resolve). */
    function MyFriendRequests(caller: nat): (r: RequestLists)
      reads this
      requires Valid()
      ensures forall it :: it in r.incoming <==>
                it.id in requests && requests[it.id].status == Pending && requests[it.id].to == caller
                && it == RequestItem(it.id, true, NameOrUnknown(users, requests[it.id].from), requests[it.id].createdAt)
      ensures forall it :: it in r.outgoing <==>
                it.id in requests && requests[it.id].status == Pending && requests[it.id].from == caller
                && it == RequestItem(it.id, false, NameOrUnknown(users, requests[it.id].to), requests[it.id].createdAt)
      ensures IdsIncreasing(r.incoming) && IdsIncreasing(r.outgoing)
    {
      PendingForExact(requests, users, caller, true, 0, nextRequestId);
      PendingForExact(requests, users, caller, false, 0, nextRequestId);
      RequestLists(PendingFor(requests, users, caller, true, 0, nextRequestId),
                   PendingFor(requests, users, caller, false, 0, nextRequestId))
    }

    /** The loop of `list_friends`: the other party of every pair touching `caller`. */
    method CollectFriendIds(caller: nat) returns (friendIds: seq<nat>)
      ensures forall f :: f in friendIds <==> f in FriendIds(friends, caller)
    {
      var pairs := PairsOf(friends, caller);
      friendIds := [];
      while pairs != {}
        invariant pairs <= PairsOf(friends, caller)
        invariant forall f :: f in friendIds ==> f in FriendIds(friends, caller)
        invariant forall p :: p in PairsOf(friends, caller) && p !in pairs ==> Other(p, caller) in friendIds
        decreases |pairs|
      {
        var p :| p in pairs;
        friendIds := friendIds + [Other(p, caller)];
        pairs := pairs - {p};
      }
    }

    /** `query(User).filter(User.id.in_(ids))` and the loop over its rows: every existing
        user whose id is among `ids`, once, in id order, with its name. */
    method UsersAmong(ids: seq<nat>) returns (items: seq<FriendItem>)
      requires forall id :: id in users ==> id < nextUserId
      ensures forall k :: 0 <= k < |items| ==>
                items[k].id in ids && items[k].id in users && items[k].username == users[items[k].id].username
      ensures forall f :: f in ids && f in users ==> exists k :: 0 <= k < |items| && items[k].id == f
      ensures FriendIdsIncreasing(items)
    {
      items := [];
      var id := 0;
      while id < nextUserId
        invariant id <= nextUserId
        invariant forall k :: 0 <= k < |items| ==>
                    items[k].id < id && items[k].id in ids && items[k].id in users && items[k].username == users[items[k].id].username
        invariant forall f :: f < id && f in ids && f in users ==> exists k :: 0 <= k < |items| && items[k].id == f
        invariant FriendIdsIncreasing(items)
      {
        if id in users && id in ids {
          ghost var before := items;
          items := items + [FriendItem(id, users[id].username)];
          assert items[|items| - 1].id == id;
          assert forall k :: 0 <= k < |before| ==> items[k] == before[k];
        }
        id := id + 1;
      }
    }

    /** `list_friends`: each existing friend of `caller`, once, in id order, with its name. */
    method ListFriends(caller: nat) returns (items: seq<FriendItem>)
      requires Valid()
      ensures forall k :: 0 <= k < |items| ==>
                items[k].id in FriendIds(friends, caller) && items[k].id in users && items[k].username == users[items[k].id].username
      ensures forall f :: f in FriendIds(friends, caller) && f in users ==> exists k :: 0 <= k < |items| && items[k].id == f
      ensures FriendIdsIncreasing(items)
      ensures (forall f :: f in FriendIds(friends, caller) ==> f in users) ==> |items| == FriendCount(friends, caller)
    {
      var friendIds := CollectFriendIds(caller);
      items := UsersAmong(friendIds);
      if forall f :: f in FriendIds(friends, caller) ==> f in users {
        IncreasingIdsCount(items, FriendIds(friends, caller));
        FriendIdsCount(friends, caller);
      }
    }
  }
}
