/** A client of the store that replays one story through the handlers' contracts alone:
    two users register, one sends the other a friend request, it is accepted, and a
    second request between them is refused. */
module Scenario {
  import opened Responses
  import opened Text
  import opened Identity
  import opened Friendship
  import opened Backend

  /** The names and passwords of the story, as `strip` leaves them. */
  lemma AliceStripped() ensures Strip("alice") == "alice" {}
  lemma SecretStripped() ensures Strip("secret") == "secret" {}
  lemma BobStripped() ensures Strip("bob") == "bob" {}
  lemma PaddedBobStripped() ensures Strip(" bob ") == "bob" {}
  lemma HunterStripped() ensures Strip("hunter2") == "hunter2" {}

  /** A fresh store in which "alice" (id 1) and " bob " (stored as "bob", id 2) register. */
  method SignUp(now: int) returns (store: Store)
    ensures fresh(store) && store.Valid()
    ensures store.users.Keys == {1, 2} && store.users[1].username == "alice" && store.users[2].username == "bob"
    ensures store.requests == map[] && store.friends == {} && store.nextRequestId == 1
  {
    AliceStripped();
    SecretStripped();
    store := new Store((pw: string) => "h:" + pw, (pw: string, h: string) => h == "h:" + pw, DefaultSessionTtlDays);
    var reg := store.Register("alice", "secret", now);
    assert !NameTaken(map[], "alice");
    assert reg != Err(BadRequest) && reg != Err(Conflict);
    assert store.users == map[1 := User("alice", store.hash("secret"), now)];
    PaddedBobStripped();
    HunterStripped();
    SignUpBob(store, " bob ", "hunter2", now);
  }

  /** `" bob "` registers under the stripped name `"bob"`, as id 2. */
  method SignUpBob(store: Store, name: string, password: string, now: int)
    requires store.Valid()
    requires store.users.Keys == {1} && store.users[1].username == "alice" && store.nextUserId == 2
    requires store.requests == map[] && store.friends == {} && store.nextRequestId == 1
    requires Strip(name) == "bob" && Strip(password) != []
    modifies store
    ensures store.Valid()
    ensures store.users.Keys == {1, 2} && store.users[1].username == "alice" && store.users[2].username == "bob"
    ensures store.requests == map[] && store.friends == {} && store.nextRequestId == 1
  {
    var reg := store.Register(name, password, now);
    assert !NameTaken(old(store.users), "bob");
    assert reg != Err(BadRequest) && reg != Err(Conflict);
  }

  /** Alice asks Bob; the crossed request is refused while hers is pending. */
  method Ask(store: Store, now: int)
    requires store.Valid()
    requires store.users.Keys == {1, 2} && store.users[1].username == "alice" && store.users[2].username == "bob"
    requires store.requests == map[] && store.friends == {} && store.nextRequestId == 1
    modifies store
    ensures store.Valid() && store.users == old(store.users) && store.friends == {}
    ensures store.requests == map[1 := FriendRequest(1, 2, Pending, now)]
  {
    var alice, bob := 1, 2;
    BobStripped();
    var sent := store.SendFriendRequest(alice, "bob", now);
    assert store.users[bob].username == "bob";
    assert !PendingBetween(map[], alice, bob);
    assert sent == Ok(());
    assert store.requests == map[1 := FriendRequest(alice, bob, Pending, now)];
    var lists := store.MyFriendRequests(bob);
    assert RequestItem(1, true, "alice", now) in lists.incoming;

    AliceStripped();
    var crossed := store.SendFriendRequest(bob, "alice", now);
    assert store.users[alice].username == "alice";
    assert store.requests[1].status == Pending && Between(store.requests[1], bob, alice);
    assert crossed == Err(BadRequest);
  }

  /** Bob accepts: each now counts one friend. */
  method Accept(store: Store, now: int)
    requires store.Valid()
    requires store.users.Keys == {1, 2} && store.users[1].username == "alice" && store.users[2].username == "bob"
    requires store.friends == {} && store.requests == map[1 := FriendRequest(1, 2, Pending, now)]
    modifies store
    ensures store.Valid() && store.users == old(store.users) && store.friends == {(1, 2)}
  {
    var alice, bob := 1, 2;
    var answered := store.RespondFriendRequest(bob, 1, "accept");
    assert answered == Ok(());
    assert store.friends == {(alice, bob)};
    assert FriendCount({}, alice) == 0 && FriendCount({}, bob) == 0;
    assert FriendCount(store.friends, alice) == 1 && FriendCount(store.friends, bob) == 1;
  }

  /** Once they are friends, a further request between them is refused. */
  method AskAgain(store: Store, now: int)
    requires store.Valid()
    requires store.users.Keys == {1, 2} && store.users[2].username == "bob" && store.friends == {(1, 2)}
    modifies store
  {
    var alice, bob := 1, 2;
    BobStripped();
    var again := store.SendFriendRequest(alice, "bob", now);
    assert store.users[bob].username == "bob";
    assert AreFriends(store.friends, alice, bob);
    assert again == Err(BadRequest);
  }

  method AliceAndBob(now: int)
  {
    var store := SignUp(now);
    Ask(store, now);
    Accept(store, now);
    AskAgain(store, now);
  }
}
