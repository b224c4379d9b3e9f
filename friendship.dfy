/** The `friend_requests` and `friends` tables: directed requests with a status, and
    friendships stored once per couple as the pair (smaller id, larger id). */
module Friendship {
  import opened Responses
  import opened Identity

  datatype Status = Pending | Accepted | Declined

  /** A row of `friend_requests`. */
  datatype FriendRequest = FriendRequest(from: nat, to: nat, status: Status, createdAt: int)

  /** A row of `friends`: `(user_a, user_b)`. */
  type Pair = (nat, nat)

  /** `sorted([x, y])`: the same two ids, smaller first. */
  function Canonical(x: nat, y: nat): (p: Pair)
    ensures p.0 <= p.1
    ensures (p.0 == x && p.1 == y) || (p.0 == y && p.1 == x)
  {
    if x <= y then (x, y) else (y, x)
  }

  /** Both orders of a couple give the same stored pair, and distinct ids give a pair
      whose first id is strictly smaller. */
  lemma CanonicalSymmetric(x: nat, y: nat)
    ensures Canonical(x, y) == Canonical(y, x)
    ensures x != y ==> Canonical(x, y).0 < Canonical(x, y).1
  {
  }

  predicate Touches(p: Pair, u: nat) {
    p.0 == u || p.1 == u
  }

  /** The friend pairs with `u` in either position. */
  function PairsOf(friends: set<Pair>, u: nat): (r: set<Pair>)
    ensures r <= friends
    ensures forall p :: p in friends && (p.0 == u || p.1 == u) ==> p in r
    ensures forall p :: p in r ==> p.0 == u || p.1 == u
  {
    set p | p in friends && Touches(p, u)
  }

  /** `friends_count`. */
  function FriendCount(friends: set<Pair>, u: nat): (n: nat)
    ensures n <= |friends|
    ensures n == 0 <==> forall p :: p in friends ==> !Touches(p, u)
  {
    PairsOfBounds(friends, u);
    |PairsOf(friends, u)|
  }

  lemma {:induction false} SubsetSize(a: set<Pair>, b: set<Pair>)
    requires a <= b
    decreases |a|
    ensures |a| <= |b|
  {
    if a != {} {
      var x :| x in a;
      SubsetSize(a - {x}, b - {x});
    }
  }

  lemma PairsOfBounds(friends: set<Pair>, u: nat)
    ensures |PairsOf(friends, u)| <= |friends|
    ensures PairsOf(friends, u) == {} <==> forall p :: p in friends ==> !Touches(p, u)
  {
    SubsetSize(PairsOf(friends, u), friends);
    assert forall p :: p in friends && Touches(p, u) ==> p in PairsOf(friends, u);
    if PairsOf(friends, u) != {} {
      var p :| p in PairsOf(friends, u);
    }
  }

  /** The party of `p` that is not `u`. */
  function Other(p: Pair, u: nat): (o: nat)
    ensures Touches(p, u) ==> Canonical(u, o) == Canonical(p.0, p.1)
  {
    if p.0 == u then p.1 else p.0
  }

  /** `friend_ids` of `list_friends`: the other party of every pair touching `u`. */
  function FriendIds(friends: set<Pair>, u: nat): (ids: set<nat>)
    ensures forall f :: f in ids <==> AreFriends(friends, u, f)
  {
    var ids := set p | p in friends && Touches(p, u) :: Other(p, u);
    assert forall f :: AreFriends(friends, u, f) ==> f in ids by {
      forall f | AreFriends(friends, u, f) ensures f in ids {
        if (u, f) in friends {
          assert Other((u, f), u) == f;
        } else {
          assert Other((f, u), u) == f;
        }
      }
    }
    ids
  }

  /** The "already friends?" query of `send_friend_request`: a pair in either stored order. */
  function AreFriends(friends: set<Pair>, x: nat, y: nat): (b: bool)
    ensures b <==> Canonical(x, y) in friends || (Canonical(x, y).1, Canonical(x, y).0) in friends
  {
    (x, y) in friends || (y, x) in friends
  }

  function Between(fr: FriendRequest, x: nat, y: nat): (b: bool)
    ensures b <==> Canonical(fr.from, fr.to) == Canonical(x, y)
  {
    (fr.from == x && fr.to == y) || (fr.from == y && fr.to == x)
  }

  /** The "existing pending?" query of `send_friend_request`: a pending request between
      `x` and `y`, in either direction. */
  function PendingBetween(requests: map<nat, FriendRequest>, x: nat, y: nat): (b: bool)
    ensures b <==> exists id :: id in requests && requests[id].status == Pending
                                && Canonical(requests[id].from, requests[id].to) == Canonical(x, y)
  {
    exists id :: id in requests && requests[id].status == Pending && Between(requests[id], x, y)
  }

  predicate SameCouple(a: FriendRequest, b: FriendRequest) {
    Canonical(a.from, a.to) == Canonical(b.from, b.to)
  }

  /** Every stored pair has its smaller id first and is not a self-pair. */
  ghost predicate CanonicalPairs(friends: set<Pair>) {
    forall p :: p in friends ==> p.0 < p.1
  }

  /** The friendship invariants the handlers keep: nobody requests themselves, a couple
      has at most one pending request, and a couple with a pending request is not yet a
      pair of friends. */
  ghost predicate RequestsConsistent(requests: map<nat, FriendRequest>, friends: set<Pair>) {
    && (forall id :: id in requests ==> requests[id].from != requests[id].to)
    && (forall i, j ::
          (i in requests && j in requests && requests[i].status == Pending && requests[j].status == Pending &&
           SameCouple(requests[i], requests[j])) ==> i == j)
    && (forall id :: id in requests && requests[id].status == Pending ==> Canonical(requests[id].from, requests[id].to) !in friends)
  }

  /** Two requests concern the same couple exactly when the second is between the first's
      two parties, in one direction or the other. */
  lemma SameCoupleBetween(a: FriendRequest, b: FriendRequest)
    ensures SameCouple(a, b) <==> Between(b, a.from, a.to)
  {
  }

  /** Sending: a new pending request between two distinct users who are neither friends
      nor have a pending request in either direction keeps the invariants. */
  lemma SendKeepsConsistent(requests: map<nat, FriendRequest>, friends: set<Pair>, id: nat, fr: FriendRequest)
    requires RequestsConsistent(requests, friends)
    requires id !in requests && fr.status == Pending && fr.from != fr.to
    requires !AreFriends(friends, fr.from, fr.to) && !PendingBetween(requests, fr.from, fr.to)
    ensures RequestsConsistent(requests[id := fr], friends)
  {
    var requests' := requests[id := fr];
    forall j | j in requests && requests[j].status == Pending
      ensures !SameCouple(fr, requests[j])
    {
      SameCoupleBetween(fr, requests[j]);
    }
    assert forall i :: i in requests' && i != id ==> requests'[i] == requests[i];
  }

  /** Accepting the pending request `id`: marking it accepted and storing its couple's
      pair keeps the invariants, and that pair was not stored before. */
  lemma AcceptKeepsConsistent(requests: map<nat, FriendRequest>, friends: set<Pair>, id: nat)
    requires RequestsConsistent(requests, friends) && CanonicalPairs(friends)
    requires id in requests && requests[id].status == Pending
    ensures Canonical(requests[id].from, requests[id].to) !in friends
    ensures var fr := requests[id];
            && RequestsConsistent(requests[id := fr.(status := Accepted)], friends + {Canonical(fr.from, fr.to)})
            && CanonicalPairs(friends + {Canonical(fr.from, fr.to)})
  {
    var fr := requests[id];
    var requests' := requests[id := fr.(status := Accepted)];
    var p := Canonical(fr.from, fr.to);
    forall j | j in requests' && requests'[j].status == Pending
      ensures Canonical(requests'[j].from, requests'[j].to) != p
    {
      assert j != id && requests'[j] == requests[j];
    }
  }

  /** Declining the pending request `id` keeps the invariants. */
  lemma DeclineKeepsConsistent(requests: map<nat, FriendRequest>, friends: set<Pair>, id: nat)
    requires RequestsConsistent(requests, friends)
    requires id in requests
    ensures RequestsConsistent(requests[id := requests[id].(status := Declined)], friends)
  {
    var requests' := requests[id := requests[id].(status := Declined)];
    assert forall j :: j in requests' && requests'[j].status == Pending ==> j != id && requests'[j] == requests[j];
  }

  /** After a decline the couple has no pending request left, so (not being friends) it
      may send a fresh one; after an accept it is a pair of friends in both orders. */
  lemma ResolvedCouple(requests: map<nat, FriendRequest>, friends: set<Pair>, id: nat)
    requires RequestsConsistent(requests, friends) && CanonicalPairs(friends)
    requires id in requests && requests[id].status == Pending
    ensures var fr := requests[id];
            && !PendingBetween(requests[id := fr.(status := Declined)], fr.from, fr.to)
            && !AreFriends(friends, fr.from, fr.to)
            && !PendingBetween(requests[id := fr.(status := Accepted)], fr.from, fr.to)
            && AreFriends(friends + {Canonical(fr.from, fr.to)}, fr.from, fr.to)
            && AreFriends(friends + {Canonical(fr.from, fr.to)}, fr.to, fr.from)
  {
    var fr := requests[id];
    forall j | j in requests && j != id && requests[j].status == Pending
      ensures !Between(requests[j], fr.from, fr.to)
    {
      SameCoupleBetween(fr, requests[j]);
    }
  }

  /** For canonical pairs, "friends in either order" is "the canonical pair is stored". */
  lemma AreFriendsCanonical(friends: set<Pair>, x: nat, y: nat)
    requires CanonicalPairs(friends)
    ensures AreFriends(friends, x, y) <==> x != y && Canonical(x, y) in friends
  {
  }

  /** Adding the pair of a couple `a != b` that was not yet stored raises the friend
      count of `a` and of `b` by exactly one and leaves every other user's count alone. */
  lemma FriendCountAfterAdd(friends: set<Pair>, a: nat, b: nat, u: nat)
    requires a != b && Canonical(a, b) !in friends
    ensures FriendCount(friends + {Canonical(a, b)}, u)
            == FriendCount(friends, u) + (if u == a || u == b then 1 else 0)
  {
    var p := Canonical(a, b);
    if u == a || u == b {
      assert PairsOf(friends + {p}, u) == PairsOf(friends, u) + {p};
    } else {
      assert PairsOf(friends + {p}, u) == PairsOf(friends, u);
    }
  }

  /** The other parties of the pairs in `pairs`. */
  function OthersOf(pairs: set<Pair>, u: nat): set<nat> {
    set p | p in pairs :: Other(p, u)
  }

  /** Canonical pairs that all touch `u` name pairwise different other parties. */
  lemma {:induction false} OthersOfSize(pairs: set<Pair>, u: nat)
    requires forall p :: p in pairs ==> Touches(p, u) && p.0 < p.1
    decreases |pairs|
    ensures |OthersOf(pairs, u)| == |pairs|
  {
    if pairs == {} {
      assert OthersOf(pairs, u) == {};
    } else {
      var p :| p in pairs;
      var rest := pairs - {p};
      OthersOfSize(rest, u);
      assert OthersOf(pairs, u) == OthersOf(rest, u) + {Other(p, u)};
      forall q | q in rest ensures Other(q, u) != Other(p, u) {
        assert Canonical(u, Other(q, u)) == q && Canonical(u, Other(p, u)) == p;
      }
    }
  }

  /** With canonical pairs, `u`'s friends are as many as `u`'s pairs: no two pairs
      touching `u` name the same other party. */
  lemma FriendIdsCount(friends: set<Pair>, u: nat)
    requires CanonicalPairs(friends)
    ensures |FriendIds(friends, u)| == FriendCount(friends, u)
  {
    assert FriendIds(friends, u) == OthersOf(PairsOf(friends, u), u);
    OthersOfSize(PairsOf(friends, u), u);
  }

  /** An entry of `my_friend_requests`: the counterpart's name, or "unknown" when that
      user does not resolve. */
  datatype RequestItem = RequestItem(id: nat, incoming: bool, otherUsername: string, createdAt: int)

  /** The user a request is listed for: its recipient for incoming, its sender for outgoing. */
  function Party(fr: FriendRequest, incoming: bool): (p: nat)
    ensures p == fr.from || p == fr.to
    ensures fr.from != fr.to ==> (p == fr.to <==> incoming)
  {
    if incoming then fr.to else fr.from
  }

  function Counterpart(fr: FriendRequest, incoming: bool): (c: nat)
    ensures Canonical(Party(fr, incoming), c) == Canonical(fr.from, fr.to)
    ensures fr.from != fr.to ==> c != Party(fr, incoming)
  {
    if incoming then fr.from else fr.to
  }

  function NameOrUnknown(users: map<nat, User>, id: nat): (name: string)
    ensures id in users ==> name == users[id].username
    ensures (forall i :: i in users ==> users[i].username != "unknown") ==> (name == "unknown" <==> id !in users)
  {
    if id in users then users[id].username else "unknown"
  }

  /** `req_to_dict(fr, incoming)`. */
  function ToItem(users: map<nat, User>, id: nat, fr: FriendRequest, incoming: bool): (it: RequestItem)
    ensures it.id == id && it.incoming == incoming && it.createdAt == fr.createdAt
    ensures Counterpart(fr, incoming) in users ==> it.otherUsername == users[Counterpart(fr, incoming)].username
    ensures Counterpart(fr, incoming) !in users ==> it.otherUsername == "unknown"
  {
    RequestItem(id, incoming, NameOrUnknown(users, Counterpart(fr, incoming)), fr.createdAt)
  }

  /** The pending requests listed for `u` among the ids `lo..hi`, in id order. */
  function PendingFor(requests: map<nat, FriendRequest>, users: map<nat, User>, u: nat, incoming: bool, lo: nat, hi: nat): (r: seq<RequestItem>)
    decreases hi - lo
    ensures lo <= hi ==> |r| <= hi - lo
  {
    if lo >= hi then []
    else if lo in requests && requests[lo].status == Pending && Party(requests[lo], incoming) == u then
      [ToItem(users, lo, requests[lo], incoming)] + PendingFor(requests, users, u, incoming, lo + 1, hi)
    else PendingFor(requests, users, u, incoming, lo + 1, hi)
  }

  predicate IdsIncreasing(items: seq<RequestItem>) {
    forall i, j :: 0 <= i < j < |items| ==> items[i].id < items[j].id
  }

  /** `PendingFor` lists exactly the pending requests in range whose listed party is `u`,
      each rendered by `req_to_dict`, in increasing id order. */
  lemma {:induction false} PendingForExact(requests: map<nat, FriendRequest>, users: map<nat, User>, u: nat, incoming: bool, lo: nat, hi: nat)
    decreases hi - lo
    ensures forall it :: it in PendingFor(requests, users, u, incoming, lo, hi)
              <==> lo <= it.id < hi && it.id in requests && requests[it.id].status == Pending
                   && Party(requests[it.id], incoming) == u && it == ToItem(users, it.id, requests[it.id], incoming)
    ensures IdsIncreasing(PendingFor(requests, users, u, incoming, lo, hi))
  {
    if lo < hi {
      PendingForExact(requests, users, u, incoming, lo + 1, hi);
      var rest := PendingFor(requests, users, u, incoming, lo + 1, hi);
      if lo in requests && requests[lo].status == Pending && Party(requests[lo], incoming) == u {
        var r := [ToItem(users, lo, requests[lo], incoming)] + rest;
        forall i, j | 0 <= i < j < |r| ensures r[i].id < r[j].id {
          assert r[j] == rest[j - 1] && r[j] in rest;
          if i > 0 {
            assert r[i] == rest[i - 1];
          }
        }
      }
    }
  }
}
