/** The `beers` table: one row per consumption batch, with its quantity, and the
    queries over it (a user's entries newest first, and their total quantity). */
module Ledger {
  import opened Responses
  import opened Text

  /** `AddManualPayload.count` is constrained to `1..500`. */
  const ManualMin := 1
  const ManualMax := 500
  /** `upload_beer` reads at most this many bytes plus one (8 MiB). */
  const UploadSizeLimit := 8 * 1024 * 1024

  /** A row of `beers`. `imageSize` is the byte length of the stored, re-encoded image. */
  datatype Beer = Beer(owner: nat, name: Option<string>, isManual: bool, quantity: int,
                       imagePath: Option<string>, imageSize: Option<nat>, timestamp: int)

  /** A row together with its primary key, as `beer_to_dict` reports it. */
  datatype Item = Item(id: nat, beer: Beer)

  /** `(name or "").strip() or None`: the stripped name, or no name when nothing is left. */
  function DisplayName(name: Option<string>): (r: Option<string>)
    ensures r.None? <==> Strip(name.GetOr("")) == []
    ensures r.Some? ==> r.value == Strip(name.GetOr("")) && r.value != []
  {
    var s := Strip(name.GetOr(""));
    if s == [] then None else Some(s)
  }

  /** The entries of `owner` among the ids `lo..hi`, in id order. */
  function Owned(beers: map<nat, Beer>, owner: nat, lo: nat, hi: nat): (r: seq<Item>)
    decreases hi - lo
    ensures lo <= hi ==> |r| <= hi - lo
  {
    if lo >= hi then []
    else if lo in beers && beers[lo].owner == owner then [Item(lo, beers[lo])] + Owned(beers, owner, lo + 1, hi)
    else Owned(beers, owner, lo + 1, hi)
  }

  /** `Owned` lists exactly the stored entries of `owner` within the range. */
  lemma {:induction false} OwnedExact(beers: map<nat, Beer>, owner: nat, lo: nat, hi: nat)
    decreases hi - lo
    ensures forall it :: it in Owned(beers, owner, lo, hi)
              <==> lo <= it.id < hi && it.id in beers && it.beer == beers[it.id] && it.beer.owner == owner
  {
    if lo < hi {
      OwnedExact(beers, owner, lo + 1, hi);
    }
  }

  function Quantities(items: seq<Item>): int {
    if items == [] then 0 else items[0].beer.quantity + Quantities(items[1..])
  }

  /** `total_beers_sum`: the sum of the quantities of `owner`'s entries (0 when there are
      none), for a table whose ids all lie below `bound`. */
  function Total(beers: map<nat, Beer>, owner: nat, bound: nat): (t: int)
    ensures (forall id :: id in beers && id < bound ==> beers[id].owner != owner) ==> t == 0
  {
    OwnedExact(beers, owner, 0, bound);
    Quantities(Owned(beers, owner, 0, bound))
  }

  /** The ledger invariant: every entry stands for at least one unit. */
  ghost predicate PositiveQuantities(beers: map<nat, Beer>) {
    forall id :: id in beers ==> beers[id].quantity >= 1
  }

  predicate NewestFirst(items: seq<Item>) {
    forall i, j :: 0 <= i < j < |items| ==> items[i].beer.timestamp >= items[j].beer.timestamp
  }

  /** One step of the insertion sort: `x` goes before the first entry not newer than it. */
  function InsertByTime(x: Item, items: seq<Item>): (r: seq<Item>)
    ensures |r| == |items| + 1
    ensures r[0] == x || (items != [] && r[0] == items[0])
  {
    if items == [] || x.beer.timestamp >= items[0].beer.timestamp then [x] + items
    else [items[0]] + InsertByTime(x, items[1..])
  }

  /** Inserting into a newest-first list keeps it newest first. */
  lemma {:induction false} InsertSorted(x: Item, items: seq<Item>)
    requires NewestFirst(items)
    ensures NewestFirst(InsertByTime(x, items))
  {
    if items != [] && x.beer.timestamp < items[0].beer.timestamp {
      var rest := InsertByTime(x, items[1..]);
      InsertSorted(x, items[1..]);
      var r := [items[0]] + rest;
      forall i, j | 0 <= i < j < |r| ensures r[i].beer.timestamp >= r[j].beer.timestamp {
        if i == 0 {
          assert r[j] == rest[j - 1];
          assert rest[0].beer.timestamp <= items[0].beer.timestamp;
        } else {
          assert r[i] == rest[i - 1] && r[j] == rest[j - 1];
        }
      }
    }
  }

  /** Inserting adds exactly the one entry, and its quantity to the sum. */
  lemma {:induction false} InsertPermutes(x: Item, items: seq<Item>)
    ensures multiset(InsertByTime(x, items)) == multiset(items) + multiset{x}
    ensures Quantities(InsertByTime(x, items)) == x.beer.quantity + Quantities(items)
  {
    if items == [] || x.beer.timestamp >= items[0].beer.timestamp {
      assert ([x] + items)[1..] == items;
    } else {
      var rest := InsertByTime(x, items[1..]);
      InsertPermutes(x, items[1..]);
      assert items == [items[0]] + items[1..];
      assert ([items[0]] + rest)[1..] == rest;
    }
  }

  /** `order_by(Beer.timestamp.desc())`: the same entries, newest first (the order among
      rows with equal timestamps is not fixed by the query; this one is a valid choice). */
  function ByTimeDesc(items: seq<Item>): (r: seq<Item>)
    ensures NewestFirst(r)
    ensures multiset(r) == multiset(items)
    ensures Quantities(r) == Quantities(items)
  {
    if items == [] then []
    else
      assert items == [items[0]] + items[1..];
      var sorted := ByTimeDesc(items[1..]);
      InsertSorted(items[0], sorted);
      InsertPermutes(items[0], sorted);
      InsertByTime(items[0], sorted)
  }

  /** `list_my_beers` / `public_user_beers`: exactly the entries of `owner`, newest first,
      whose quantities add up to `total_beers_sum`. */
  function Listing(beers: map<nat, Beer>, owner: nat, bound: nat): (r: seq<Item>)
    requires forall id :: id in beers ==> id < bound
    ensures NewestFirst(r)
    ensures forall it :: it in r <==> it.id in beers && it.beer == beers[it.id] && it.beer.owner == owner
    ensures Quantities(r) == Total(beers, owner, bound)
    ensures multiset(r) == multiset(Owned(beers, owner, 0, bound)) && |r| == |Owned(beers, owner, 0, bound)|
  {
    var owned := Owned(beers, owner, 0, bound);
    OwnedExact(beers, owner, 0, bound);
    var r := ByTimeDesc(owned);
    SameMembers(r, owned);
    r
  }

  lemma SameMembers(a: seq<Item>, b: seq<Item>)
    requires multiset(a) == multiset(b)
    ensures forall x :: x in a <==> x in b
  {
    forall x ensures x in a <==> x in b {
      assert x in a <==> x in multiset(a);
      assert x in b <==> x in multiset(b);
    }
  }

  lemma {:induction false} QuantitiesAppend(a: seq<Item>, b: seq<Item>)
    ensures Quantities(a + b) == Quantities(a) + Quantities(b)
  {
    if a == [] {
      assert a + b == b;
    } else {
      assert (a + b)[1..] == a[1..] + b;
      QuantitiesAppend(a[1..], b);
    }
  }

  /** With every quantity at least one, the total is at least the number of entries, and
      it is 0 exactly when the user has no entries. */
  lemma {:induction false} TotalCountsEntries(beers: map<nat, Beer>, owner: nat, lo: nat, hi: nat)
    requires PositiveQuantities(beers)
    decreases hi - lo
    ensures Quantities(Owned(beers, owner, lo, hi)) >= |Owned(beers, owner, lo, hi)|
    ensures Quantities(Owned(beers, owner, lo, hi)) == 0 <==> Owned(beers, owner, lo, hi) == []
  {
    if lo < hi {
      TotalCountsEntries(beers, owner, lo + 1, hi);
      var rest := Owned(beers, owner, lo + 1, hi);
      if lo in beers && beers[lo].owner == owner {
        assert ([Item(lo, beers[lo])] + rest)[1..] == rest;
      }
    }
  }

  /** Tables that agree on every id in `lo..hi` list the same entries there. */
  lemma {:induction false} OwnedFrame(m: map<nat, Beer>, m': map<nat, Beer>, owner: nat, lo: nat, hi: nat)
    requires forall id :: lo <= id < hi ==> (id in m <==> id in m') && (id in m ==> m[id] == m'[id])
    decreases hi - lo
    ensures Owned(m', owner, lo, hi) == Owned(m, owner, lo, hi)
  {
    if lo < hi {
      OwnedFrame(m, m', owner, lo + 1, hi);
    }
  }

  /** Widening the range by one id appends that id's entry, if it is one of `owner`'s. */
  lemma {:induction false} OwnedExtend(m: map<nat, Beer>, owner: nat, lo: nat, hi: nat)
    requires lo <= hi
    decreases hi - lo
    ensures Owned(m, owner, lo, hi + 1)
            == Owned(m, owner, lo, hi) + (if hi in m && m[hi].owner == owner then [Item(hi, m[hi])] else [])
  {
    if lo < hi {
      OwnedExtend(m, owner, lo + 1, hi);
    }
  }

  /** What one id contributes to `owner`'s total. */
  function Contribution(m: map<nat, Beer>, k: nat, owner: nat): int {
    if k in m && m[k].owner == owner then m[k].quantity else 0
  }

  /** Changing the table at one id `k` in range changes `owner`'s total by exactly the
      difference of that id's contributions. */
  lemma {:induction false} QuantitiesPointChange(m: map<nat, Beer>, m': map<nat, Beer>, owner: nat, k: nat, lo: nat, hi: nat)
    requires forall id :: id != k ==> (id in m <==> id in m') && (id in m ==> m[id] == m'[id])
    requires lo <= k < hi
    decreases hi - lo
    ensures Quantities(Owned(m', owner, lo, hi))
            == Quantities(Owned(m, owner, lo, hi)) - Contribution(m, k, owner) + Contribution(m', k, owner)
  {
    var head := if lo in m && m[lo].owner == owner then [Item(lo, m[lo])] else [];
    var head' := if lo in m' && m'[lo].owner == owner then [Item(lo, m'[lo])] else [];
    assert Owned(m, owner, lo, hi) == head + Owned(m, owner, lo + 1, hi);
    assert Owned(m', owner, lo, hi) == head' + Owned(m', owner, lo + 1, hi);
    QuantitiesAppend(head, Owned(m, owner, lo + 1, hi));
    QuantitiesAppend(head', Owned(m', owner, lo + 1, hi));
    if lo == k {
      OwnedFrame(m, m', owner, lo + 1, hi);
    } else {
      QuantitiesPointChange(m, m', owner, k, lo + 1, hi);
    }
  }

  /** Inserting a new row under the next free id appends it to its owner's entries and
      raises exactly its owner's total, by its quantity. */
  lemma InsertEffect(m: map<nat, Beer>, bound: nat, b: Beer, owner: nat)
    requires forall id :: id in m ==> id < bound
    ensures Owned(m[bound := b], owner, 0, bound + 1)
            == Owned(m, owner, 0, bound) + (if b.owner == owner then [Item(bound, b)] else [])
    ensures Total(m[bound := b], owner, bound + 1)
            == Total(m, owner, bound) + (if b.owner == owner then b.quantity else 0)
  {
    var m' := m[bound := b];
    OwnedExtend(m', owner, 0, bound);
    OwnedFrame(m, m', owner, 0, bound);
    QuantitiesAppend(Owned(m, owner, 0, bound), if b.owner == owner then [Item(bound, b)] else []);
  }

  /** Lowering one entry's quantity by one lowers its owner's total by exactly one and
      leaves every other user's total as it was. */
  lemma DecrementEffect(m: map<nat, Beer>, bound: nat, k: nat, owner: nat)
    requires forall id :: id in m ==> id < bound
    requires k in m
    ensures Total(m[k := m[k].(quantity := m[k].quantity - 1)], owner, bound)
            == Total(m, owner, bound) - (if m[k].owner == owner then 1 else 0)
  {
    QuantitiesPointChange(m, m[k := m[k].(quantity := m[k].quantity - 1)], owner, k, 0, bound);
  }

  /** Removing one entry lowers its owner's total by that entry's whole quantity and
      leaves every other user's total as it was. */
  lemma RemoveEffect(m: map<nat, Beer>, bound: nat, k: nat, owner: nat)
    requires forall id :: id in m ==> id < bound
    requires k in m
    ensures Total(m - {k}, owner, bound)
            == Total(m, owner, bound) - (if m[k].owner == owner then m[k].quantity else 0)
  {
    QuantitiesPointChange(m, m - {k}, owner, k, 0, bound);
  }
}
