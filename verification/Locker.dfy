/**
 * The demo locker: yarn, inventory and equipped items. packages/gacha/src/apply.ts,
 * apps/web/src/lib/gacha-demo.ts and apps/web/src/lib/demo-gacha-session.ts.
 */
module Locker {
  import opened Clock
  import opened Money
  import opened Text
  import opened Sums
  import opened Odds
  import P = Pull

  datatype Row = Row(itemId: string, count: int)

  datatype Place = FramePlace | TitlePlace | LobbyFlairPlace

  datatype State = State(
    yarn: int, nonce: nat, pullsSince: int, inventory: seq<Row>, equipped: map<Place, string>,
    lastBagworkDay: Option<int>, lastBagworkTweet: Option<string>, holdStartedAt: Option<int>, bagworkCount: nat)

  datatype Policy = Policy(yarnStart: nat, yarnFaucetDaily: nat, yarnCap: int, pityRareHard: int)

  datatype Refusal =
    | YarnEmpty | SeedTooLong | PullFailed(cause: Odds.Error) | UnknownItem
    | NotOwned | DoesNotFit | TweetUsed | BagworkDone

  datatype Reply = Done(state: State) | Refused(error: Refusal)

  function Empty(policy: Policy): State {
    State(policy.yarnStart, 0, 0, [], map[], None, None, None, 0)
  }

  // ---------------------------------------------------------------- rows and counts

  function Counts(inventory: seq<Row>): map<string, int> {
    if |inventory| == 0 then map[] else
      var last := inventory[|inventory| - 1];
      Counts(inventory[..|inventory| - 1])[last.itemId := last.count]
  }

  /** Lines 155-161 of demo-gacha-session.ts. */
  method CountsFromInventory(inventory: seq<Row>) returns (counts: map<string, int>)
    ensures counts == Counts(inventory)
  {
    counts := map[];
    for i := 0 to |inventory|
      invariant counts == Counts(inventory[..i])
    {
      assert inventory[..i + 1][..i] == inventory[..i];
      counts := counts[inventory[i].itemId := inventory[i].count];
    }
    assert inventory[..|inventory|] == inventory;
  }

  /** The entries of a set in some order; sorting makes the order irrelevant. */
  ghost function Listed(s: set<string>): (r: seq<string>)
    ensures multiset(r) == multiset(s)
    decreases |s|
  {
    if s == {} then [] else
      var x :| x in s;
      [x] + Listed(s - {x})
  }

  ghost function Held(counts: map<string, int>): set<string> {
    set id | id in counts && counts[id] > 0
  }

  function RowsFor(ids: seq<string>, counts: map<string, int>): (rows: seq<Row>)
    requires forall i :: 0 <= i < |ids| ==> ids[i] in counts
    ensures |rows| == |ids|
    ensures forall i :: 0 <= i < |ids| ==> rows[i] == Row(ids[i], counts[ids[i]])
  {
    seq(|ids|, i requires 0 <= i < |ids| => Row(ids[i], counts[ids[i]]))
  }

  ghost function SortedIds(counts: map<string, int>): (ids: seq<string>)
    ensures multiset(ids) == multiset(Held(counts)) && Sorted(ids)
    ensures forall i :: 0 <= i < |ids| ==> ids[i] in Held(counts)
  {
    SortSorts(Listed(Held(counts)));
    var ids := Sort(Listed(Held(counts)));
    assert forall i :: 0 <= i < |ids| ==> ids[i] in multiset(ids);
    ids
  }

  /** Lines 163-170 of demo-gacha-session.ts. */
  ghost function InventoryFromCounts(counts: map<string, int>): seq<Row> {
    RowsFor(SortedIds(counts), counts)
  }

  // ---------------------------------------------------------------- the economy of one item

  function DustGrant(item: Item): nat {
    if item.kind == YarnDust && item.yarnGrant.Some? then item.yarnGrant.value else 0
  }

  function CountOf(counts: map<string, int>, id: string): int {
    if id in counts then counts[id] else 0
  }

  /** Lines 7-24 of apply.ts. */
  method ApplyEconomy(yarn: int, counts: map<string, int>, item: Item)
    returns (yarn': int, counts': map<string, int>, converted: bool)
    ensures converted <==> CountOf(counts, item.id) >= item.stackCap
    ensures counts' == if converted then counts else counts[item.id := CountOf(counts, item.id) + 1]
    ensures yarn' == yarn + DustGrant(item) + if converted then 1 else 0
  {
    counts' := counts;
    yarn' := yarn;
    if item.kind == YarnDust {
      yarn' := yarn' + if item.yarnGrant.Some? then item.yarnGrant.value else 0;
    }
    var count := if item.id in counts' then counts'[item.id] else 0;
    if count >= item.stackCap {
      yarn' := yarn' + 1;
      return yarn', counts', true;
    }
    counts' := counts'[item.id := count + 1];
    return yarn', counts', false;
  }

  // ---------------------------------------------------------------- what the locker does

  function ItemById(items: seq<Item>, id: string): Option<Item> {
    if |items| == 0 then None
    else if items[0].id == id then Some(items[0])
    else ItemById(items[1..], id)
  }

  /** The state after `item` was drawn with the counter at `pullsSince`. */
  ghost function Receive(s: State, item: Item, pullsSince: int): State {
    var counts := Counts(s.inventory);
    var converted := CountOf(counts, item.id) >= item.stackCap;
    s.(yarn := s.yarn + DustGrant(item) + (if converted then 1 else 0),
       pullsSince := pullsSince,
       inventory := InventoryFromCounts(if converted then counts else counts[item.id := CountOf(counts, item.id) + 1]))
  }

  function InputFor(s: State, cat: Catalog, policy: Policy, serverSeed: string, clientSeed: Option<string>): P.PullInput {
    P.PullInput(cat, s.pullsSince, policy.pityRareHard, serverSeed, clientSeed, s.nonce)
  }

  /** Lines 197-266 of gacha-demo.ts; the fresh server seed is an input. */
  ghost function PullDemo(crypto: P.Crypto, s: State, cat: Catalog, policy: Policy, serverSeed: string,
                          clientSeed: Option<string>): Reply {
    if s.yarn < 1 then Refused(YarnEmpty)
    else if clientSeed.Some? && |clientSeed.value| > 64 then Refused(SeedTooLong)
    else
      var spent := s.(yarn := s.yarn - 1, nonce := s.nonce + 1);
      match P.RollPull(crypto, InputFor(spent, cat, policy, serverSeed, clientSeed))
      case Err(e) => Refused(PullFailed(e))
      case Ok(rolled) =>
        match ItemById(cat.items, rolled.itemId)
        case None => Refused(UnknownItem)
        case Some(item) => Done(Receive(spent, item, rolled.pullsSinceAfter))
  }

  predicate Owns(inventory: seq<Row>, id: string) {
    exists row :: row in inventory && row.itemId == id && row.count > 0
  }

  function SlotOf(place: Place): Slot {
    match place
    case FramePlace => Frame
    case TitlePlace => Title
    case LobbyFlairPlace => LobbyFlair
  }

  predicate Fits(cat: Catalog, id: string, place: Place) {
    ItemById(cat.items, id).Some? && ItemById(cat.items, id).value.slot == Some(SlotOf(place))
  }

  /** Lines 268-293 of gacha-demo.ts. */
  function Equip(s: State, cat: Catalog, place: Place, itemId: Option<string>): Reply {
    if itemId.None? then Done(s.(equipped := s.equipped - {place}))
    else if !Owns(s.inventory, itemId.value) then Refused(NotOwned)
    else if !Fits(cat, itemId.value, place) then Refused(DoesNotFit)
    else Done(s.(equipped := s.equipped[place := itemId.value]))
  }

  function YarnBonus(s: State, amount: int, cap: int): State {
    if amount <= 0 || s.yarn >= cap then s else s.(yarn := s.yarn + amount)
  }

  function Bagwork(s: State, policy: Policy, tweet: string, now: int): Reply {
    if s.lastBagworkTweet == Some(tweet) then Refused(TweetUsed)
    else if s.lastBagworkDay == Some(Day(now)) then Refused(BagworkDone)
    else
      var stamped := s.(
        lastBagworkDay := Some(Day(now)), lastBagworkTweet := Some(tweet),
        holdStartedAt := if s.holdStartedAt.Some? then s.holdStartedAt else Some(now),
        bagworkCount := s.bagworkCount + 1);
      Done(if s.yarn >= policy.yarnCap then stamped else stamped.(yarn := s.yarn + policy.yarnFaucetDaily))
  }

  // ---------------------------------------------------------------- the two forms of an inventory

  /** Strictly sorted by id, every count positive: what inventoryFromCounts produces. */
  ghost predicate Canonical(inventory: seq<Row>) {
    && (forall i, j :: 0 <= i < j < |inventory| ==> Less(inventory[i].itemId, inventory[j].itemId))
    && forall i :: 0 <= i < |inventory| ==> inventory[i].count > 0
  }

  lemma TwiceIsTwo(ids: seq<string>, i: nat, j: nat)
    requires i < j < |ids| && ids[i] == ids[j]
    ensures multiset(ids)[ids[i]] >= 2
  {
    assert ids == ids[..i] + [ids[i]] + ids[i + 1..];
    assert ids[i + 1..][j - i - 1] == ids[j];
    assert ids[j] in multiset(ids[i + 1..]);
  }

  /** In a multiset made from a set nothing occurs twice. */
  lemma SortedIdsAreStrict(counts: map<string, int>)
    ensures forall i, j :: 0 <= i < j < |SortedIds(counts)| ==> Less(SortedIds(counts)[i], SortedIds(counts)[j])
  {
    var ids := SortedIds(counts);
    forall i, j | 0 <= i < j < |ids|
      ensures Less(ids[i], ids[j])
    {
      assert AtMost(ids[i], ids[j]);
      assert multiset(Held(counts))[ids[i]] <= 1;
      if ids[i] == ids[j] {
        TwiceIsTwo(ids, i, j);
        assert false;
      }
    }
  }

  lemma FromCountsIsCanonical(counts: map<string, int>)
    ensures Canonical(InventoryFromCounts(counts))
    ensures forall id :: id in Held(counts) <==> exists i :: 0 <= i < |InventoryFromCounts(counts)|
                                                       && InventoryFromCounts(counts)[i] == Row(id, CountOf(counts, id))
                                                       && CountOf(counts, id) > 0
  {
    SortedIdsAreStrict(counts);
    var ids, rows := SortedIds(counts), InventoryFromCounts(counts);
    forall id | id in Held(counts)
      ensures exists i :: 0 <= i < |rows| && rows[i] == Row(id, CountOf(counts, id)) && CountOf(counts, id) > 0
    {
      assert id in multiset(ids);
      var i :| 0 <= i < |ids| && ids[i] == id;
      assert rows[i] == Row(id, counts[id]);
    }
  }

  lemma {:induction false} CountsOfRows(inventory: seq<Row>, id: string)
    requires forall i, j :: 0 <= i < j < |inventory| ==> inventory[i].itemId != inventory[j].itemId
    ensures id in Counts(inventory) <==> exists i :: 0 <= i < |inventory| && inventory[i].itemId == id
    ensures forall i :: 0 <= i < |inventory| && inventory[i].itemId == id ==> Counts(inventory)[id] == inventory[i].count
  {
    if |inventory| > 0 {
      var n := |inventory| - 1;
      CountsOfRows(inventory[..n], id);
      assert forall i :: 0 <= i < n ==> inventory[..n][i] == inventory[i];
      if inventory[n].itemId != id && id in Counts(inventory) {
        assert id in Counts(inventory[..n]);
        var i :| 0 <= i < n && inventory[..n][i].itemId == id;
        assert inventory[i].itemId == id;
      }
    }
  }

  lemma CanonicalDistinct(inventory: seq<Row>)
    requires Canonical(inventory)
    ensures forall i, j :: 0 <= i < j < |inventory| ==> inventory[i].itemId != inventory[j].itemId
  {
    forall i, j | 0 <= i < j < |inventory|
      ensures inventory[i].itemId != inventory[j].itemId
    {
      LessIrreflexive(inventory[i].itemId);
    }
  }

  /** Counts to rows and back keeps exactly the positive counts. */
  lemma CountsRoundTrip(counts: map<string, int>)
    ensures Counts(InventoryFromCounts(counts)) == map id | id in counts && counts[id] > 0 :: counts[id]
  {
    hide Counts, Less;
    var rows := InventoryFromCounts(counts);
    FromCountsIsCanonical(counts);
    CanonicalDistinct(rows);
    forall id
      ensures id in Counts(rows) <==> id in Held(counts)
      ensures id in Held(counts) ==> Counts(rows)[id] == counts[id]
    {
      CountsOfRows(rows, id);
    }
  }

  function IdsOf(rows: seq<Row>): (ids: seq<string>)
    ensures |ids| == |rows|
    ensures forall i :: 0 <= i < |rows| ==> ids[i] == rows[i].itemId
  {
    seq(|rows|, i requires 0 <= i < |rows| => rows[i].itemId)
  }

  lemma {:induction false} DistinctCount(ids: seq<string>, id: string)
    requires forall i, j :: 0 <= i < j < |ids| ==> ids[i] != ids[j]
    ensures multiset(ids)[id] == if id in ids then 1 else 0
  {
    if |ids| > 0 {
      DistinctCount(ids[1..], id);
      assert ids == [ids[0]] + ids[1..];
      assert forall i :: 0 < i < |ids| ==> ids[1..][i - 1] == ids[i];
      assert ids[0] !in ids[1..];
    }
  }

  lemma DistinctIsSet(ids: seq<string>, s: set<string>)
    requires forall i, j :: 0 <= i < j < |ids| ==> ids[i] != ids[j]
    requires forall id :: id in s <==> id in ids
    ensures multiset(ids) == multiset(s)
  {
    forall id
      ensures multiset(ids)[id] == multiset(s)[id]
    {
      DistinctCount(ids, id);
    }
  }

  /** Rows to counts and back is the identity on every inventory the locker can hold. */
  lemma InventoryRoundTrip(inventory: seq<Row>)
    requires Canonical(inventory)
    ensures InventoryFromCounts(Counts(inventory)) == inventory
  {
    hide Counts, Less;
    var counts := Counts(inventory);
    CanonicalDistinct(inventory);
    forall id
      ensures id in Held(counts) <==> exists i :: 0 <= i < |inventory| && inventory[i].itemId == id
    {
      CountsOfRows(inventory, id);
    }
    var ids := IdsOf(inventory);
    DistinctIsSet(ids, Held(counts));
    SortedUnique(SortedIds(counts), ids);
    forall i | 0 <= i < |inventory|
      ensures InventoryFromCounts(counts)[i] == inventory[i]
    {
      CountsOfRows(inventory, ids[i]);
    }
  }
}
