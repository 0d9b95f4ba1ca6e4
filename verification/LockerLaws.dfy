/**
 * What every run of pulls, equips and grants keeps: yarn plus items is conserved up to the grants,
 * rows stay within their caps, equipped items are owned and fit, and pity stays within its bound.
 */
module LockerLaws {
  import opened Clock
  import opened Money
  import opened Text
  import opened Sums
  import opened Odds
  import opened Locker
  import P = Pull

  function RowCount(): Row -> int { (row: Row) => row.count }

  function ItemsHeld(inventory: seq<Row>): int {
    SeqSum(inventory, RowCount())
  }

  /** One yarn is worth one item. */
  function Wealth(s: State): int {
    s.yarn + ItemsHeld(s.inventory)
  }

  // ---------------------------------------------------------------- totals of the two forms

  lemma {:induction false} ZeroSum(counts: map<string, int>)
    requires forall id :: id in counts ==> counts[id] == 0
    ensures Sum(counts, Identity()) == 0
    decreases |counts|
  {
    if counts != map[] {
      var id :| id in counts;
      SumRemove(counts, Identity(), id);
      ZeroSum(counts - {id});
    }
  }

  lemma {:induction false} RowsTotal(ids: seq<string>, counts: map<string, int>)
    requires forall id :: id in counts ==> counts[id] >= 0
    requires forall i, j :: 0 <= i < j < |ids| ==> ids[i] != ids[j]
    requires forall i :: 0 <= i < |ids| ==> ids[i] in counts
    requires forall id :: id in counts && counts[id] > 0 ==> id in ids
    ensures SeqSum(RowsFor(ids, counts), RowCount()) == Sum(counts, Identity())
  {
    if |ids| == 0 {
      ZeroSum(counts);
    } else {
      var rest := counts - {ids[0]};
      SumRemove(counts, Identity(), ids[0]);
      RowsTotal(ids[1..], rest);
      assert RowsFor(ids, counts)[1..] == RowsFor(ids[1..], rest);
    }
  }

  /** The list and the map forms hold the same number of items. */
  lemma TotalsAgree(counts: map<string, int>)
    requires forall id :: id in counts ==> counts[id] >= 0
    ensures ItemsHeld(InventoryFromCounts(counts)) == Sum(counts, Identity())
  {
    var ids := SortedIds(counts);
    SortedIdsAreStrict(counts);
    forall i, j | 0 <= i < j < |ids|
      ensures ids[i] != ids[j]
    {
      LessIrreflexive(ids[i]);
    }
    forall id | id in counts && counts[id] > 0
      ensures id in ids
    {
      assert id in multiset(ids);
    }
    RowsTotal(ids, counts);
  }

  lemma CanonicalCounts(inventory: seq<Row>)
    requires Canonical(inventory)
    ensures forall id :: id in Counts(inventory) ==> Counts(inventory)[id] > 0
    ensures ItemsHeld(inventory) == Sum(Counts(inventory), Identity())
  {
    var counts := Counts(inventory);
    CanonicalDistinct(inventory);
    forall id | id in counts
      ensures counts[id] > 0
    {
      CountsOfRows(inventory, id);
    }
    InventoryRoundTrip(inventory);
    TotalsAgree(counts);
  }

  // ---------------------------------------------------------------- one item

  ghost function CountsAfter(counts: map<string, int>, item: Item): map<string, int> {
    if CountOf(counts, item.id) >= item.stackCap then counts
    else counts[item.id := CountOf(counts, item.id) + 1]
  }

  lemma PositiveCountsReturn(counts: map<string, int>)
    requires forall id :: id in counts ==> counts[id] > 0
    ensures Counts(InventoryFromCounts(counts)) == counts
    ensures ItemsHeld(InventoryFromCounts(counts)) == Sum(counts, Identity())
  {
    hide Counts, InventoryFromCounts, ItemsHeld, Sum;
    CountsRoundTrip(counts);
    TotalsAgree(counts);
    assert counts == map id | id in counts && counts[id] > 0 :: counts[id];
  }

  /** A new item is held or, at its cap, converted to one yarn: the dust grant is all that is gained. */
  lemma ReceiveConserves(s: State, item: Item, pullsSince: int)
    requires Canonical(s.inventory)
    ensures Wealth(Receive(s, item, pullsSince)) == Wealth(s) + DustGrant(item) + 1
    ensures Canonical(Receive(s, item, pullsSince).inventory)
    ensures Counts(Receive(s, item, pullsSince).inventory) == CountsAfter(Counts(s.inventory), item)
  {
    var counts := Counts(s.inventory);
    var counts' := CountsAfter(counts, item);
    CanonicalCounts(s.inventory);
    FromCountsIsCanonical(counts');
    hide Counts, InventoryFromCounts, ItemsHeld, Sum, Canonical;
    PositiveCountsReturn(counts');
    if CountOf(counts, item.id) < item.stackCap {
      SumUpdate(counts, Identity(), item.id, CountOf(counts, item.id) + 1);
    }
  }

  // ---------------------------------------------------------------- the invariant

  predicate WithinCap(cat: Catalog, row: Row) {
    && ItemById(cat.items, row.itemId).Some?
    && 1 <= row.count <= ItemById(cat.items, row.itemId).value.stackCap
  }

  ghost predicate RowsWithinCap(cat: Catalog, inventory: seq<Row>) {
    forall row :: row in inventory ==> WithinCap(cat, row)
  }

  ghost predicate EquippedFits(cat: Catalog, s: State) {
    forall place :: place in s.equipped ==> Owns(s.inventory, s.equipped[place]) && Fits(cat, s.equipped[place], place)
  }

  ghost predicate LockerOk(cat: Catalog, s: State) {
    && s.yarn >= 0
    && Canonical(s.inventory)
    && RowsWithinCap(cat, s.inventory)
    && EquippedFits(cat, s)
  }

  lemma {:induction false} ItemByIdIs(items: seq<Item>, id: string)
    ensures ItemById(items, id).Some? ==> ItemById(items, id).value in items && ItemById(items, id).value.id == id
  {
    if |items| > 0 && items[0].id != id {
      ItemByIdIs(items[1..], id);
    }
  }

  lemma RowFromCounts(inventory: seq<Row>, row: Row)
    requires Canonical(inventory)
    ensures row in inventory <==> row.itemId in Counts(inventory) && Counts(inventory)[row.itemId] == row.count
  {
    CanonicalDistinct(inventory);
    CountsOfRows(inventory, row.itemId);
    if row.itemId in Counts(inventory) && Counts(inventory)[row.itemId] == row.count {
      var i :| 0 <= i < |inventory| && inventory[i].itemId == row.itemId;
      assert inventory[i] == row;
    }
  }

  lemma ReceiveFrame(s: State, item: Item, pullsSince: int)
    ensures Receive(s, item, pullsSince).equipped == s.equipped
    ensures Receive(s, item, pullsSince).yarn >= s.yarn
  {
  }

  lemma ReceiveKeeps(cat: Catalog, s: State, item: Item, pullsSince: int)
    requires LockerOk(cat, s) && ItemById(cat.items, item.id) == Some(item)
    ensures LockerOk(cat, Receive(s, item, pullsSince))
  {
    var s' := Receive(s, item, pullsSince);
    var counts, counts' := Counts(s.inventory), Counts(s'.inventory);
    ReceiveConserves(s, item, pullsSince);
    CanonicalCounts(s.inventory);
    hide Canonical, Counts, Receive, Sum;
    forall row | row in s'.inventory
      ensures WithinCap(cat, row)
    {
      RowFromCounts(s'.inventory, row);
      if row.itemId != item.id || counts' == counts {
        RowFromCounts(s.inventory, row);
      }
    }
    forall place | place in s'.equipped
      ensures Owns(s'.inventory, s'.equipped[place]) && Fits(cat, s'.equipped[place], place)
    {
      ReceiveFrame(s, item, pullsSince);
      var id := s.equipped[place];
      var row :| row in s.inventory && row.itemId == id && row.count > 0;
      RowFromCounts(s.inventory, row);
      RowFromCounts(s'.inventory, Row(id, counts'[id]));
      assert Row(id, counts'[id]) in s'.inventory;
    }
    ReceiveFrame(s, item, pullsSince);
  }

  // ---------------------------------------------------------------- every run

  datatype Event =
    | PullRequested(serverSeed: string, clientSeed: Option<string>)
    | EquipRequested(place: Place, itemId: Option<string>)
    | BonusEarned(amount: int)
    | BagworkPosted(tweet: string, now: int)

  ghost function Attempt(crypto: P.Crypto, cat: Catalog, policy: Policy, s: State, e: Event): Reply {
    match e
    case PullRequested(serverSeed, clientSeed) => PullDemo(crypto, s, cat, policy, serverSeed, clientSeed)
    case EquipRequested(place, itemId) => Equip(s, cat, place, itemId)
    case BonusEarned(amount) => Done(YarnBonus(s, amount, policy.yarnCap))
    case BagworkPosted(tweet, now) => Bagwork(s, policy, tweet, now)
  }

  /** A refused request leaves the locker as it was. */
  ghost function Step(crypto: P.Crypto, cat: Catalog, policy: Policy, s: State, e: Event): State {
    var r := Attempt(crypto, cat, policy, s, e);
    if r.Done? then r.state else s
  }

  ghost function Run(crypto: P.Crypto, cat: Catalog, policy: Policy, s: State, es: seq<Event>): State
    decreases |es|
  {
    if |es| == 0 then s else Run(crypto, cat, policy, Step(crypto, cat, policy, s, es[0]), es[1..])
  }

  /** The item a pull would draw in this state. */
  function Drawn(crypto: P.Crypto, cat: Catalog, policy: Policy, s: State, serverSeed: string,
                 clientSeed: Option<string>): Option<Item> {
    var rolled := P.RollPull(crypto, InputFor(s.(nonce := s.nonce + 1), cat, policy, serverSeed, clientSeed));
    if rolled.Ok? then ItemById(cat.items, rolled.value.itemId) else None
  }

  /** Yarn that comes from outside the locker: dust, bonuses and the bagwork grant. */
  ghost function Granted(crypto: P.Crypto, cat: Catalog, policy: Policy, s: State, e: Event): int {
    if Attempt(crypto, cat, policy, s, e).Refused? then 0 else
      match e
      case PullRequested(serverSeed, clientSeed) =>
        var item := Drawn(crypto, cat, policy, s, serverSeed, clientSeed);
        if item.Some? then DustGrant(item.value) else 0
      case EquipRequested(_, _) => 0
      case BonusEarned(amount) => if amount <= 0 || s.yarn >= policy.yarnCap then 0 else amount
      case BagworkPosted(_, _) => if s.yarn >= policy.yarnCap then 0 else policy.yarnFaucetDaily
  }

  ghost function RunGrants(crypto: P.Crypto, cat: Catalog, policy: Policy, s: State, es: seq<Event>): int
    decreases |es|
  {
    if |es| == 0 then 0 else
      Granted(crypto, cat, policy, s, es[0])
      + RunGrants(crypto, cat, policy, Step(crypto, cat, policy, s, es[0]), es[1..])
  }

  lemma PullIs(crypto: P.Crypto, cat: Catalog, policy: Policy, s: State, serverSeed: string,
                                  clientSeed: Option<string>)
    requires PullDemo(crypto, s, cat, policy, serverSeed, clientSeed).Done?
    ensures s.yarn >= 1
    ensures var item := Drawn(crypto, cat, policy, s, serverSeed, clientSeed);
            var rolled := P.RollPull(crypto, InputFor(s.(nonce := s.nonce + 1), cat, policy, serverSeed, clientSeed));
            && item.Some? && rolled.Ok?
            && ItemById(cat.items, item.value.id) == item
            && PullDemo(crypto, s, cat, policy, serverSeed, clientSeed).state
               == Receive(s.(yarn := s.yarn - 1, nonce := s.nonce + 1), item.value, rolled.value.pullsSinceAfter)
  {
    hide P.RollPull, Receive;
    var spent := s.(yarn := s.yarn - 1, nonce := s.nonce + 1);
    assert InputFor(spent, cat, policy, serverSeed, clientSeed)
        == InputFor(s.(nonce := s.nonce + 1), cat, policy, serverSeed, clientSeed);
    var rolled := P.RollPull(crypto, InputFor(spent, cat, policy, serverSeed, clientSeed));
    if rolled.Ok? {
      ItemByIdIs(cat.items, rolled.value.itemId);
    }
  }

  /** Each pull changes yarn plus items held by exactly the dust grant of what was drawn. */
  lemma PullConserves(crypto: P.Crypto, cat: Catalog, policy: Policy, s: State, serverSeed: string,
                                         clientSeed: Option<string>)
    requires LockerOk(cat, s) && PullDemo(crypto, s, cat, policy, serverSeed, clientSeed).Done?
    ensures var s' := PullDemo(crypto, s, cat, policy, serverSeed, clientSeed).state;
            var item := Drawn(crypto, cat, policy, s, serverSeed, clientSeed);
            && item.Some? && Wealth(s') == Wealth(s) + DustGrant(item.value)
            && LockerOk(cat, s')
  {
    hide PullDemo, Drawn, Receive, P.RollPull;
    PullIs(crypto, cat, policy, s, serverSeed, clientSeed);
    var spent := s.(yarn := s.yarn - 1, nonce := s.nonce + 1);
    var item := Drawn(crypto, cat, policy, s, serverSeed, clientSeed).value;
    var after :=
      P.RollPull(crypto, InputFor(s.(nonce := s.nonce + 1), cat, policy, serverSeed, clientSeed)).value.pullsSinceAfter;
    assert EquippedFits(cat, spent);
    ReceiveConserves(spent, item, after);
    ReceiveKeeps(cat, spent, item, after);
  }

  lemma EquipKeeps(cat: Catalog, s: State, place: Place, itemId: Option<string>)
    requires LockerOk(cat, s) && Equip(s, cat, place, itemId).Done?
    ensures LockerOk(cat, Equip(s, cat, place, itemId).state)
    ensures Wealth(Equip(s, cat, place, itemId).state) == Wealth(s)
  {
    hide Owns, Fits, RowsWithinCap, Canonical;
  }

  lemma StepKeeps(crypto: P.Crypto, cat: Catalog, policy: Policy, s: State, e: Event)
    requires LockerOk(cat, s)
    ensures LockerOk(cat, Step(crypto, cat, policy, s, e))
    ensures Wealth(Step(crypto, cat, policy, s, e)) == Wealth(s) + Granted(crypto, cat, policy, s, e)
  {
    hide PullDemo, Equip, RowsWithinCap, Canonical, Owns, Fits, Drawn;
    match e
    case PullRequested(serverSeed, clientSeed) =>
      if PullDemo(crypto, s, cat, policy, serverSeed, clientSeed).Done? {
        PullConserves(crypto, cat, policy, s, serverSeed, clientSeed);
      }
    case EquipRequested(place, itemId) =>
      if Equip(s, cat, place, itemId).Done? {
        EquipKeeps(cat, s, place, itemId);
      }
    case BonusEarned(_) =>
    case BagworkPosted(_, _) =>
  }

  /**
   * In every run of the locker: yarn is never negative, every row holds between 1 and its cap of a
   * distinct item in sorted order, equipped items are owned and fit their place, and yarn plus items
   * is what there was at the start plus what was granted.
   */
  lemma {:induction false} LockerRuns(crypto: P.Crypto, cat: Catalog, policy: Policy, s: State, es: seq<Event>)
    requires LockerOk(cat, s)
    ensures LockerOk(cat, Run(crypto, cat, policy, s, es))
    ensures Wealth(Run(crypto, cat, policy, s, es)) == Wealth(s) + RunGrants(crypto, cat, policy, s, es)
    decreases |es|
  {
    hide LockerOk, Step, Wealth, Granted;
    if |es| > 0 {
      StepKeeps(crypto, cat, policy, s, es[0]);
      LockerRuns(crypto, cat, policy, Step(crypto, cat, policy, s, es[0]), es[1..]);
    }
  }

  /** So it is of every locker that began empty: its yarn and items are the starting yarn and the grants. */
  lemma EveryLockerIsOk(crypto: P.Crypto, cat: Catalog, policy: Policy, es: seq<Event>)
    ensures var s := Run(crypto, cat, policy, Empty(policy), es);
            && LockerOk(cat, s)
            && Wealth(s) == policy.yarnStart + RunGrants(crypto, cat, policy, Empty(policy), es)
  {
    assert LockerOk(cat, Empty(policy)) && Wealth(Empty(policy)) == policy.yarnStart;
    hide LockerOk, Wealth, Run, RunGrants;
    LockerRuns(crypto, cat, policy, Empty(policy), es);
  }

  lemma ReceiveCounter(s: State, item: Item, pullsSince: int)
    ensures Receive(s, item, pullsSince).pullsSince == pullsSince
  {
  }

  /** While a Rare is stocked the counter shown as "until Rare" stays between 0 and the threshold. */
  lemma {:induction false} PityStaysInRange(crypto: P.Crypto, cat: Catalog, policy: Policy, s: State, es: seq<Event>)
    requires Stocked(cat, Rare) && policy.pityRareHard >= 1 && 0 <= s.pullsSince <= policy.pityRareHard
    ensures 0 <= Run(crypto, cat, policy, s, es).pullsSince <= policy.pityRareHard
    decreases |es|
  {
    hide PullDemo, Receive, P.RollPull, Stocked;
    if |es| > 0 {
      match es[0] {
        case PullRequested(serverSeed, clientSeed) =>
          if PullDemo(crypto, s, cat, policy, serverSeed, clientSeed).Done? {
            PullIs(crypto, cat, policy, s, serverSeed, clientSeed);
            P.OnePull(crypto, InputFor(s.(nonce := s.nonce + 1), cat, policy, serverSeed, clientSeed));
            ReceiveCounter(s.(yarn := s.yarn - 1, nonce := s.nonce + 1),
                           Drawn(crypto, cat, policy, s, serverSeed, clientSeed).value,
                           P.ResultOf(crypto, InputFor(s.(nonce := s.nonce + 1), cat, policy, serverSeed, clientSeed)).pullsSinceAfter);
          }
        case _ =>
      }
      PityStaysInRange(crypto, cat, policy, Step(crypto, cat, policy, s, es[0]), es[1..]);
    }
  }

  // ---------------------------------------------------------------- hard pity in a locker

  /** The pulls that a run of the locker makes, with what each starts from. */
  ghost function PullsOf(crypto: P.Crypto, cat: Catalog, policy: Policy, s: State, es: seq<Event>): seq<P.PullInput>
    decreases |es|
  {
    if |es| == 0 then [] else
      (if es[0].PullRequested? && Attempt(crypto, cat, policy, s, es[0]).Done?
       then [InputFor(s.(nonce := s.nonce + 1), cat, policy, es[0].serverSeed, es[0].clientSeed)] else [])
      + PullsOf(crypto, cat, policy, Step(crypto, cat, policy, s, es[0]), es[1..])
  }

  lemma OtherEventsKeepCounter(crypto: P.Crypto, cat: Catalog, policy: Policy, s: State, e: Event)
    requires !e.PullRequested?
    ensures Step(crypto, cat, policy, s, e).pullsSince == s.pullsSince
  {
    hide Owns, Fits;
  }

  lemma PullSetsCounter(crypto: P.Crypto, cat: Catalog, policy: Policy, s: State, e: Event)
    requires e.PullRequested? && Attempt(crypto, cat, policy, s, e).Done?
    ensures var input := InputFor(s.(nonce := s.nonce + 1), cat, policy, e.serverSeed, e.clientSeed);
            && P.RollPull(crypto, input).Ok? && input.pityRareHard == policy.pityRareHard
            && input.pullsSince == s.pullsSince && input.catalog == cat
            && Step(crypto, cat, policy, s, e).pullsSince == P.ResultOf(crypto, input).pullsSinceAfter
  {
    hide P.RollPull, Receive, PullDemo;
    PullIs(crypto, cat, policy, s, e.serverSeed, e.clientSeed);
    var input := InputFor(s.(nonce := s.nonce + 1), cat, policy, e.serverSeed, e.clientSeed);
    ReceiveCounter(s.(yarn := s.yarn - 1, nonce := s.nonce + 1),
                   Drawn(crypto, cat, policy, s, e.serverSeed, e.clientSeed).value,
                   P.ResultOf(crypto, input).pullsSinceAfter);
  }

  lemma NoPullKeepsCounter(crypto: P.Crypto, cat: Catalog, policy: Policy, s: State, e: Event)
    requires !(e.PullRequested? && Attempt(crypto, cat, policy, s, e).Done?)
    ensures Step(crypto, cat, policy, s, e).pullsSince == s.pullsSince
  {
    hide PullDemo;
    if !e.PullRequested? {
      OtherEventsKeepCounter(crypto, cat, policy, s, e);
    }
  }

  /** The pulls of a run hand the counter on, whatever happens in between. */
  lemma {:induction false} PullsFormRun(crypto: P.Crypto, cat: Catalog, policy: Policy, s: State, es: seq<Event>)
    ensures var pulls := PullsOf(crypto, cat, policy, s, es);
            && P.PullRun(crypto, pulls, policy.pityRareHard)
            && (forall i :: 0 <= i < |pulls| ==> pulls[i].catalog == cat)
            && (|pulls| > 0 ==> pulls[0].pullsSince == s.pullsSince)
    decreases |es|
  {
    hide P.RollPull, Attempt, Step, InputFor;
    if |es| > 0 {
      var s' := Step(crypto, cat, policy, s, es[0]);
      PullsFormRun(crypto, cat, policy, s', es[1..]);
      var rest := PullsOf(crypto, cat, policy, s', es[1..]);
      if es[0].PullRequested? && Attempt(crypto, cat, policy, s, es[0]).Done? {
        PullSetsCounter(crypto, cat, policy, s, es[0]);
        var input := InputFor(s.(nonce := s.nonce + 1), cat, policy, es[0].serverSeed, es[0].clientSeed);
        assert forall i :: 0 < i < |[input] + rest| ==> ([input] + rest)[i] == rest[i - 1];
      } else {
        NoPullKeepsCounter(crypto, cat, policy, s, es[0]);
      }
    }
  }

  /**
   * Hard pity in every run of a locker: with a Rare stocked, of any threshold + 1 pulls in a row one is
   * a Rare or better, whatever equips, bonuses and posts lie between them.
   */
  lemma LockerPityHolds(crypto: P.Crypto, cat: Catalog, policy: Policy, s: State, es: seq<Event>, from: nat)
    requires Stocked(cat, Rare) && policy.pityRareHard >= 1 && 0 <= s.pullsSince <= policy.pityRareHard
    requires from + policy.pityRareHard < |PullsOf(crypto, cat, policy, s, es)|
    ensures var pulls := PullsOf(crypto, cat, policy, s, es);
            exists i :: from <= i <= from + policy.pityRareHard && P.RollPull(crypto, pulls[i]).Ok?
                        && IsRarePlus(P.ResultOf(crypto, pulls[i]).rarity)
  {
    hide P.RollPull, Stocked;
    PullsFormRun(crypto, cat, policy, s, es);
    P.HardPityHolds(crypto, PullsOf(crypto, cat, policy, s, es), policy.pityRareHard, from);
  }

  // ---------------------------------------------------------------- the daily grant

  /** How many bagwork posts are accepted on `day`. */
  ghost function StampsOn(crypto: P.Crypto, cat: Catalog, policy: Policy, s: State, es: seq<Event>, day: int): nat
    decreases |es|
  {
    if |es| == 0 then 0 else
      (if es[0].BagworkPosted? && Day(es[0].now) == day && Attempt(crypto, cat, policy, s, es[0]).Done? then 1 else 0)
      + StampsOn(crypto, cat, policy, Step(crypto, cat, policy, s, es[0]), es[1..], day)
  }

  /** The posts of the run come at nondecreasing times, none before `start`. */
  predicate PostsInOrder(es: seq<Event>, start: int)
    decreases |es|
  {
    |es| == 0
    || (if es[0].BagworkPosted? then es[0].now >= start && PostsInOrder(es[1..], es[0].now)
        else PostsInOrder(es[1..], start))
  }

  lemma EquipKeepsStamp(s: State, cat: Catalog, place: Place, itemId: Option<string>)
    ensures Equip(s, cat, place, itemId).Done?
            ==> Equip(s, cat, place, itemId).state.lastBagworkDay == s.lastBagworkDay
  {
  }

  lemma PullKeepsStamp(crypto: P.Crypto, cat: Catalog, policy: Policy, s: State, serverSeed: string,
                       clientSeed: Option<string>)
    requires PullDemo(crypto, s, cat, policy, serverSeed, clientSeed).Done?
    ensures PullDemo(crypto, s, cat, policy, serverSeed, clientSeed).state.lastBagworkDay == s.lastBagworkDay
  {
  }

  /** With a clock that does not run backwards the daily yarn is unlocked at most once a day. */
  lemma {:induction false} OneGrantADay(crypto: P.Crypto, cat: Catalog, policy: Policy, s: State, es: seq<Event>,
                                        day: int, start: int)
    requires PostsInOrder(es, start)
    requires s.lastBagworkDay.Some? ==> s.lastBagworkDay.value <= Day(start)
    ensures StampsOn(crypto, cat, policy, s, es, day) <= 1
    ensures s.lastBagworkDay.Some? && s.lastBagworkDay.value >= day ==> StampsOn(crypto, cat, policy, s, es, day) == 0
    decreases |es|
  {
    hide PullDemo, Receive, Equip;
    if |es| > 0 {
      var s' := Step(crypto, cat, policy, s, es[0]);
      match es[0] {
        case PullRequested(serverSeed, clientSeed) =>
          if PullDemo(crypto, s, cat, policy, serverSeed, clientSeed).Done? {
            PullKeepsStamp(crypto, cat, policy, s, serverSeed, clientSeed);
          }
          OneGrantADay(crypto, cat, policy, s', es[1..], day, start);
        case EquipRequested(place, itemId) =>
          EquipKeepsStamp(s, cat, place, itemId);
          OneGrantADay(crypto, cat, policy, s', es[1..], day, start);
        case BonusEarned(_) =>
          OneGrantADay(crypto, cat, policy, s', es[1..], day, start);
        case BagworkPosted(_, now) =>
          assert Day(start) <= Day(now);
          OneGrantADay(crypto, cat, policy, s', es[1..], day, now);
      }
    }
  }
}
