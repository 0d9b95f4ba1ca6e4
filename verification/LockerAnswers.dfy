/**
 * When each request to the locker goes through and what it writes, and what a run of them writes down.
 */
module LockerAnswers {
  import opened Clock
  import opened Money
  import opened Odds
  import opened Locker
  import opened LockerLaws
  import P = Pull

  // ---------------------------------------------------------------- one request

  lemma {:induction false} ListedIsFound(items: seq<Item>, item: Item)
    requires item in items
    ensures ItemById(items, item.id).Some?
  {
    if items[0].id != item.id {
      assert item in items[1..];
      ListedIsFound(items[1..], item);
    }
  }

  lemma PullFinds(crypto: P.Crypto, input: P.PullInput)
    requires P.RollPull(crypto, input).Ok?
    ensures ItemById(input.catalog.items, P.ResultOf(crypto, input).itemId).Some?
  {
    hide P.RollPull, Fallback, BucketRarity;
    P.PullIsHonest(crypto, input);
    var item :| item in input.catalog.items && item.id == P.ResultOf(crypto, input).itemId;
    ListedIsFound(input.catalog.items, item);
  }

  lemma PullNeedsSeed(crypto: P.Crypto, input: P.PullInput)
    requires P.RollPull(crypto, input).Ok?
    ensures input.clientSeed.Some? ==> |input.clientSeed.value| <= 64
  {
    hide P.RollRarity, P.FinishPull;
  }

  /** `s'` is `s` with a yarn and a nonce spent and `item` drawn. */
  ghost predicate Draws(s: State, item: Item, pullsSince: int, s': State) {
    var counts, counts' := Counts(s.inventory), Counts(s'.inventory);
    && s'.nonce == s.nonce + 1 && s'.pullsSince == pullsSince && s'.equipped == s.equipped
    && s'.lastBagworkDay == s.lastBagworkDay && s'.lastBagworkTweet == s.lastBagworkTweet
    && s'.holdStartedAt == s.holdStartedAt && s'.bagworkCount == s.bagworkCount
    && Canonical(s'.inventory)
    && (forall id :: id != item.id ==> CountOf(counts', id) == CountOf(counts, id))
    && if CountOf(counts, item.id) >= item.stackCap then
         CountOf(counts', item.id) == CountOf(counts, item.id) && s'.yarn == s.yarn + DustGrant(item)
       else
         CountOf(counts', item.id) == CountOf(counts, item.id) + 1 && s'.yarn == s.yarn - 1 + DustGrant(item)
  }

  lemma ReceiveDraws(s: State, item: Item, pullsSince: int)
    requires Canonical(s.inventory)
    ensures Draws(s, item, pullsSince, Receive(s.(yarn := s.yarn - 1, nonce := s.nonce + 1), item, pullsSince))
  {
    hide Counts, InventoryFromCounts, Canonical;
    ReceiveConserves(s.(yarn := s.yarn - 1, nonce := s.nonce + 1), item, pullsSince);
  }

  /**
   * A pull goes through exactly when there is a yarn to spend and the draw succeeds; it spends one
   * yarn and one nonce, and the item drawn is one more of its kind or, at its cap, a yarn back.
   */
  lemma PullAnswered(crypto: P.Crypto, cat: Catalog, policy: Policy, s: State, serverSeed: string, clientSeed: Option<string>)
    requires LockerOk(cat, s)
    ensures var input := P.PullInput(cat, s.pullsSince, policy.pityRareHard, serverSeed, clientSeed, s.nonce + 1);
            var reply := PullDemo(crypto, s, cat, policy, serverSeed, clientSeed);
            && (reply.Done? <==> s.yarn >= 1 && P.RollPull(crypto, input).Ok?)
            && (reply == Refused(YarnEmpty) <==> s.yarn < 1)
            && (reply.Done? ==>
                  exists item: Item :: ItemById(cat.items, item.id) == Some(item) && item.id == P.ResultOf(crypto, input).itemId
                                 && Draws(s, item, P.ResultOf(crypto, input).pullsSinceAfter, reply.state))
  {
    hide P.RollPull, Receive, Counts, Canonical, RowsWithinCap, EquippedFits;
    var input := P.PullInput(cat, s.pullsSince, policy.pityRareHard, serverSeed, clientSeed, s.nonce + 1);
    var spent := s.(yarn := s.yarn - 1, nonce := s.nonce + 1);
    assert InputFor(spent, cat, policy, serverSeed, clientSeed) == input;
    if P.RollPull(crypto, input).Ok? {
      PullNeedsSeed(crypto, input);
      PullFinds(crypto, input);
      var item := ItemById(cat.items, P.ResultOf(crypto, input).itemId).value;
      ItemByIdIs(cat.items, P.ResultOf(crypto, input).itemId);
      ReceiveDraws(s, item, P.ResultOf(crypto, input).pullsSinceAfter);
    }
  }

  /** The place takes items of this slot. */
  predicate Takes(place: Place, slot: Option<Slot>) {
    || (place == FramePlace && slot == Some(Frame))
    || (place == TitlePlace && slot == Some(Title))
    || (place == LobbyFlairPlace && slot == Some(LobbyFlair))
  }

  /**
   * A place is cleared on request, and is given an item exactly when the locker holds it and its slot
   * is the place's; nothing else of the locker changes.
   */
  lemma EquipAnswered(s: State, cat: Catalog, place: Place, itemId: Option<string>)
    ensures var reply := Equip(s, cat, place, itemId);
            && (itemId.None? ==> reply == Done(s.(equipped := s.equipped - {place})))
            && (itemId.Some? ==>
                  var held := exists row :: row in s.inventory && row.itemId == itemId.value && row.count >= 1;
                  var fits := exists item: Item :: ItemById(cat.items, itemId.value) == Some(item) && Takes(place, item.slot);
                  && (reply.Done? <==> held && fits)
                  && (reply.Done? ==> reply.state == s.(equipped := s.equipped[place := itemId.value]))
                  && (reply == Refused(NotOwned) <==> !held) && (reply == Refused(DoesNotFit) <==> held && !fits))
  {
    if itemId.Some? {
      var item := ItemById(cat.items, itemId.value);
      assert Fits(cat, itemId.value, place) <==> item.Some? && Takes(place, item.value.slot);
    }
  }

  /**
   * A bagwork post is accepted exactly when it is another tweet than the last and the day's first; it
   * is counted, dates the hold if it is the first, and grants the daily yarn below the cap.
   */
  lemma BagworkAnswered(s: State, policy: Policy, tweet: string, now: int)
    ensures var reply := Bagwork(s, policy, tweet, now);
            && (reply.Done? <==> s.lastBagworkTweet != Some(tweet) && s.lastBagworkDay != Some(Day(now)))
            && (reply == Refused(TweetUsed) <==> s.lastBagworkTweet == Some(tweet))
            && (reply.Done? ==>
                  && reply.state.bagworkCount == s.bagworkCount + 1
                  && reply.state.lastBagworkTweet == Some(tweet) && reply.state.lastBagworkDay == Some(Day(now))
                  && reply.state.holdStartedAt == Some(if s.holdStartedAt.Some? then s.holdStartedAt.value else now)
                  && reply.state.yarn == s.yarn + (if s.yarn < policy.yarnCap then policy.yarnFaucetDaily else 0)
                  && reply.state.nonce == s.nonce && reply.state.pullsSince == s.pullsSince
                  && reply.state.inventory == s.inventory && reply.state.equipped == s.equipped)
  {
  }

  // ---------------------------------------------------------------- what a run writes down

  /** The times of the bagwork posts that a run accepts. */
  ghost function Accepted(crypto: P.Crypto, cat: Catalog, policy: Policy, s: State, es: seq<Event>): seq<int>
    decreases |es|
  {
    if |es| == 0 then [] else
      (if es[0].BagworkPosted? && Attempt(crypto, cat, policy, s, es[0]).Done? then [es[0].now] else [])
      + Accepted(crypto, cat, policy, Step(crypto, cat, policy, s, es[0]), es[1..])
  }

  lemma StampsOfStep(crypto: P.Crypto, cat: Catalog, policy: Policy, s: State, e: Event)
    ensures var s' := Step(crypto, cat, policy, s, e);
            if e.BagworkPosted? && Attempt(crypto, cat, policy, s, e).Done? then
              s'.bagworkCount == s.bagworkCount + 1
              && s'.holdStartedAt == Some(if s.holdStartedAt.Some? then s.holdStartedAt.value else e.now)
            else s'.bagworkCount == s.bagworkCount && s'.holdStartedAt == s.holdStartedAt
  {
    hide P.RollPull, Owns, Fits;
  }

  /** In any run the locker has counted just the accepted posts, and holds since the first of them. */
  lemma {:induction false} StampsAreKept(crypto: P.Crypto, cat: Catalog, policy: Policy, s: State, es: seq<Event>)
    ensures var s', posts := Run(crypto, cat, policy, s, es), Accepted(crypto, cat, policy, s, es);
            && s'.bagworkCount == s.bagworkCount + |posts|
            && s'.holdStartedAt == if s.holdStartedAt.Some? || posts == [] then s.holdStartedAt else Some(posts[0])
    decreases |es|
  {
    hide Step, Attempt;
    if |es| > 0 {
      StampsOfStep(crypto, cat, policy, s, es[0]);
      StampsAreKept(crypto, cat, policy, Step(crypto, cat, policy, s, es[0]), es[1..]);
    }
  }

  lemma NonceOfStep(crypto: P.Crypto, cat: Catalog, policy: Policy, s: State, e: Event)
    ensures Step(crypto, cat, policy, s, e).nonce
            == s.nonce + if e.PullRequested? && Attempt(crypto, cat, policy, s, e).Done? then 1 else 0
  {
    hide P.RollPull, Owns, Fits;
  }

  /** The pulls of a run use successive nonces, so no two of them authenticate the same messages. */
  lemma {:induction false} NoncesAreSpent(crypto: P.Crypto, cat: Catalog, policy: Policy, s: State, es: seq<Event>)
    ensures var pulls := PullsOf(crypto, cat, policy, s, es);
            && (forall i :: 0 <= i < |pulls| ==> pulls[i].nonce == s.nonce + 1 + i)
            && Run(crypto, cat, policy, s, es).nonce == s.nonce + |pulls|
    decreases |es|
  {
    hide Step, Attempt;
    if |es| > 0 {
      NonceOfStep(crypto, cat, policy, s, es[0]);
      NoncesAreSpent(crypto, cat, policy, Step(crypto, cat, policy, s, es[0]), es[1..]);
    }
  }
}
