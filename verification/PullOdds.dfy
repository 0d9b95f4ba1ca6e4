/**
 * The odds of a pull as digests of its two lanes, when a pull succeeds, and that pity never comes early.
 */
module PullOdds {
  import opened Money
  import opened Sampler
  import opened Text
  import opened Odds
  import opened Pull

  // ---------------------------------------------------------------- the rarity lane

  predicate PityDue(input: PullInput) {
    0 < input.pityRareHard <= input.pullsSince && Stocked(input.catalog, Rare)
  }

  function RarityLane(input: PullInput, clientSeed: string): string {
    clientSeed + ":" + Dec(input.nonce) + ":" + "rarity"
  }

  /** The digests of the rarity lane that make the pull come to `to`. */
  function RollsOf(input: PullInput, clientSeed: string, table: OddsTable, to: Rarity): nat -> bool {
    (d: nat) =>
      d < MAX_U32
      && RollRarity(Constant(d), input, clientSeed, table).Ok?
      && RollRarity(Constant(d), input, clientSeed, table).value.final == to
  }

  lemma RollIs(h: Hmac, g: Hmac, input: PullInput, clientSeed: string, table: OddsTable)
    requires DrawIndex(h, RarityLane(input, clientSeed), table.totalWeight)
             == DrawIndex(g, RarityLane(input, clientSeed), table.totalWeight)
    ensures RollRarity(h, input, clientSeed, table) == RollRarity(g, input, clientSeed, table)
  {
    hide DrawIndex, BucketRarity, Fallback, Stocked;
  }

  lemma RollWithoutPity(h: Hmac, input: PullInput, clientSeed: string, table: OddsTable, bucket: nat, to: Rarity)
    requires DrawIndex(h, RarityLane(input, clientSeed), table.totalWeight) == Index(bucket) && !PityDue(input)
    ensures var r := RollRarity(h, input, clientSeed, table);
            r.Ok? && r.value.final == to <==> FallsTo(table, input.catalog, to)(bucket)
  {
    hide DrawIndex, BucketRarity, Fallback, Stocked;
    var b := BucketRarity(bucket, table);
    if b.Ok? && Fallback(b.value, input.catalog).Ok? {
      FallbackIsFirstStocked(input.catalog, b.value, Fallback(b.value, input.catalog).value);
    }
  }

  /**
   * While pity is not due, precisely its share of the accepted digests makes a pull come to a rarity:
   * its own weight plus the weights of the empty rarities above it that roll down to it.
   */
  lemma RollOddsAreExact(input: PullInput, clientSeed: string, table: OddsTable, to: Rarity)
    requires 0 < table.totalWeight == TotalWeight(table.rows) <= MAX_U32 && Stocked(input.catalog, to) && !PityDue(input)
    ensures var total := table.totalWeight;
            Count(Limit(total), RollsOf(input, clientSeed, table, to))
            == (Limit(total) / total)
               * (WeightWhere(table.rows, Exactly(to)) + WeightWhere(table.rows, RollsDownOnto(input.catalog, to)))
  {
    var total := table.totalWeight;
    LimitIsMultiple(total);
    FallbackOddsAreExact(table, input.catalog, to);
    forall d: nat | d < Limit(total)
      ensures RollsOf(input, clientSeed, table, to)(d) == ByRemainder(FallsTo(table, input.catalog, to), total)(d)
    {
      hide Limit, DrawIndex, RollRarity, FallsTo;
      ConstantDraws(d, RarityLane(input, clientSeed), total);
      RollWithoutPity(Constant(d), input, clientSeed, table, Remainder(d, total), to);
    }
    hide RollsOf, FallsTo, Limit, WeightWhere;
    CountSame(Limit(total), RollsOf(input, clientSeed, table, to), ByRemainder(FallsTo(table, input.catalog, to), total));
  }

  /** Under any key a pull's rarity is that of the first accepted digest of its lane. */
  lemma RarityIsOneDigests(h: Hmac, input: PullInput, clientSeed: string, table: OddsTable)
    requires table.totalWeight > 0
    ensures var lane, roll := RarityLane(input, clientSeed), RollRarity(h, input, clientSeed, table);
            || (exists d :: FirstAccepted(h, lane, table.totalWeight, d) && roll == RollRarity(Constant(d), input, clientSeed, table))
            || roll == Err(RejectionSamplingFailed)
  {
    var lane := RarityLane(input, clientSeed);
    OneDigestDecides(h, lane, table.totalWeight);
    hide DrawIndex, FirstAccepted, BucketRarity, Fallback, Stocked;
    if d :| FirstAccepted(h, lane, table.totalWeight, d)
            && DrawIndex(h, lane, table.totalWeight) == DrawIndex(Constant(d), lane, table.totalWeight) {
      RollIs(h, Constant(d), input, clientSeed, table);
    }
  }

  // ---------------------------------------------------------------- the item lane

  function ItemLane(input: PullInput, clientSeed: string): string {
    clientSeed + ":" + Dec(input.nonce) + ":" + "item"
  }

  function HasId(items: seq<Item>, id: string): nat -> bool {
    (i: nat) => i < |items| && items[i].id == id
  }

  /** The digests of the item lane that hand out `id`. */
  function DrawsOf(crypto: Crypto, input: PullInput, clientSeed: string, rolled: Rolled, id: string): nat -> bool {
    (d: nat) =>
      d < MAX_U32
      && FinishPull(crypto, Constant(d), input, clientSeed, rolled).Ok?
      && FinishPull(crypto, Constant(d), input, clientSeed, rolled).value.itemId == id
  }

  lemma FinishIs(crypto: Crypto, h: Hmac, input: PullInput, clientSeed: string, rolled: Rolled)
    ensures var items := InSupplyItems(input.catalog, rolled.final);
            var r := FinishPull(crypto, h, input, clientSeed, rolled);
            && (r.Ok? <==> |items| > 0 && DrawIndex(h, ItemLane(input, clientSeed), |items|).Index?)
            && (r.Ok? ==> var i := DrawIndex(h, ItemLane(input, clientSeed), |items|).i;
                          i < |items| && r.value.itemId == items[i].id)
  {
    hide SampleFrom, InSupplyItems, InSupplyHash, Sort;
    var items := InSupplyItems(input.catalog, rolled.final);
    if |items| > 0 {
      DrawIndexIsFirstAccepted(h, ItemLane(input, clientSeed), |items|);
    }
  }

  /**
   * Every in-supply item of the announced rarity is handed out by equally many of the accepted digests
   * of the item lane, an id that the catalog lists more than once by as many times more.
   */
  lemma ItemOddsAreExact(crypto: Crypto, input: PullInput, clientSeed: string, rolled: Rolled, id: string)
    requires 0 < |InSupplyItems(input.catalog, rolled.final)| <= MAX_U32
    ensures var items := InSupplyItems(input.catalog, rolled.final);
            Count(Limit(|items|), DrawsOf(crypto, input, clientSeed, rolled, id))
            == (Limit(|items|) / |items|) * Count(|items|, HasId(items, id))
  {
    var items := InSupplyItems(input.catalog, rolled.final);
    var n := |items|;
    LimitIsMultiple(n);
    forall d: nat | d < Limit(n)
      ensures DrawsOf(crypto, input, clientSeed, rolled, id)(d) == ByRemainder(HasId(items, id), n)(d)
    {
      hide Limit, DrawIndex, FinishPull, InSupplyItems;
      ConstantDraws(d, ItemLane(input, clientSeed), n);
      FinishIs(crypto, Constant(d), input, clientSeed, rolled);
    }
    hide DrawsOf, HasId, Limit, InSupplyItems;
    CountSame(Limit(n), DrawsOf(crypto, input, clientSeed, rolled, id), ByRemainder(HasId(items, id), n));
    SamplingIsUniform(n, HasId(items, id));
  }

  // ---------------------------------------------------------------- when a pull succeeds

  /** Something of the bucket's rarity or below is in supply. */
  predicate SomethingBelow(cat: Catalog, from: Rarity) {
    exists to :: Stocked(cat, to) && Place(from) <= Place(to)
  }

  lemma {:induction false} FirstStockedExists(cat: Catalog, i: nat, to: Rarity)
    requires i <= Place(to) && Stocked(cat, to)
    ensures FirstStocked(cat, i).Ok?
    decreases 4 - i
  {
    if !Stocked(cat, FALLBACK_ORDER[i]) {
      FirstStockedExists(cat, i + 1, to);
    }
  }

  lemma FallbackExactlyWhen(cat: Catalog, from: Rarity)
    ensures Fallback(from, cat).Ok? <==> SomethingBelow(cat, from)
  {
    hide Stocked, FirstStocked;
    if Fallback(from, cat).Ok? {
      FallbackIsFirstStocked(cat, from, Fallback(from, cat).value);
    }
    if to :| Stocked(cat, to) && Place(from) <= Place(to) {
      FirstStockedExists(cat, Place(from), to);
    }
  }

  lemma RollsExactlyWhen(h: Hmac, input: PullInput, clientSeed: string, table: OddsTable)
    ensures var bucket := DrawIndex(h, RarityLane(input, clientSeed), table.totalWeight);
            RollRarity(h, input, clientSeed, table).Ok?
            <==> bucket.Index? && BucketRarity(bucket.i, table).Ok?
                 && SomethingBelow(input.catalog, BucketRarity(bucket.i, table).value)
  {
    hide DrawIndex, BucketRarity, Fallback, Stocked, SomethingBelow;
    var bucket := DrawIndex(h, RarityLane(input, clientSeed), table.totalWeight);
    if bucket.Index? && BucketRarity(bucket.i, table).Ok? {
      var from := BucketRarity(bucket.i, table).value;
      FallbackExactlyWhen(input.catalog, from);
      if Fallback(from, input.catalog).Ok? {
        FallbackIsFirstStocked(input.catalog, from, Fallback(from, input.catalog).value);
        FallbackIsFirstStocked(input.catalog, Rare, Rare);
      }
    }
  }

  /** The two lanes are found and there is something to hand out. */
  predicate Rollable(h: Hmac, input: PullInput, clientSeed: string, table: OddsTable) {
    var bucket := DrawIndex(h, RarityLane(input, clientSeed), table.totalWeight);
    && bucket.Index? && BucketRarity(bucket.i, table).Ok?
    && SomethingBelow(input.catalog, BucketRarity(bucket.i, table).value)
    && RollRarity(h, input, clientSeed, table).Ok?
    && DrawIndex(h, ItemLane(input, clientSeed),
                 |InSupplyItems(input.catalog, RollRarity(h, input, clientSeed, table).value.final)|).Index?
  }

  /**
   * A pull succeeds exactly when the client seed is at most 64 long, the server seed is 64 hexadecimal
   * digits, the odds table is known, something at or below the bucket's rarity is in supply, and
   * neither lane has 1001 digests rejected in a row.
   */
  lemma PulledExactlyWhen(crypto: Crypto, input: PullInput)
    ensures var seed, key, table :=
              NormalizeClientSeed(input.clientSeed), SeedToKey(input.serverSeed), TableById(input.catalog.oddsTableId);
            RollPull(crypto, input).Ok?
            <==> && (input.clientSeed.Some? ==> |input.clientSeed.value| <= 64)
                 && |input.serverSeed| == 64 && (forall i :: 0 <= i < 64 ==> IsHexDigit(input.serverSeed[i]))
                 && input.catalog.oddsTableId in {V1_ID, V2_ID, HOLDER_ID}
                 && seed.Ok? && key.Ok? && table.Ok? && Rollable(crypto.hmac(key.value), input, seed.value, table.value)
  {
    var seed, key, table :=
      NormalizeClientSeed(input.clientSeed), SeedToKey(input.serverSeed), TableById(input.catalog.oddsTableId);
    if seed.Ok? && key.Ok? && table.Ok? {
      var h := crypto.hmac(key.value);
      RollsExactlyWhen(h, input, seed.value, table.value);
      if RollRarity(h, input, seed.value, table.value).Ok? {
        FinishIs(crypto, h, input, seed.value, RollRarity(h, input, seed.value, table.value).value);
        RollRarityIs(h, input, seed.value, table.value);
      }
      hide RollRarity, FinishPull, DrawIndex, InSupplyItems, SomethingBelow, BucketRarity;
    }
  }

  // ---------------------------------------------------------------- pity is never early

  lemma {:induction false} CounterAtMost(crypto: Crypto, pulls: seq<PullInput>, hard: int, i: nat)
    requires PullRun(crypto, pulls, hard) && i < |pulls|
    ensures pulls[i].pullsSince <= i + if pulls[0].pullsSince > 0 then pulls[0].pullsSince else 0
  {
    hide RollPull, Stocked;
    if i > 0 {
      CounterAtMost(crypto, pulls, hard, i - 1);
      OnePull(crypto, pulls[i - 1]);
    }
  }

  lemma {:induction false} CounterSinceRare(crypto: Crypto, pulls: seq<PullInput>, hard: int, rare: nat, i: nat)
    requires PullRun(crypto, pulls, hard) && rare < i < |pulls| && IsRarePlus(ResultOf(crypto, pulls[rare]).rarity)
    ensures pulls[i].pullsSince <= i - rare - 1
  {
    hide RollPull, Stocked;
    OnePull(crypto, pulls[i - 1]);
    if rare < i - 1 {
      CounterSinceRare(crypto, pulls, hard, rare, i - 1);
    }
  }

  /** A pull is forced only with a full threshold of pulls behind it, none of them a Rare or better. */
  lemma PityIsNotEarly(crypto: Crypto, pulls: seq<PullInput>, hard: int, i: nat)
    requires PullRun(crypto, pulls, hard) && i < |pulls| && pulls[0].pullsSince == 0
    requires ResultOf(crypto, pulls[i]).pityApplied
    ensures i >= hard >= 1
    ensures forall j :: i - hard <= j < i ==> !IsRarePlus(ResultOf(crypto, pulls[j]).rarity)
  {
    hide RollPull, Stocked, Fallback, BucketRarity;
    PullIsHonest(crypto, pulls[i]);
    CounterAtMost(crypto, pulls, hard, i);
    forall j | i - hard <= j < i
      ensures !IsRarePlus(ResultOf(crypto, pulls[j]).rarity)
    {
      if IsRarePlus(ResultOf(crypto, pulls[j]).rarity) {
        CounterSinceRare(crypto, pulls, hard, j, i);
      }
    }
  }

  // ---------------------------------------------------------------- what seeds and hashes stand for

  function Lower(c: char): char {
    if 'A' <= c <= 'F' then (c as nat + 32) as char else c
  }

  /** Two server seeds make the same key exactly when they differ in the case of digits alone. */
  lemma KeyDeterminesSeed(a: string, b: string)
    requires IsServerSeed(a) && IsServerSeed(b)
    ensures SeedToKey(a) == SeedToKey(b) <==> forall i :: 0 <= i < 64 ==> Lower(a[i]) == Lower(b[i])
  {
    var x, y := SeedToKey(a).value, SeedToKey(b).value;
    forall c: char, d: char | IsHexDigit(c) && IsHexDigit(d)
      ensures HexDigit(c) < 16 && (HexDigit(c) == HexDigit(d) <==> Lower(c) == Lower(d))
    {
    }
    hide HexDigit, Lower, IsHexDigit;
    if x == y {
      forall i | 0 <= i < 64
        ensures Lower(a[i]) == Lower(b[i])
      {
        var k := i / 2;
        assert x[k] == HexDigit(a[2 * k]) * 16 + HexDigit(a[2 * k + 1]);
        assert y[k] == HexDigit(b[2 * k]) * 16 + HexDigit(b[2 * k + 1]);
        assert i == 2 * k || i == 2 * k + 1;
      }
    }
    if forall i :: 0 <= i < 64 ==> Lower(a[i]) == Lower(b[i]) {
      forall k | 0 <= k < 32
        ensures x[k] == y[k]
      {
        assert Lower(a[2 * k]) == Lower(b[2 * k]) && Lower(a[2 * k + 1]) == Lower(b[2 * k + 1]);
      }
    }
  }

  lemma TwoShowComma(ids: seq<string>)
    requires |ids| > 0 && forall id :: id in ids ==> ',' !in id
    ensures |ids| > 1 <==> ',' in Join(ids)
  {
    if |ids| > 1 {
      assert Join(ids)[|ids[0]|] == ',';
    }
  }

  /** The text that is hashed determines the list of ids, for ids without a comma. */
  lemma {:induction false} JoinedIdsAreRead(a: seq<string>, b: seq<string>)
    requires |a| > 0 && |b| > 0 && Join(a) == Join(b)
    requires (forall id :: id in a ==> ',' !in id) && (forall id :: id in b ==> ',' !in id)
    ensures a == b
  {
    if |a| == 1 && |b| == 1 {
      assert a == [a[0]] && b == [b[0]];
    } else if |a| == 1 || |b| == 1 {
      assert false by {
        TwoShowComma(a);
        TwoShowComma(b);
      }
    } else {
      SplitAtFirst(a[0], Join(a[1..]), b[0], Join(b[1..]), ',');
      JoinedIdsAreRead(a[1..], b[1..]);
      assert a == [a[0]] + a[1..] && b == [b[0]] + b[1..];
    }
  }
}
