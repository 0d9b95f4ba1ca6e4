/**
 * Published odds of the Machine: cumulative weights, the rarity fallback and hard pity.
 * packages/gacha/src/odds.ts, catalog.ts and pity.ts.
 */
module Odds {
  import opened Money
  import opened Sampler

  datatype Rarity = Common | Uncommon | Rare | Ultra

  datatype Kind = Cosmetic | YarnDust | MerchClaim | Nft

  datatype Slot = Frame | Title | LobbyFlair | MemeUnlock

  datatype Item = Item(id: string, rarity: Rarity, kind: Kind, slot: Option<Slot>, stackCap: int,
                       yarnGrant: Option<nat>, supplyCap: Option<int>)

  datatype Catalog = Catalog(catalogId: string, oddsTableId: string, items: seq<Item>, remaining: map<string, int>)

  datatype OddsRow = OddsRow(rarity: Rarity, weight: nat)

  datatype OddsTable = OddsTable(id: string, totalWeight: nat, rows: seq<OddsRow>)

  datatype Error =
    | UnknownTable | BucketOutOfRange | WeightsDoNotCover | NothingInSupply | NoItemsForRarity
    | ClientSeedTooLong | BadServerSeed | RejectionSamplingFailed | EmptyMultiset

  datatype Result<+T> = Ok(value: T) | Err(error: Error)

  const WEIGHT_TOTAL := 10_000
  const V1_ID := "catesino-machine-odds-v1"
  const V2_ID := "catesino-machine-odds-v2"
  const HOLDER_ID := "catesino-machine-odds-holder-v1"

  const TABLE_V1 := OddsTable(V1_ID, WEIGHT_TOTAL,
    [OddsRow(Common, 8000), OddsRow(Uncommon, 1600), OddsRow(Rare, 350), OddsRow(Ultra, 50)])
  const TABLE_V2 := OddsTable(V2_ID, WEIGHT_TOTAL,
    [OddsRow(Common, 8800), OddsRow(Uncommon, 1100), OddsRow(Rare, 90), OddsRow(Ultra, 10)])
  const TABLE_HOLDER := OddsTable(HOLDER_ID, WEIGHT_TOTAL, [OddsRow(Common, 8000), OddsRow(Uncommon, 2000)])

  function TableById(id: string): Result<OddsTable> {
    if id == V1_ID then Ok(TABLE_V1)
    else if id == V2_ID then Ok(TABLE_V2)
    else if id == HOLDER_ID then Ok(TABLE_HOLDER)
    else Err(UnknownTable)
  }

  // ---------------------------------------------------------------- a bucket's rarity

  /** The row whose interval holds the bucket when the rows are laid end to end. */
  function RowAt(rows: seq<OddsRow>, bucket: nat): Result<Rarity> {
    if |rows| == 0 then Err(WeightsDoNotCover)
    else if bucket < rows[0].weight then Ok(rows[0].rarity)
    else RowAt(rows[1..], bucket - rows[0].weight)
  }

  function BucketRarity(bucket: int, table: OddsTable): Result<Rarity> {
    if bucket < 0 || bucket >= table.totalWeight then Err(BucketOutOfRange) else RowAt(table.rows, bucket)
  }

  /** Lines 59-69 of odds.ts. */
  method RarityFromBucket(bucket: int, table: OddsTable) returns (r: Result<Rarity>)
    ensures r == BucketRarity(bucket, table)
  {
    if bucket < 0 || bucket >= table.totalWeight {
      return Err(BucketOutOfRange);
    }
    var acc := 0;
    for i := 0 to |table.rows|
      invariant acc <= bucket && RowAt(table.rows[i..], bucket - acc) == RowAt(table.rows, bucket)
    {
      assert table.rows[i..][1..] == table.rows[i + 1..];
      acc := acc + table.rows[i].weight;
      if bucket < acc {
        return Ok(table.rows[i].rarity);
      }
    }
    return Err(WeightsDoNotCover);
  }

  function TotalWeight(rows: seq<OddsRow>): nat {
    if |rows| == 0 then 0 else rows[0].weight + TotalWeight(rows[1..])
  }

  /** The weight of the rows whose rarity satisfies `p`. */
  function WeightWhere(rows: seq<OddsRow>, p: Rarity -> bool): nat {
    if |rows| == 0 then 0 else (if p(rows[0].rarity) then rows[0].weight else 0) + WeightWhere(rows[1..], p)
  }

  function Hits(rows: seq<OddsRow>, p: Rarity -> bool): nat -> bool {
    (bucket: nat) => RowAt(rows, bucket).Ok? && p(RowAt(rows, bucket).value)
  }

  function Always(b: bool): nat -> bool { (i: nat) => b }

  lemma {:induction false} CountAlways(n: nat, b: bool)
    ensures Count(n, Always(b)) == if b then n else 0
  {
    if n > 0 {
      CountAlways(n - 1, b);
    }
  }

  /** Published odds are exact: precisely weight-many buckets land on the rows that satisfy `p`. */
  lemma {:induction false} BucketsMeetWeights(rows: seq<OddsRow>, p: Rarity -> bool)
    ensures Count(TotalWeight(rows), Hits(rows, p)) == WeightWhere(rows, p)
  {
    if |rows| > 0 {
      var w, rest := rows[0].weight, rows[1..];
      BucketsMeetWeights(rest, p);
      CountSplit(w, TotalWeight(rest), Hits(rows, p));
      forall b: nat | b < w
        ensures Hits(rows, p)(b) == Always(p(rows[0].rarity))(b)
      {
        assert RowAt(rows, b) == Ok(rows[0].rarity);
      }
      CountSame(w, Hits(rows, p), Always(p(rows[0].rarity)));
      CountAlways(w, p(rows[0].rarity));
      forall b: nat
        ensures Shift(Hits(rows, p), w)(b) == Hits(rest, p)(b)
      {
        assert RowAt(rows, w + b) == RowAt(rest, b);
      }
      CountSame(TotalWeight(rest), Shift(Hits(rows, p), w), Hits(rest, p));
    }
  }

  /** A bucket falls outside the table exactly when the weights do not reach it. */
  lemma {:induction false} RowAtCovers(rows: seq<OddsRow>, bucket: nat)
    ensures RowAt(rows, bucket).Ok? <==> bucket < TotalWeight(rows)
  {
    if |rows| > 0 && bucket >= rows[0].weight {
      RowAtCovers(rows[1..], bucket - rows[0].weight);
    }
  }

  /** The bucket lies in the i-th of the intervals that the weights lay end to end. */
  predicate InRow(rows: seq<OddsRow>, i: nat, bucket: int) {
    i < |rows| && TotalWeight(rows[..i]) <= bucket < TotalWeight(rows[..i + 1])
  }

  lemma InRowTail(rows: seq<OddsRow>, i: nat, bucket: int)
    requires 0 < |rows|
    ensures InRow(rows, i + 1, bucket) <==> InRow(rows[1..], i, bucket - rows[0].weight)
    ensures InRow(rows, 0, bucket) <==> 0 <= bucket < rows[0].weight
  {
    if i + 1 < |rows| {
      assert rows[..i + 1][1..] == rows[1..][..i] && rows[..i + 2][1..] == rows[1..][..i + 1];
    }
    assert rows[..1][1..] == [];
  }

  lemma WeightAtLeastFirst(rows: seq<OddsRow>, i: nat)
    requires 0 < i <= |rows|
    ensures TotalWeight(rows[..i]) >= rows[0].weight
  {
  }

  lemma {:induction false} RowAtIs(rows: seq<OddsRow>, bucket: nat, i: nat)
    requires InRow(rows, i, bucket)
    ensures RowAt(rows, bucket) == Ok(rows[i].rarity)
    decreases |rows|
  {
    if i == 0 {
      InRowTail(rows, 0, bucket);
    } else {
      InRowTail(rows, i - 1, bucket);
      WeightAtLeastFirst(rows, i);
      RowAtIs(rows[1..], bucket - rows[0].weight, i - 1);
    }
  }

  lemma {:induction false} SomeRowHolds(rows: seq<OddsRow>, bucket: nat)
    requires bucket < TotalWeight(rows)
    ensures exists i: nat :: InRow(rows, i, bucket)
    decreases |rows|
  {
    InRowTail(rows, 0, bucket);
    if bucket >= rows[0].weight {
      SomeRowHolds(rows[1..], bucket - rows[0].weight);
      var i: nat :| InRow(rows[1..], i, bucket - rows[0].weight);
      InRowTail(rows, i, bucket);
      assert InRow(rows, i + 1, bucket);
    } else {
      assert InRow(rows, 0, bucket);
    }
  }

  lemma {:induction false} RowAtErrors(rows: seq<OddsRow>, bucket: nat)
    ensures RowAt(rows, bucket).Err? ==> RowAt(rows, bucket).error == WeightsDoNotCover
  {
    if |rows| > 0 && bucket >= rows[0].weight {
      RowAtErrors(rows[1..], bucket - rows[0].weight);
    }
  }

  /**
   * A bucket's rarity is that of the one row whose interval holds it, and a bucket is refused exactly
   * when it is out of range or beyond the weights.
   */
  lemma RarityIsTheRows(bucket: int, table: OddsTable)
    ensures forall i: nat ::
              InRow(table.rows, i, bucket) && bucket < table.totalWeight ==> BucketRarity(bucket, table) == Ok(table.rows[i].rarity)
    ensures BucketRarity(bucket, table) == Err(BucketOutOfRange) <==> !(0 <= bucket < table.totalWeight)
    ensures BucketRarity(bucket, table) == Err(WeightsDoNotCover)
            <==> 0 <= bucket < table.totalWeight && forall i: nat :: !InRow(table.rows, i, bucket)
    ensures BucketRarity(bucket, table).Ok? ==> exists i: nat :: InRow(table.rows, i, bucket)
  {
    if 0 <= bucket < table.totalWeight {
      RowAtCovers(table.rows, bucket);
      forall i: nat | InRow(table.rows, i, bucket)
        ensures RowAt(table.rows, bucket) == Ok(table.rows[i].rarity)
      {
        RowAtIs(table.rows, bucket, i);
      }
      if bucket < TotalWeight(table.rows) {
        SomeRowHolds(table.rows, bucket);
      }
      RowAtErrors(table.rows, bucket);
    } else {
      forall i: nat
        ensures InRow(table.rows, i, bucket) ==> bucket >= 0
      {
      }
    }
  }

  // ---------------------------------------------------------------- supply and fallback

  predicate InSupply(cat: Catalog, item: Item) {
    item.supplyCap.None? || item.id !in cat.remaining || cat.remaining[item.id] > 0
  }

  function Filtered(cat: Catalog, items: seq<Item>, rarity: Rarity): seq<Item> {
    if |items| == 0 then []
    else if items[0].rarity == rarity && InSupply(cat, items[0]) then [items[0]] + Filtered(cat, items[1..], rarity)
    else Filtered(cat, items[1..], rarity)
  }

  function InSupplyItems(cat: Catalog, rarity: Rarity): seq<Item> {
    Filtered(cat, cat.items, rarity)
  }

  predicate Stocked(cat: Catalog, rarity: Rarity) {
    |InSupplyItems(cat, rarity)| > 0
  }

  const FALLBACK_ORDER: seq<Rarity> := [Ultra, Rare, Uncommon, Common]

  /** The rarity's place in the fallback order. */
  function Place(r: Rarity): (i: nat)
    ensures i < 4 && FALLBACK_ORDER[i] == r
  {
    match r
    case Ultra => 0
    case Rare => 1
    case Uncommon => 2
    case Common => 3
  }

  function FirstStocked(cat: Catalog, i: nat): Result<Rarity>
    requires i <= 4
    decreases 4 - i
  {
    if i == 4 then Err(NothingInSupply)
    else if Stocked(cat, FALLBACK_ORDER[i]) then Ok(FALLBACK_ORDER[i])
    else FirstStocked(cat, i + 1)
  }

  function Fallback(rarity: Rarity, cat: Catalog): Result<Rarity> {
    FirstStocked(cat, Place(rarity))
  }

  /** Lines 179-190 of catalog.ts. */
  method ApplyRarityFallback(rarity: Rarity, cat: Catalog) returns (r: Result<Rarity>)
    ensures r == Fallback(rarity, cat)
  {
    for i := Place(rarity) to 4
      invariant FirstStocked(cat, i) == Fallback(rarity, cat)
    {
      var next := FALLBACK_ORDER[i];
      if |InSupplyItems(cat, next)| > 0 {
        return Ok(next);
      }
    }
    return Err(NothingInSupply);
  }

  /** `from` rolls down to `to`: `to` is stocked, and it and everything before it from `from` on is not. */
  predicate RollsTo(cat: Catalog, from: Rarity, to: Rarity) {
    && Stocked(cat, to) && Place(from) <= Place(to)
    && forall i :: Place(from) <= i < Place(to) ==> !Stocked(cat, FALLBACK_ORDER[i])
  }

  lemma {:induction false} FirstStockedIs(cat: Catalog, i: nat, to: Rarity)
    requires i <= 4
    ensures FirstStocked(cat, i) == Ok(to) <==>
              Stocked(cat, to) && i <= Place(to) && forall j :: i <= j < Place(to) ==> !Stocked(cat, FALLBACK_ORDER[j])
    decreases 4 - i
  {
    if i < 4 {
      FirstStockedIs(cat, i + 1, to);
    }
  }

  /** Fallback goes to the first stocked rarity at or below, never up, and once there it stays. */
  lemma FallbackIsFirstStocked(cat: Catalog, from: Rarity, to: Rarity)
    ensures Fallback(from, cat) == Ok(to) <==> RollsTo(cat, from, to)
    ensures Fallback(from, cat) == Ok(to) ==> Fallback(to, cat) == Ok(to)
    ensures Stocked(cat, from) ==> Fallback(from, cat) == Ok(from)
  {
    FirstStockedIs(cat, Place(from), to);
    FirstStockedIs(cat, Place(to), to);
  }

  function LandsOn(cat: Catalog, to: Rarity): Rarity -> bool {
    (from: Rarity) => Fallback(from, cat) == Ok(to)
  }

  function RollsDownOnto(cat: Catalog, to: Rarity): Rarity -> bool {
    (from: Rarity) => from != to && RollsTo(cat, from, to)
  }

  function Exactly(to: Rarity): Rarity -> bool {
    (from: Rarity) => from == to
  }

  lemma {:induction false} WeightSplits(rows: seq<OddsRow>, cat: Catalog, to: Rarity)
    requires Stocked(cat, to)
    ensures WeightWhere(rows, LandsOn(cat, to))
            == WeightWhere(rows, Exactly(to)) + WeightWhere(rows, RollsDownOnto(cat, to))
  {
    if |rows| > 0 {
      FallbackIsFirstStocked(cat, rows[0].rarity, to);
      WeightSplits(rows[1..], cat, to);
    }
  }

  /** The buckets of the table whose rarity falls back to `to`. */
  function FallsTo(table: OddsTable, cat: Catalog, to: Rarity): nat -> bool {
    (bucket: nat) => BucketRarity(bucket, table).Ok? && Fallback(BucketRarity(bucket, table).value, cat) == Ok(to)
  }

  lemma BucketsFall(table: OddsTable, cat: Catalog, to: Rarity)
    ensures Count(table.totalWeight, FallsTo(table, cat, to)) == Count(table.totalWeight, Hits(table.rows, LandsOn(cat, to)))
  {
    hide Fallback;
    CountSame(table.totalWeight, FallsTo(table, cat, to), Hits(table.rows, LandsOn(cat, to)));
  }

  /**
   * After fallback a stocked rarity gets precisely its own weight plus the weights of the empty
   * rarities that roll down to it: in buckets, and in accepted digests of the sampler.
   */
  lemma FallbackOddsAreExact(table: OddsTable, cat: Catalog, to: Rarity)
    requires 0 < table.totalWeight == TotalWeight(table.rows) <= MAX_U32 && Stocked(cat, to)
    ensures var weight := WeightWhere(table.rows, Exactly(to)) + WeightWhere(table.rows, RollsDownOnto(cat, to));
            && Count(table.totalWeight, FallsTo(table, cat, to)) == weight
            && AcceptedWith(table.totalWeight, FallsTo(table, cat, to)) == (Limit(table.totalWeight) / table.totalWeight) * weight
  {
    BucketsMeetWeights(table.rows, LandsOn(cat, to));
    BucketsFall(table, cat, to);
    WeightSplits(table.rows, cat, to);
    SamplingIsUniform(table.totalWeight, FallsTo(table, cat, to));
  }

  lemma TablesAreComplete(id: string)
    requires TableById(id).Ok?
    ensures TableById(id).value.totalWeight == TotalWeight(TableById(id).value.rows) == WEIGHT_TOTAL
    ensures forall b: nat :: b < WEIGHT_TOTAL ==> BucketRarity(b, TableById(id).value).Ok?
  {
    var table := TableById(id).value;
    forall b: nat | b < WEIGHT_TOTAL
      ensures BucketRarity(b, table).Ok?
    {
      RowAtCovers(table.rows, b);
    }
  }

  lemma WeightOfFour(c: nat, u: nat, r: nat, x: nat, p: Rarity -> bool)
    ensures WeightWhere([OddsRow(Common, c), OddsRow(Uncommon, u), OddsRow(Rare, r), OddsRow(Ultra, x)], p)
            == (if p(Common) then c else 0) + (if p(Uncommon) then u else 0)
               + (if p(Rare) then r else 0) + (if p(Ultra) then x else 0)
  {
    var rows := [OddsRow(Common, c), OddsRow(Uncommon, u), OddsRow(Rare, r), OddsRow(Ultra, x)];
    assert WeightWhere(rows, p) == (if p(Common) then c else 0) + WeightWhere(rows[1..], p);
    assert WeightWhere(rows[1..], p) == (if p(Uncommon) then u else 0) + WeightWhere(rows[1..][1..], p);
    assert WeightWhere(rows[1..][1..], p) == (if p(Rare) then r else 0) + WeightWhere(rows[1..][1..][1..], p);
    assert WeightWhere(rows[1..][1..][1..], p) == (if p(Ultra) then x else 0) + WeightWhere(rows[1..][1..][1..][1..], p);
  }

  lemma LiveWeight(cat: Catalog, to: Rarity)
    ensures var p := LandsOn(cat, to);
            Count(WEIGHT_TOTAL, FallsTo(TABLE_V2, cat, to))
            == (if p(Common) then 8800 else 0) + (if p(Uncommon) then 1100 else 0)
               + (if p(Rare) then 90 else 0) + (if p(Ultra) then 10 else 0)
  {
    hide Count, Hits, Fallback, FallsTo;
    TablesAreComplete(V2_ID);
    BucketsMeetWeights(TABLE_V2.rows, LandsOn(cat, to));
    BucketsFall(TABLE_V2, cat, to);
    WeightOfFour(8800, 1100, 90, 10, LandsOn(cat, to));
  }

  /** The live table while no Ultra is stocked: 88%, 11% and 1%, and an Ultra never. */
  lemma LiveOdds(cat: Catalog)
    requires Stocked(cat, Common) && Stocked(cat, Uncommon) && Stocked(cat, Rare) && !Stocked(cat, Ultra)
    ensures Count(WEIGHT_TOTAL, FallsTo(TABLE_V2, cat, Common)) == 8800
    ensures Count(WEIGHT_TOTAL, FallsTo(TABLE_V2, cat, Uncommon)) == 1100
    ensures Count(WEIGHT_TOTAL, FallsTo(TABLE_V2, cat, Rare)) == 90 + 10
    ensures Count(WEIGHT_TOTAL, FallsTo(TABLE_V2, cat, Ultra)) == 0
  {
    LiveWeight(cat, Common);
    LiveWeight(cat, Uncommon);
    LiveWeight(cat, Rare);
    LiveWeight(cat, Ultra);
    hide Count, FallsTo;
  }

  // ---------------------------------------------------------------- hard pity

  predicate IsRarePlus(r: Rarity) { r == Rare || r == Ultra }

  predicate ShouldApplyPity(counter: int, raw: Rarity, hard: int, rareInSupply: bool) {
    rareInSupply && hard > 0 && counter >= hard && !IsRarePlus(raw)
  }

  function NextPityCounter(counter: int, final: Rarity): int {
    if IsRarePlus(final) then 0 else counter + 1
  }
}
