/**
 * One pull of the Machine and its replay: packages/gacha/src/pull.ts and verify.ts, with the key
 * check of rng.ts. HMAC-SHA256 and SHA-256 are parameters.
 */
module Pull {
  import opened Money
  import opened Sampler
  import opened Text
  import opened Odds

  datatype Crypto = Crypto(hmac: seq<nat> -> Hmac, sha256: string -> string)

  datatype PullInput = PullInput(
    catalog: Catalog, pullsSince: int, pityRareHard: int, serverSeed: string, clientSeed: Option<string>, nonce: nat)

  datatype PullResult = PullResult(
    rarity: Rarity, itemId: string, rawBucket: nat, pityApplied: bool, pullsSinceAfter: int,
    inSupplyHash: string, inSupplyIds: seq<string>, serverSeed: string, serverSeedCommit: string,
    clientSeed: string, nonce: nat, oddsTableId: string, catalogId: string, pityRareHard: int, pullsSinceBefore: int)

  // ---------------------------------------------------------------- seeds

  const DEFAULT_CLIENT_SEED := "yarn"
  const MAX_CLIENT_SEED := 64

  function NormalizeClientSeed(raw: Option<string>): Result<string> {
    var seed := if raw.Some? && |raw.value| > 0 then raw.value else DEFAULT_CLIENT_SEED;
    if |seed| > MAX_CLIENT_SEED then Err(ClientSeedTooLong) else Ok(seed)
  }

  predicate IsHexDigit(c: char) {
    '0' <= c <= '9' || 'a' <= c <= 'f' || 'A' <= c <= 'F'
  }

  function HexDigit(c: char): nat
    requires IsHexDigit(c)
  {
    if c <= '9' then c as nat - '0' as nat
    else if c <= 'F' then c as nat - 'A' as nat + 10
    else c as nat - 'a' as nat + 10
  }

  predicate IsServerSeed(s: string) {
    |s| == 64 && forall i :: 0 <= i < |s| ==> IsHexDigit(s[i])
  }

  /** The 32 bytes that 64 hexadecimal digits of either case stand for. */
  function SeedToKey(s: string): Result<seq<nat>> {
    if !IsServerSeed(s) then Err(BadServerSeed) else
      Ok(seq(32, i requires 0 <= i < 32 => HexDigit(s[2 * i]) * 16 + HexDigit(s[2 * i + 1])))
  }

  function LanePrefix(clientSeed: string, nonce: nat, lane: string): string {
    clientSeed + ":" + Dec(nonce) + ":" + lane
  }

  function LaneIndex(h: Hmac, clientSeed: string, nonce: nat, lane: string, size: nat): Result<nat> {
    match DrawIndex(h, LanePrefix(clientSeed, nonce, lane), size)
    case Index(i) => Ok(i)
    case EmptyMultiset => Err(Error.EmptyMultiset)
    case SamplingFailed => Err(RejectionSamplingFailed)
  }

  // ---------------------------------------------------------------- the pull

  function Ids(items: seq<Item>): (ids: seq<string>)
    ensures |ids| == |items|
    ensures forall i :: 0 <= i < |items| ==> ids[i] == items[i].id
  {
    if |items| == 0 then [] else [items[0].id] + Ids(items[1..])
  }

  function Join(ids: seq<string>): string {
    if |ids| == 0 then "" else if |ids| == 1 then ids[0] else ids[0] + "," + Join(ids[1..])
  }

  function InSupplyHash(crypto: Crypto, ids: seq<string>): string {
    crypto.sha256(Join(Sort(ids)))
  }

  /** The rarity before the item is drawn: raw bucket, rarity after fallback, whether pity applied, final rarity. */
  datatype Rolled = Rolled(bucket: nat, raw: Rarity, pity: bool, final: Rarity)

  function RollRarity(h: Hmac, input: PullInput, clientSeed: string, table: OddsTable): Result<Rolled> {
    var bucket := LaneIndex(h, clientSeed, input.nonce, "rarity", table.totalWeight);
    if bucket.Err? then Err(bucket.error) else
    var tableRarity := BucketRarity(bucket.value, table);
    if tableRarity.Err? then Err(tableRarity.error) else
    var raw := Fallback(tableRarity.value, input.catalog);
    if raw.Err? then Err(raw.error) else
    var pity := ShouldApplyPity(input.pullsSince, raw.value, input.pityRareHard, Stocked(input.catalog, Rare));
    var final := Fallback(if pity then Rare else raw.value, input.catalog);
    if final.Err? then Err(final.error) else
    Ok(Rolled(bucket.value, raw.value, pity, final.value))
  }

  /** The item is indexed in catalog order; the published list is the same items sorted by id. */
  function FinishPull(crypto: Crypto, h: Hmac, input: PullInput, clientSeed: string, rolled: Rolled): Result<PullResult> {
    var items := InSupplyItems(input.catalog, rolled.final);
    if |items| == 0 then Err(NoItemsForRarity) else
    var ids := Ids(items);
    var index := LaneIndex(h, clientSeed, input.nonce, "item", |items|);
    if index.Err? then Err(index.error)
    else if index.value >= |ids| then Err(NoItemsForRarity)
    else Ok(PullResult(
      rolled.final, ids[index.value], rolled.bucket, rolled.pity, NextPityCounter(input.pullsSince, rolled.final),
      InSupplyHash(crypto, ids), Sort(ids), input.serverSeed, crypto.sha256(input.serverSeed),
      clientSeed, input.nonce, input.catalog.oddsTableId, input.catalog.catalogId, input.pityRareHard, input.pullsSince))
  }

  function RollPull(crypto: Crypto, input: PullInput): Result<PullResult> {
    var clientSeed := NormalizeClientSeed(input.clientSeed);
    if clientSeed.Err? then Err(clientSeed.error) else
    var key := SeedToKey(input.serverSeed);
    if key.Err? then Err(key.error) else
    var table := TableById(input.catalog.oddsTableId);
    if table.Err? then Err(table.error) else
    var rolled := RollRarity(crypto.hmac(key.value), input, clientSeed.value, table.value);
    if rolled.Err? then Err(rolled.error) else
    FinishPull(crypto, crypto.hmac(key.value), input, clientSeed.value, rolled.value)
  }

  // ---------------------------------------------------------------- replay

  datatype Receipt = Receipt(
    serverSeed: string, clientSeed: string, nonce: nat, oddsTableId: string, catalogId: string, rarity: Rarity,
    itemId: string, rawBucket: nat, pityRareHard: int, pullsSinceBefore: int, inSupplyHash: string)

  datatype Verdict =
    | Accepted | TableMismatch | CatalogMismatch | ReplayFailed(error: Error)
    | BucketMismatch | RarityMismatch | ItemMismatch | HashMismatch

  function ReplayInput(rec: Receipt, cat: Catalog): PullInput {
    PullInput(cat, rec.pullsSinceBefore, rec.pityRareHard, rec.serverSeed, Some(rec.clientSeed), rec.nonce)
  }

  function VerifyPull(crypto: Crypto, rec: Receipt, cat: Catalog): Verdict {
    if rec.oddsTableId != cat.oddsTableId then TableMismatch
    else if rec.catalogId != cat.catalogId then CatalogMismatch
    else
      match RollPull(crypto, ReplayInput(rec, cat))
      case Err(e) => ReplayFailed(e)
      case Ok(replayed) =>
        if replayed.rawBucket != rec.rawBucket then BucketMismatch
        else if replayed.rarity != rec.rarity then RarityMismatch
        else if replayed.itemId != rec.itemId then ItemMismatch
        else if replayed.inSupplyHash != rec.inSupplyHash then HashMismatch
        else Accepted
  }

  function ReceiptOf(r: PullResult): Receipt {
    Receipt(r.serverSeed, r.clientSeed, r.nonce, r.oddsTableId, r.catalogId, r.rarity,
            r.itemId, r.rawBucket, r.pityRareHard, r.pullsSinceBefore, r.inSupplyHash)
  }

  // ---------------------------------------------------------------- what a pull promises

  lemma {:induction false} FilteredIsExact(cat: Catalog, items: seq<Item>, rarity: Rarity, item: Item)
    ensures item in Filtered(cat, items, rarity) <==> item in items && item.rarity == rarity && InSupply(cat, item)
  {
    if |items| > 0 {
      FilteredIsExact(cat, items[1..], rarity, item);
      assert items == [items[0]] + items[1..];
    }
  }

  lemma FinalIsStocked(cat: Catalog, from: Rarity, to: Rarity)
    requires RollsTo(cat, from, to)
    ensures Stocked(cat, to)
  {
  }

  /** The item has a cap and nothing of it remains. */
  predicate SoldOut(cat: Catalog, item: Item) {
    item.supplyCap.Some? && item.id in cat.remaining && cat.remaining[item.id] <= 0
  }

  lemma SoldOutIs(cat: Catalog, item: Item)
    ensures InSupply(cat, item) <==> !SoldOut(cat, item)
  {
  }

  lemma RollRarityIs(h: Hmac, input: PullInput, clientSeed: string, table: OddsTable)
    requires RollRarity(h, input, clientSeed, table).Ok?
    ensures var r := RollRarity(h, input, clientSeed, table).value;
            && Stocked(input.catalog, r.final)
            && r.final == (if r.pity then Rare else r.raw)
            && BucketRarity(r.bucket, table).Ok?
            && Fallback(BucketRarity(r.bucket, table).value, input.catalog) == Ok(r.raw)
            && r.pity == ShouldApplyPity(input.pullsSince, r.raw, input.pityRareHard, Stocked(input.catalog, Rare))
  {
    hide BucketRarity, LaneIndex, Stocked, RollsTo, Fallback;
    var r := RollRarity(h, input, clientSeed, table).value;
    FallbackIsFirstStocked(input.catalog, BucketRarity(r.bucket, table).value, r.raw);
    FallbackIsFirstStocked(input.catalog, if r.pity then Rare else r.raw, r.final);
    FinalIsStocked(input.catalog, BucketRarity(r.bucket, table).value, r.raw);
    FinalIsStocked(input.catalog, if r.pity then Rare else r.raw, r.final);
  }

  /**
   * A pull hands out an item of the catalog that is in supply and has the rarity announced: the
   * bucket's rarity after fallback, or Rare exactly when pity is due; the published list is those
   * items' ids, sorted, and the published hashes are of that list and of the server seed.
   */
  lemma PullIsHonest(crypto: Crypto, input: PullInput)
    requires RollPull(crypto, input).Ok?
    ensures var r, cat := RollPull(crypto, input).value, input.catalog;
            && (exists item :: item in cat.items && item.id == r.itemId && item.rarity == r.rarity && !SoldOut(cat, item))
            && TableById(cat.oddsTableId).Ok?
            && BucketRarity(r.rawBucket, TableById(cat.oddsTableId).value).Ok?
            && Fallback(BucketRarity(r.rawBucket, TableById(cat.oddsTableId).value).value, cat).Ok?
            && var raw := Fallback(BucketRarity(r.rawBucket, TableById(cat.oddsTableId).value).value, cat).value;
            && (r.pityApplied
                <==> (raw == Common || raw == Uncommon) && 0 < input.pityRareHard <= input.pullsSince && Stocked(cat, Rare))
            && r.rarity == (if r.pityApplied then Rare else raw)
            && r.pullsSinceAfter == (if IsRarePlus(r.rarity) then 0 else input.pullsSince + 1)
            && Sorted(r.inSupplyIds) && multiset(r.inSupplyIds) == multiset(Ids(InSupplyItems(cat, r.rarity)))
            && r.inSupplyHash == crypto.sha256(Join(r.inSupplyIds)) && r.serverSeedCommit == crypto.sha256(input.serverSeed)
  {
    hide RollRarity, LaneIndex, BucketRarity, Fallback, InSupply, Filtered, Sort, Join;
    var seed, key := NormalizeClientSeed(input.clientSeed).value, SeedToKey(input.serverSeed).value;
    var table := TableById(input.catalog.oddsTableId).value;
    var h := crypto.hmac(key);
    RollRarityIs(h, input, seed, table);
    var rolled := RollRarity(h, input, seed, table).value;
    var items := InSupplyItems(input.catalog, rolled.final);
    var i := LaneIndex(h, seed, input.nonce, "item", |items|).value;
    FilteredIsExact(input.catalog, input.catalog.items, rolled.final, items[i]);
    assert items[i] in items;
    SoldOutIs(input.catalog, items[i]);
    SortSorts(Ids(items));
  }

  lemma RarityIgnoresRawSeed(h: Hmac, a: PullInput, b: PullInput, clientSeed: string, table: OddsTable)
    requires b == a.(clientSeed := b.clientSeed)
    ensures RollRarity(h, a, clientSeed, table) == RollRarity(h, b, clientSeed, table)
  {
  }

  /** The receipt of a pull verifies against the catalog it was pulled from. */
  lemma HonestReceiptVerifies(crypto: Crypto, input: PullInput)
    requires RollPull(crypto, input).Ok?
    ensures VerifyPull(crypto, ReceiptOf(RollPull(crypto, input).value), input.catalog) == Accepted
  {
    hide RollRarity, InSupplyHash, LaneIndex;
    var r := RollPull(crypto, input).value;
    var replay := ReplayInput(ReceiptOf(r), input.catalog);
    assert NormalizeClientSeed(replay.clientSeed) == NormalizeClientSeed(input.clientSeed);
    RarityIgnoresRawSeed(crypto.hmac(SeedToKey(input.serverSeed).value), input, replay, r.clientSeed,
                         TableById(input.catalog.oddsTableId).value);
  }

  /** `rec` says what `r` came to: the receipt of `r`, or one whose client seed is only written differently. */
  predicate Reports(rec: Receipt, r: PullResult) {
    rec == ReceiptOf(r).(clientSeed := rec.clientSeed) && NormalizeClientSeed(Some(rec.clientSeed)) == Ok(r.clientSeed)
  }

  /** Replaying from a receipt of a pull is that pull. */
  lemma ReplayIsSame(crypto: Crypto, input: PullInput, rec: Receipt)
    requires RollPull(crypto, input).Ok? && Reports(rec, RollPull(crypto, input).value)
    ensures RollPull(crypto, ReplayInput(rec, input.catalog)) == RollPull(crypto, input)
  {
    hide RollRarity, InSupplyHash, LaneIndex;
    var r := RollPull(crypto, input).value;
    RarityIgnoresRawSeed(crypto.hmac(SeedToKey(input.serverSeed).value), input, ReplayInput(rec, input.catalog), r.clientSeed,
                         TableById(input.catalog.oddsTableId).value);
  }

  /** A receipt verifies exactly when some pull of this catalog came to what it says. */
  lemma OnlyHonestReceiptsVerify(crypto: Crypto, rec: Receipt, cat: Catalog)
    ensures VerifyPull(crypto, rec, cat) == Accepted
            <==> exists input: PullInput ::
                   input.catalog == cat && RollPull(crypto, input).Ok? && Reports(rec, RollPull(crypto, input).value)
  {
    hide RollRarity, InSupplyHash, LaneIndex;
    if VerifyPull(crypto, rec, cat) == Accepted {
      assert Reports(rec, RollPull(crypto, ReplayInput(rec, cat)).value);
    }
    if input: PullInput :| input.catalog == cat && RollPull(crypto, input).Ok? && Reports(rec, RollPull(crypto, input).value) {
      ReplayIsSame(crypto, input, rec);
    }
  }

  /** What a receipt is drawn from. */
  predicate SameDraw(a: Receipt, b: Receipt) {
    && a.serverSeed == b.serverSeed && NormalizeClientSeed(Some(a.clientSeed)) == NormalizeClientSeed(Some(b.clientSeed))
    && a.nonce == b.nonce && a.pityRareHard == b.pityRareHard && a.pullsSinceBefore == b.pullsSinceBefore
  }

  lemma SeedSpellingIsIrrelevant(crypto: Crypto, x: PullInput, y: PullInput)
    requires y == x.(clientSeed := y.clientSeed)
    requires NormalizeClientSeed(x.clientSeed) == NormalizeClientSeed(y.clientSeed)
    ensures RollPull(crypto, x) == RollPull(crypto, y)
  {
    hide RollRarity, InSupplyHash, LaneIndex;
    if NormalizeClientSeed(x.clientSeed).Ok? && SeedToKey(x.serverSeed).Ok? && TableById(x.catalog.oddsTableId).Ok? {
      RarityIgnoresRawSeed(crypto.hmac(SeedToKey(x.serverSeed).value), x, y, NormalizeClientSeed(x.clientSeed).value,
                           TableById(x.catalog.oddsTableId).value);
    }
  }

  /** One outcome per seeds: receipts of one draw that both verify agree in rarity, item, bucket and hash. */
  lemma OneOutcomePerDraw(crypto: Crypto, a: Receipt, b: Receipt, cat: Catalog)
    requires VerifyPull(crypto, a, cat) == Accepted && VerifyPull(crypto, b, cat) == Accepted && SameDraw(a, b)
    ensures a.rarity == b.rarity && a.itemId == b.itemId && a.rawBucket == b.rawBucket && a.inSupplyHash == b.inSupplyHash
  {
    var x, y := ReplayInput(a, cat), ReplayInput(b, cat);
    SeedSpellingIsIrrelevant(crypto, x, y);
    hide RollPull;
  }

  /** Whoever alters the outcome on an honest receipt, in any of its four parts, is refused, with the first part that differs. */
  lemma AlteredReceiptIsRefused(crypto: Crypto, input: PullInput, forged: Receipt)
    requires RollPull(crypto, input).Ok?
    requires var honest := ReceiptOf(RollPull(crypto, input).value);
             && forged != honest
             && forged == honest.(rarity := forged.rarity, itemId := forged.itemId,
                                  rawBucket := forged.rawBucket, inSupplyHash := forged.inSupplyHash)
    ensures var honest := ReceiptOf(RollPull(crypto, input).value);
            VerifyPull(crypto, forged, input.catalog)
            == if forged.rawBucket != honest.rawBucket then BucketMismatch
               else if forged.rarity != honest.rarity then RarityMismatch
               else if forged.itemId != honest.itemId then ItemMismatch
               else HashMismatch
  {
    ReplayIsSame(crypto, input, ReceiptOf(RollPull(crypto, input).value));
    hide RollPull;
  }

  /** Under one client seed no two samples, and no two tries of one sample, share a message. */
  lemma LaneMessagesDiffer(cs: string, n: nat, lane: string, c: nat,
                                              n': nat, lane': string, c': nat)
    requires ':' !in lane && ':' !in lane'
    requires Message(LanePrefix(cs, n, lane), c) == Message(LanePrefix(cs, n', lane'), c')
    ensures n == n' && lane == lane' && c == c'
  {
    hide Dec;
    assert ':' !in Dec(c) && ':' !in Dec(c');
    SplitAtLast(LanePrefix(cs, n, lane), Dec(c), LanePrefix(cs, n', lane'), Dec(c'), ':');
    SplitAtLast(cs + ":" + Dec(n), lane, cs + ":" + Dec(n'), lane', ':');
    PrefixCancels(cs + ":", Dec(n), Dec(n'));
    DecInjective(c, c');
    DecInjective(n, n');
  }

  // ---------------------------------------------------------------- pity over whole runs

  function ResultOf(crypto: Crypto, input: PullInput): PullResult
    requires RollPull(crypto, input).Ok?
  {
    RollPull(crypto, input).value
  }

  /** Successive pulls of one locker under threshold `hard`: each starts from the counter the last one left. */
  ghost predicate PullRun(crypto: Crypto, pulls: seq<PullInput>, hard: int) {
    && (forall i :: 0 <= i < |pulls| ==> RollPull(crypto, pulls[i]).Ok? && pulls[i].pityRareHard == hard)
    && forall i :: 0 < i < |pulls| ==> pulls[i].pullsSince == ResultOf(crypto, pulls[i - 1]).pullsSinceAfter
  }

  ghost predicate RareStockedThroughout(pulls: seq<PullInput>) {
    forall i :: 0 <= i < |pulls| ==> Stocked(pulls[i].catalog, Rare)
  }

  lemma OnePull(crypto: Crypto, input: PullInput)
    requires RollPull(crypto, input).Ok?
    ensures var r := ResultOf(crypto, input);
            && r.pullsSinceAfter == (if IsRarePlus(r.rarity) then 0 else input.pullsSince + 1)
            && (Stocked(input.catalog, Rare) && input.pityRareHard >= 1 && input.pullsSince >= input.pityRareHard
                ==> IsRarePlus(r.rarity))
            && Stocked(input.catalog, r.rarity)
  {
    hide RollPull, Fallback, BucketRarity, InSupply;
    PullIsHonest(crypto, input);
    var r := ResultOf(crypto, input);
    var item :| item in input.catalog.items && item.id == r.itemId && item.rarity == r.rarity
                && !SoldOut(input.catalog, item);
    SoldOutIs(input.catalog, item);
    FilteredIsExact(input.catalog, input.catalog.items, r.rarity, item);
  }

  /** The counter never exceeds the threshold from a start of at most the threshold. */
  lemma {:induction false} CounterIsBounded(crypto: Crypto, pulls: seq<PullInput>, hard: int, i: nat)
    requires PullRun(crypto, pulls, hard) && RareStockedThroughout(pulls) && hard >= 1
    requires i < |pulls| && pulls[0].pullsSince <= hard
    ensures pulls[i].pullsSince <= hard
    ensures ResultOf(crypto, pulls[i]).pullsSinceAfter <= hard
  {
    hide RollPull, Stocked;
    if i > 0 {
      CounterIsBounded(crypto, pulls, hard, i - 1);
    }
    OnePull(crypto, pulls[i]);
  }

  lemma {:induction false} CounterClimbs(crypto: Crypto, pulls: seq<PullInput>, hard: int, from: nat, k: nat)
    requires PullRun(crypto, pulls, hard) && from + k < |pulls|
    requires forall i :: from <= i < from + k ==> !IsRarePlus(ResultOf(crypto, pulls[i]).rarity)
    ensures pulls[from + k].pullsSince == pulls[from].pullsSince + k
  {
    hide RollPull, Stocked;
    if k > 0 {
      CounterClimbs(crypto, pulls, hard, from, k - 1);
      OnePull(crypto, pulls[from + k - 1]);
    }
  }

  lemma {:induction false} CounterNonNegative(crypto: Crypto, pulls: seq<PullInput>, hard: int, i: nat)
    requires PullRun(crypto, pulls, hard) && i < |pulls| && pulls[0].pullsSince >= 0
    ensures pulls[i].pullsSince >= 0
  {
    hide RollPull, Stocked;
    if i > 0 {
      CounterNonNegative(crypto, pulls, hard, i - 1);
      OnePull(crypto, pulls[i - 1]);
    }
  }

  /** Hard pity: any `hard` + 1 consecutive pulls of a run contain a Rare or better. */
  lemma HardPityHolds(crypto: Crypto, pulls: seq<PullInput>, hard: int, from: nat)
    requires PullRun(crypto, pulls, hard) && RareStockedThroughout(pulls) && hard >= 1
    requires from + hard < |pulls| && pulls[0].pullsSince <= hard && pulls[0].pullsSince >= 0
    ensures exists i :: from <= i <= from + hard && IsRarePlus(ResultOf(crypto, pulls[i]).rarity)
  {
    hide RollPull, Stocked;
    if forall i :: from <= i <= from + hard ==> !IsRarePlus(ResultOf(crypto, pulls[i]).rarity) {
      CounterClimbs(crypto, pulls, hard, from, hard);
      CounterNonNegative(crypto, pulls, hard, from);
      OnePull(crypto, pulls[from + hard]);
    }
  }

  /** With neither Rare nor Ultra in supply no pull is ever Rare or better, whatever the counter says. */
  lemma NothingRareWithoutSupply(crypto: Crypto, input: PullInput)
    requires RollPull(crypto, input).Ok?
    requires !Stocked(input.catalog, Rare) && !Stocked(input.catalog, Ultra)
    ensures !IsRarePlus(ResultOf(crypto, input).rarity)
  {
    OnePull(crypto, input);
  }
}
