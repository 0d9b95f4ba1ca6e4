/**
 * Unbiased indices by rejection sampling on HMAC digests: hmacDrawIndex of
 * packages/blackjack/src/engine.ts and hmacIndex of packages/gacha/src/rng.ts, which differ only in
 * the message they authenticate. The digest is a parameter, read as a 32-bit number.
 */
module Sampler {
  import opened Text
  import Radix

  type Digest32 = n: nat | n < 0x1_0000_0000

  /** HMAC-SHA256 under a fixed key, as a function from the message to its first 32 bits. */
  type Hmac = string -> Digest32

  datatype Sample = Index(i: nat) | EmptyMultiset | SamplingFailed

  const MAX_U32 := 0x1_0000_0000
  const REJECT_CAP := 1000

  /** The largest multiple of `size` not above `bound`. */
  function LargestMultiple(bound: nat, size: nat): nat
    requires size > 0
    decreases bound
  {
    if bound < size then 0 else size + LargestMultiple(bound - size, size)
  }

  /** What is left of `n` once `size` has been taken away as often as possible. */
  function Remainder(n: nat, size: nat): (r: nat)
    requires size > 0
    ensures r < size
    decreases n
  {
    if n < size then n else Remainder(n - size, size)
  }

  /** Digests below this are accepted. */
  function Limit(size: nat): nat
    requires size > 0
  {
    LargestMultiple(MAX_U32, size)
  }

  lemma {:induction false} RemainderIs(n: nat, size: nat)
    requires size > 0
    ensures Remainder(n, size) == n % size
    decreases n
  {
    if n < size {
      Radix.DivMod(n, 0, n, size);
    } else {
      RemainderIs(n - size, size);
      var q, r := (n - size) / size, (n - size) % size;
      Radix.Distribute(q, 1, size);
      Radix.DivMod(n, q + 1, r, size);
    }
  }

  lemma {:induction false} LargestMultipleIs(bound: nat, size: nat)
    requires size > 0
    ensures LargestMultiple(bound, size) == (bound / size) * size == bound - bound % size
    decreases bound
  {
    var q, r := bound / size, bound % size;
    assert bound == q * size + r;
    if bound < size {
      Radix.DivMod(bound, 0, bound, size);
    } else {
      LargestMultipleIs(bound - size, size);
      Radix.CompareQuotients(0, size - 1, q, size);
      Radix.Distribute(q - 1, 1, size);
      Radix.DivMod(bound - size, q - 1, r, size);
    }
  }

  function Message(prefix: string, counter: nat): string {
    prefix + ":" + Dec(counter)
  }

  /** Try digests from `counter` on until one is below the limit. */
  function SampleFrom(h: Hmac, prefix: string, size: nat, counter: nat): Sample
    requires size > 0 && counter <= REJECT_CAP + 1
    decreases REJECT_CAP + 1 - counter
  {
    if counter > REJECT_CAP then SamplingFailed
    else if h(Message(prefix, counter)) < Limit(size) then Index(Remainder(h(Message(prefix, counter)), size))
    else SampleFrom(h, prefix, size, counter + 1)
  }

  function DrawIndex(h: Hmac, prefix: string, size: nat): Sample {
    if size == 0 then EmptyMultiset else SampleFrom(h, prefix, size, 0)
  }

  /** Lines 61-81 of engine.ts, lines 25-43 of rng.ts. */
  method HmacIndex(h: Hmac, prefix: string, size: nat) returns (r: Sample)
    ensures r == DrawIndex(h, prefix, size)
  {
    if size == 0 {
      return EmptyMultiset;
    }
    var limit := MAX_U32 - MAX_U32 % size;
    LargestMultipleIs(MAX_U32, size);
    var counter := 0;
    while true
      invariant counter <= REJECT_CAP
      invariant DrawIndex(h, prefix, size) == SampleFrom(h, prefix, size, counter)
      decreases REJECT_CAP - counter
    {
      var n := h(Message(prefix, counter));
      if n < limit {
        RemainderIs(n, size);
        return Index(n % size);
      }
      counter := counter + 1;
      if counter > REJECT_CAP {
        return SamplingFailed;
      }
    }
  }

  predicate Rejects(h: Hmac, prefix: string, size: nat, counter: nat)
    requires size > 0
  {
    h(Message(prefix, counter)) >= Limit(size)
  }

  lemma {:induction false} FirstAcceptedFrom(h: Hmac, prefix: string, size: nat, counter: nat)
    requires size > 0 && counter <= REJECT_CAP + 1
    requires forall j: nat :: j < counter ==> Rejects(h, prefix, size, j)
    ensures match SampleFrom(h, prefix, size, counter)
            case Index(i) =>
              && i < size
              && exists c: nat :: c <= REJECT_CAP && !Rejects(h, prefix, size, c)
                                  && i == Remainder(h(Message(prefix, c)), size)
                                  && forall j: nat :: j < c ==> Rejects(h, prefix, size, j)
            case EmptyMultiset => false
            case SamplingFailed => forall j: nat :: j <= REJECT_CAP ==> Rejects(h, prefix, size, j)
    decreases REJECT_CAP + 1 - counter
  {
    if counter <= REJECT_CAP {
      if Rejects(h, prefix, size, counter) {
        FirstAcceptedFrom(h, prefix, size, counter + 1);
      }
    }
  }

  /** The first digest that is not rejected, among the first 1001, gives the index. */
  lemma DrawIndexIsFirstAccepted(h: Hmac, prefix: string, size: nat)
    requires size > 0
    ensures match DrawIndex(h, prefix, size)
            case Index(i) =>
              && i < size
              && exists c: nat :: c <= 1000 && !Rejects(h, prefix, size, c)
                                  && i == Remainder(h(Message(prefix, c)), size)
                                  && forall j: nat :: j < c ==> Rejects(h, prefix, size, j)
            case EmptyMultiset => false
            case SamplingFailed => forall j: nat :: j <= 1000 ==> Rejects(h, prefix, size, j)
  {
    FirstAcceptedFrom(h, prefix, size, 0);
  }

  // ---------------------------------------------------------------- counting

  /** How many of the numbers below `n` satisfy `p`. */
  function Count(n: nat, p: nat -> bool): nat {
    if n == 0 then 0 else Count(n - 1, p) + if p(n - 1) then 1 else 0
  }

  ghost function SetBelow(n: nat, p: nat -> bool): set<nat> {
    set i: nat | i < n && p(i)
  }

  lemma {:induction false} CountIsCardinality(n: nat, p: nat -> bool)
    ensures Count(n, p) == |SetBelow(n, p)|
  {
    if n == 0 {
      assert SetBelow(n, p) == {};
    } else {
      CountIsCardinality(n - 1, p);
      if p(n - 1) {
        assert SetBelow(n, p) == SetBelow(n - 1, p) + {n - 1};
      } else {
        assert SetBelow(n, p) == SetBelow(n - 1, p);
      }
    }
  }

  lemma {:induction false} CountSame(n: nat, p: nat -> bool, q: nat -> bool)
    requires forall i: nat :: i < n ==> p(i) == q(i)
    ensures Count(n, p) == Count(n, q)
  {
    if n > 0 {
      CountSame(n - 1, p, q);
    }
  }

  function Shift(p: nat -> bool, d: nat): nat -> bool {
    (i: nat) => p(d + i)
  }

  lemma {:induction false} CountSplit(m: nat, n: nat, p: nat -> bool)
    ensures Count(m + n, p) == Count(m, p) + Count(n, Shift(p, m))
  {
    if n > 0 {
      CountSplit(m, n - 1, p);
    }
  }

  /** The digests whose remainder by `size` satisfies `p`. */
  function ByRemainder(p: nat -> bool, size: nat): nat -> bool
    requires size > 0
  {
    (n: nat) => p(Remainder(n, size))
  }

  lemma OneBlock(q: nat, done: nat, size: nat, p: nat -> bool)
    requires size > 0 && done == q * size
    ensures Count(size, Shift(ByRemainder(p, size), done)) == Count(size, p)
  {
    forall i: nat | i < size
      ensures Shift(ByRemainder(p, size), done)(i) == p(i)
    {
      Radix.DivMod(done + i, q, i, size);
      RemainderIs(done + i, size);
    }
    CountSame(size, Shift(ByRemainder(p, size), done), p);
  }

  /** A property of the remainder is met equally often in every block of `size` numbers. */
  lemma {:induction false} CountBlocks(blocks: nat, size: nat, p: nat -> bool)
    requires size > 0
    ensures Count(blocks * size, ByRemainder(p, size)) == blocks * Count(size, p)
  {
    if blocks > 0 {
      var done := (blocks - 1) * size;
      CountBlocks(blocks - 1, size, p);
      CountSplit(done, size, ByRemainder(p, size));
      OneBlock(blocks - 1, done, size, p);
      Radix.Distribute(blocks - 1, 1, size);
      Radix.Distribute(blocks - 1, 1, Count(size, p));
    }
  }

  lemma {:induction false} CountOne(n: nat, k: nat)
    ensures Count(n, (i: nat) => i == k) == if k < n then 1 else 0
  {
    if n > 0 {
      CountOne(n - 1, k);
    }
  }

  lemma LimitIsMultiple(size: nat)
    requires 0 < size <= MAX_U32
    ensures Limit(size) == (MAX_U32 / size) * size
    ensures Limit(size) / size == MAX_U32 / size >= 1
    ensures MAX_U32 - size < Limit(size) <= MAX_U32
  {
    var q := MAX_U32 / size;
    LargestMultipleIs(MAX_U32, size);
    Radix.DivMod(q * size, q, 0, size);
    if size < MAX_U32 {
      assert q >= 1;
    }
  }

  /** How many accepted digests lead to an index with property `p`. */
  function AcceptedWith(size: nat, p: nat -> bool): nat
    requires size > 0
  {
    Count(Limit(size), ByRemainder(p, size))
  }

  /** Every property of the index is met by exactly limit/size digests for each index that has it. */
  lemma {:induction false} SamplingIsUniform(size: nat, p: nat -> bool)
    requires 0 < size <= MAX_U32
    ensures AcceptedWith(size, p) == (Limit(size) / size) * Count(size, p)
  {
    LimitIsMultiple(size);
    CountBlocks(MAX_U32 / size, size, p);
  }

  /**
   * Rejection sampling is unbiased: for every size from 1 to 2^32 each index is the result of exactly
   * limit/size of the accepted digests, and more than half of all digests are accepted.
   */
  lemma SamplingIsUnbiased(size: nat, k: nat)
    requires 0 < size <= MAX_U32 && k < size
    ensures |SetBelow(Limit(size), ByRemainder((i: nat) => i == k, size))| == Limit(size) / size
    ensures 2 * Limit(size) > MAX_U32
  {
    var p := (i: nat) => i == k;
    SamplingIsUniform(size, p);
    CountOne(size, k);
    CountIsCardinality(Limit(size), ByRemainder(p, size));
    LimitIsMultiple(size);
  }

  /** Above 2^32 nothing is ever accepted, so the bound on the size is exact. */
  lemma TooManyChoicesAlwaysFail(h: Hmac, prefix: string, size: nat)
    requires size > MAX_U32
    ensures DrawIndex(h, prefix, size) == SamplingFailed
  {
    LargestMultipleIs(MAX_U32, size);
    assert MAX_U32 % size == MAX_U32;
    DrawIndexIsFirstAccepted(h, prefix, size);
  }

  function Constant(d: Digest32): Hmac { (message: string) => d }

  /** If every digest is the largest, every one of the 1001 tries fails, for sizes that do not divide 2^32. */
  lemma TopDigestFails(prefix: string, size: nat)
    requires size > 0 && MAX_U32 % size != 0
    ensures DrawIndex(Constant(0xFFFF_FFFF), prefix, size) == SamplingFailed
  {
    hide SampleFrom, Message;
    LargestMultipleIs(MAX_U32, size);
    DrawIndexIsFirstAccepted(Constant(0xFFFF_FFFF), prefix, size);
  }

  /** If every digest is zero, the first try succeeds with the first index. */
  lemma ZeroDigestIsFirst(prefix: string, size: nat)
    requires 0 < size <= MAX_U32
    ensures DrawIndex(Constant(0), prefix, size) == Index(0)
  {
    hide Message;
    LimitIsMultiple(size);
    RemainderIs(0, size);
  }

  /** Different counters authenticate different messages. */
  lemma MessagesDiffer(prefix: string, c: nat, d: nat)
    requires Message(prefix, c) == Message(prefix, d)
    ensures c == d
  {
    assert Message(prefix, c) == (prefix + ":") + Dec(c);
    assert Message(prefix, d) == (prefix + ":") + Dec(d);
    PrefixCancels(prefix + ":", Dec(c), Dec(d));
    DecInjective(c, d);
  }

  // ---------------------------------------------------------------- one digest decides

  /** `d` is the first digest under the prefix that the sampler accepts for `size` choices. */
  ghost predicate FirstAccepted(h: Hmac, prefix: string, size: nat, d: nat)
    requires size > 0
  {
    d < MAX_U32 && exists c: nat :: c <= 1000 && h(Message(prefix, c)) == d && d < Limit(size)
                                    && forall j: nat :: j < c ==> h(Message(prefix, j)) >= Limit(size)
  }

  lemma ConstantDraws(d: nat, prefix: string, size: nat)
    requires size > 0 && d < MAX_U32 && d < Limit(size)
    ensures DrawIndex(Constant(d), prefix, size) == Index(Remainder(d, size))
  {
    hide Message;
  }

  /** A sample is that of its first accepted digest alone, or fails with 1001 digests rejected. */
  lemma OneDigestDecides(h: Hmac, prefix: string, size: nat)
    requires size > 0
    ensures (exists d :: FirstAccepted(h, prefix, size, d) && DrawIndex(h, prefix, size) == DrawIndex(Constant(d), prefix, size))
            || (DrawIndex(h, prefix, size) == SamplingFailed && forall j: nat :: j <= 1000 ==> h(Message(prefix, j)) >= Limit(size))
  {
    hide Limit, Message, SampleFrom, Remainder;
    DrawIndexIsFirstAccepted(h, prefix, size);
    if DrawIndex(h, prefix, size).Index? {
      var c: nat :| c <= REJECT_CAP && !Rejects(h, prefix, size, c)
                    && DrawIndex(h, prefix, size).i == Remainder(h(Message(prefix, c)), size)
                    && forall j: nat :: j < c ==> Rejects(h, prefix, size, j);
      var d: nat := h(Message(prefix, c));
      assert forall j: nat :: j < c ==> Rejects(h, prefix, size, j) ==> h(Message(prefix, j)) >= Limit(size);
      ConstantDraws(d, prefix, size);
      assert FirstAccepted(h, prefix, size, d);
    } else {
      assert forall j: nat :: j <= REJECT_CAP ==> Rejects(h, prefix, size, j) ==> h(Message(prefix, j)) >= Limit(size);
    }
  }
}
