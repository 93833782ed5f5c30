/**
 The control flow of ed25519_sign_open_batch. The result is stated exactly: which signatures are reported good, and both
 bits of the return value, in terms of the point each batch's multi-scalar multiplication returned.
 */
module BatchOpen {
  import opened Numbers
  import opened Bytes
  import opened Scalars
  import opened Groups
  import opened EdwardsLaw
  import opened EdwardsFormulas
  import opened ScalarMult
  import opened BaseMult
  import opened Signatures
  import opened PointBytes
  import opened BatchEquation

  // ---------- the control flow ----------

  /** Where batches start, and how many signatures they take. */
  predicate IsBatch(total: nat, at: nat) {
    at % 64 == 0 && at < total && total - at > 3
  }

  function BatchSize(total: nat, at: nat): nat
    requires at <= total
  {
    if total - at > 64 then 64 else total - at
  }

  /**
   Signature i is checked in a batch, the one that starts at the multiple of 64 below it, exactly when more than three
   are left there; the rest, at most three, are the last.
   */
  lemma BatchedIff(total: nat, i: nat, at: nat)
    requires i < total
    ensures IsBatch(total, at) && at <= i < at + BatchSize(total, at)
            <==> at == i - i % 64 && (i / 64 < total / 64 || total % 64 > 3)
    ensures IsBatch(total, at) ==> BatchSize(total, at) == if at / 64 < total / 64 then 64 else total % 64
  {
    var a, n := i / 64, total / 64;
    assert i == 64 * a + i % 64 && total == 64 * n + total % 64;
  }

  ghost function BatchShares(items: seq<Entry>, random: seq<seq<u8>>, at: nat): seq<Share>
    requires Inputs(items, random) && at <= |items|
  {
    var to := at + BatchSize(|items|, at);
    Shares(items[at..to], random[at..to])
  }

  ghost predicate BatchDecodes(items: seq<Entry>, at: nat)
    requires at <= |items|
  {
    forall k :: at <= k < at + BatchSize(|items|, at) ==> Decodes(items[k])
  }

  /** The batch at this place was decoded and came to the identity. */
  ghost predicate Neutral(items: seq<Entry>, returned: seq<CurvePoint>, at: nat)
    requires |returned| == |items|
  {
    IsBatch(|items|, at) && BatchDecodes(items, at) && returned[at] == Point(0, 1)
  }

  ghost predicate FellBack(items: seq<Entry>, returned: seq<CurvePoint>, at: nat)
    requires |returned| == |items|
  {
    IsBatch(|items|, at) && BatchDecodes(items, at) && returned[at] != Point(0, 1)
  }

  /** `returned` holds, at the place a decoded batch starts, the point its multiplication gave. */
  ghost predicate AllReturned(items: seq<Entry>, random: seq<seq<u8>>, b: CurvePoint, returned: seq<CurvePoint>,
      to: nat)
    requires Inputs(items, random) && |returned| == |items|
  {
    forall at :: 0 <= at < to && IsBatch(|items|, at) && BatchDecodes(items, at) ==>
      Returned(BatchShares(items, random, at), b, returned[at])
  }

  /** A signature is reported good if it is, or if its whole batch came to the identity. */
  ghost predicate Judged(items: seq<Entry>, b: CurvePoint, returned: seq<CurvePoint>, valid: seq<bool>, to: nat)
    requires |returned| == |items| == |valid| && forall k :: 0 <= k < |items| ==> Sized(items[k])
  {
    forall i :: 0 <= i < |items| && i < to ==>
        (valid[i] <==> Good(items[i], b) || Neutral(items, returned, 64 * (i / 64)))
  }

  /** Bit 0: some signature is reported bad. Bit 1: some batch was decoded and did not come to the identity. */
  ghost predicate ReturnBits(items: seq<Entry>, returned: seq<CurvePoint>, valid: seq<bool>, ret: nat, to: nat)
    requires |returned| == |items| == |valid|
  {
    && ret < 4
    && (ret % 2 == 1 <==> exists i :: 0 <= i < |items| && i < to && !valid[i])
    && (ret / 2 == 1 <==> exists at :: 0 <= at < to && FellBack(items, returned, at))
  }

  /** Everything ed25519_sign_open_batch leaves behind. */
  ghost predicate Outcome(items: seq<Entry>, random: seq<seq<u8>>, b: CurvePoint, returned: seq<CurvePoint>,
      valid: seq<bool>, ret: nat)
    requires Inputs(items, random) && |returned| == |items| == |valid|
  {
    && AllReturned(items, random, b, returned, |items|)
    && Judged(items, b, returned, valid, |items|)
    && ReturnBits(items, returned, valid, ret, |items|)
  }

  /** Signatures checked one at a time: the fallback and the last few. */
  method OneByOne(valid: array<bool>, from: nat, to: nat, items: seq<Entry>, ret: nat, table: seq<Niels>,
      ghost b: CurvePoint, ghost region: set<array<u64>>) returns (out: nat)
    requires CurveLaws() && valid.Length == |items| && from <= to <= |items| && SlidingMultiples(table, b, region)
    requires forall i :: 0 <= i < |items| ==> Sized(items[i])
    modifies valid
    ensures forall i :: from <= i < to ==> (valid[i] <==> Good(items[i], b))
    ensures forall i :: 0 <= i < |items| && !(from <= i < to) ==> valid[i] == old(valid[i])
    ensures out % 2 == 1 <==> ret % 2 == 1 || exists i :: from <= i < to && !valid[i]
    ensures out / 2 == ret / 2
  {
    hide CurveLaws;
    hide OnCurve;
    hide Accepts;
    hide Or;
    hide SlidingMultiples;
    out := ret;
    ghost var was := valid[..];
    var i := from;
    while i < to
      invariant from <= i <= to
      invariant forall k :: from <= k < i ==> (valid[k] <==> Good(items[k], b))
      invariant forall k :: 0 <= k < |items| && !(from <= k < i) ==> valid[k] == was[k]
      invariant out % 2 == 1 <==> ret % 2 == 1 || exists k :: from <= k < i && !valid[k]
      invariant out / 2 == ret / 2
    {
      var good := SignOpen(items[i].m, items[i].pk, items[i].rs, table, b, region);
      valid[i] := good;
      OrBits(out, if good then 0 else 1);
      out := Or(out, if good then 0 else 1);
      i := i + 1;
    }
  }

  lemma OrBits(x: nat, y: nat)
    ensures y <= 1 ==> Or(x, y) % 2 == (if x % 2 == 1 || y == 1 then 1 else 0) && Or(x, y) / 2 == x / 2
    ensures y == 2 && x < 4 ==> Or(x, y) % 2 == x % 2 && Or(x, y) / 2 == 1
  {
    BitSteps(x, y);
    BitSteps(x / 2, y / 2);
    OrZero(x / 2);
    OrZero(x / 2 / 2);
  }

  /** The batch at `at` is decided: with a new returned point, and its signatures good or checked one at a time. */
  lemma BatchDone(items: seq<Entry>, random: seq<seq<u8>>, b: CurvePoint, was: seq<CurvePoint>,
      returned: seq<CurvePoint>, before: seq<bool>, valid: seq<bool>, ret: nat, out: nat, at: nat)
    requires Inputs(items, random) && |was| == |returned| == |items| == |before| == |valid| && IsBatch(|items|, at)
    requires AllReturned(items, random, b, was, at) && Judged(items, b, was, before, at)
    requires ReturnBits(items, was, before, ret, at)
    requires forall k :: 0 <= k < at ==> returned[k] == was[k] && valid[k] == before[k]
    requires BatchDecodes(items, at) ==> Returned(BatchShares(items, random, at), b, returned[at])
    requires var to := at + BatchSize(|items|, at);
      if Neutral(items, returned, at) then out == ret && forall k :: at <= k < to ==> valid[k]
      else && (forall k :: at <= k < to ==> (valid[k] <==> Good(items[k], b)))
           && (out % 2 == 1 <==> ret % 2 == 1 || exists k :: at <= k < to && !valid[k])
           && out / 2 == (if BatchDecodes(items, at) then 1 else ret / 2) && out < 4
    ensures var to := at + BatchSize(|items|, at);
      AllReturned(items, random, b, returned, to) && Judged(items, b, returned, valid, to)
      && ReturnBits(items, returned, valid, out, to)
  {
    hide Good;
    hide BatchDecodes;
    hide Returned;
    hide BatchShares;
    hide Shares;
    hide OnCurve;
    var to := at + BatchSize(|items|, at);
    OnlyBatch(|items|, at);
    forall i | 0 <= i < |items| && i < to
      ensures valid[i] <==> Good(items[i], b) || Neutral(items, returned, 64 * (i / 64))
    {
      SameBatch(i, at);
    }
    BitsKept(items, was, returned, before, valid, at);
    BitsGrow(items, returned, valid, at);
  }

  lemma BitsGrow(items: seq<Entry>, returned: seq<CurvePoint>, valid: seq<bool>, at: nat)
    requires |returned| == |items| == |valid| && IsBatch(|items|, at)
    ensures var to := at + BatchSize(|items|, at);
      && ((exists i :: 0 <= i < |items| && i < to && !valid[i])
          <==> (exists i :: 0 <= i < |items| && i < at && !valid[i]) || exists k :: at <= k < to && !valid[k])
      && ((exists s :: 0 <= s < to && FellBack(items, returned, s))
          <==> (exists s :: 0 <= s < at && FellBack(items, returned, s)) || FellBack(items, returned, at))
  {
    hide BatchDecodes;
    hide OnCurve;
    OnlyBatch(|items|, at);
  }

  lemma OnlyBatch(total: nat, at: nat)
    requires IsBatch(total, at)
    ensures forall s :: at < s < at + BatchSize(total, at) ==> !IsBatch(total, s)
  {
  }

  lemma SameBatch(i: nat, at: nat)
    requires at % 64 == 0 && i < at + 64
    ensures i < at ==> 64 * (i / 64) < at
    ensures at <= i ==> 64 * (i / 64) == at
  {
  }

  lemma BitsKept(items: seq<Entry>, was: seq<CurvePoint>, returned: seq<CurvePoint>, before: seq<bool>,
      valid: seq<bool>, at: nat)
    requires |was| == |returned| == |items| == |before| == |valid|
    requires forall k :: 0 <= k < at && k < |items| ==> returned[k] == was[k] && valid[k] == before[k]
    ensures (exists i :: 0 <= i < |items| && i < at && !before[i]) <==> exists i ::
        0 <= i < |items| && i < at && !valid[i]
    ensures (exists s :: 0 <= s < at && FellBack(items, was, s)) <==> exists s ::
        0 <= s < at && FellBack(items, returned, s)
  {
    hide BatchDecodes;
    hide OnCurve;
    forall s | 0 <= s < at
      ensures FellBack(items, was, s) <==> FellBack(items, returned, s)
    {
    }
  }

  /** The last three or fewer, checked one at a time. */
  lemma LastDone(items: seq<Entry>, random: seq<seq<u8>>, b: CurvePoint, returned: seq<CurvePoint>,
      before: seq<bool>, valid: seq<bool>, ret: nat, out: nat, at: nat)
    requires Inputs(items, random) && |returned| == |items| == |before| == |valid| && |items| - 3 <= at <= |items|
    requires at % 64 == 0 || at == |items|
    requires AllReturned(items, random, b, returned, at) && Judged(items, b, returned, before, at)
    requires ReturnBits(items, returned, before, ret, at)
    requires forall k :: 0 <= k < at ==> valid[k] == before[k]
    requires forall k :: at <= k < |items| ==> (valid[k] <==> Good(items[k], b))
    requires (out % 2 == 1 <==> ret % 2 == 1 || exists k :: at <= k < |items| && !valid[k]) && out / 2 == ret / 2
    ensures Outcome(items, random, b, returned, valid, out)
  {
    hide Good;
    hide BatchDecodes;
    hide Returned;
    hide BatchShares;
    hide Shares;
    hide OnCurve;
    forall i | 0 <= i < |items|
      ensures valid[i] <==> Good(items[i], b) || Neutral(items, returned, 64 * (i / 64))
    {
      if at <= i {
        SameBatch(i, at);
      }
    }
    BitsKept(items, returned, returned, before, valid, at);
    forall s | at <= s < |items|
      ensures !IsBatch(|items|, s)
    {
    }
  }

  /** ed25519_sign_open_batch; `returned` is what each batch's multiplication gave, at the place the batch starts. */
  method SignOpenBatch(items: seq<Entry>, random: seq<seq<u8>>, valid: array<bool>, base: CurvePoint, table: seq<Niels>,
      ghost region: set<array<u64>>) returns (ret: nat, ghost returned: seq<CurvePoint>)
    requires CurveLaws() && Inputs(items, random) && valid.Length == |items| && SlidingMultiples(table, base, region)
    requires forall at: nat ::
        IsBatch(|items|, at) && BatchDecodes(items, at) ==> BatchReady(BatchShares(items, random, at))
    modifies valid
    ensures |returned| == |items| && Outcome(items, random, base, returned, valid[..], ret)
  {
    hide CurveLaws;
    hide OnCurve;
    hide Good;
    hide Or;
    hide SlidingMultiples;
    hide BatchDecodes;
    hide Shares;
    hide Returned;
    hide BatchReady;
    hide AllReturned;
    hide Judged;
    ret := 0;
    returned := seq(|items|, i => base);
    var i := 0;
    while i < |items|
      invariant 0 <= i <= |items| && forall k :: 0 <= k < i ==> valid[k]
    {
      valid[i] := true;
      i := i + 1;
    }
    var at := 0;
    NothingYet(items, random, base, returned, valid[..]);
    while |items| - at > 3
      invariant 0 <= at <= |items| && (at % 64 == 0 || at == |items|) && |returned| == |items|
      invariant forall k :: at <= k < |items| ==> valid[k]
      invariant AllReturned(items, random, base, returned, at) && Judged(items, base, returned, valid[..], at)
      invariant ReturnBits(items, returned, valid[..], ret, at)
      decreases |items| - at
    {
      ret, returned := OneBatch(items, random, valid, base, table, at, ret, returned, region);
      at := at + BatchSize(|items|, at);
    }
    ghost var before, bits := valid[..], ret;
    ret := OneByOne(valid, at, |items|, items, ret, table, base, region);
    LastDone(items, random, base, returned, before, valid[..], bits, ret, at);
  }

  lemma NothingYet(items: seq<Entry>, random: seq<seq<u8>>, b: CurvePoint, returned: seq<CurvePoint>, valid: seq<bool>)
    requires Inputs(items, random) && |returned| == |items| == |valid|
    ensures AllReturned(items, random, b, returned, 0) && Judged(items, b, returned, valid, 0)
    ensures ReturnBits(items, returned, valid, 0, 0)
  {
  }

  /** One batch: its equation, and its signatures one at a time where that does not settle them. */
  method OneBatch(items: seq<Entry>, random: seq<seq<u8>>, valid: array<bool>, base: CurvePoint, table: seq<Niels>,
      at: nat, ret: nat, ghost was: seq<CurvePoint>, ghost region: set<array<u64>>)
    returns (out: nat, ghost returned: seq<CurvePoint>)
    requires CurveLaws() && Inputs(items, random) && valid.Length == |items| && SlidingMultiples(table, base, region)
    requires IsBatch(|items|, at) && |was| == |items|
    requires BatchDecodes(items, at) ==> BatchReady(BatchShares(items, random, at))
    requires forall k :: at <= k < |items| ==> valid[k]
    requires AllReturned(items, random, base, was, at) && Judged(items, base, was, valid[..], at)
    requires ReturnBits(items, was, valid[..], ret, at)
    modifies valid
    ensures |returned| == |items|
    ensures forall k :: at + BatchSize(|items|, at) <= k < |items| ==> valid[k]
    ensures var to := at + BatchSize(|items|, at);
      AllReturned(items, random, base, returned, to) && Judged(items, base, returned, valid[..], to)
      && ReturnBits(items, returned, valid[..], out, to)
  {
    hide CurveLaws;
    hide OnCurve;
    hide Good;
    hide Or;
    hide SlidingMultiples;
    hide Decodes;
    hide Shares;
    hide Returned;
    hide BatchReady;
    hide AllReturned;
    hide Judged;
    out := ret;
    var to := at + BatchSize(|items|, at);
    DecodedSlice(items, at);
    var decoded, r := BatchPoint(items[at..to], random[at..to], base);
    returned := was[at := r];
    ghost var before := valid[..];
    if !decoded || r != Point(0, 1) {
      if decoded {
        OrBits(out, 2);
        out := Or(out, 2);
      }
      out := OneByOne(valid, at, to, items, out, table, base, region);
    }
    BatchDone(items, random, base, was, returned, before, valid[..], ret, out, at);
  }

  lemma DecodedSlice(items: seq<Entry>, at: nat)
    requires at <= |items|
    ensures var s := items[at..at + BatchSize(|items|, at)];
      BatchDecodes(items, at) <==> forall i :: 0 <= i < |s| ==> Decodes(s[i])
  {
    hide Decodes;
    var s := items[at..at + BatchSize(|items|, at)];
    forall k | at <= k < at + |s|
      ensures s[k - at] == items[k]
    {
    }
  }

  // ---------- what the reports mean ----------

  /** Everything in the batch decodes, and the multiplied defects add up to what the reduction modulo L left out. */
  ghost predicate CancelsUpToGap(items: seq<Entry>, random: seq<seq<u8>>, b: CurvePoint, at: nat)
    requires Inputs(items, random) && at <= |items|
  {
    && BatchDecodes(items, at)
    && DefectSum(BatchShares(items, random, at), b) == GapPart(BatchShares(items, random, at), b)
  }

  /** Whatever the keys, where the whole sum comes back: the reports, exactly. */
  lemma ReportForAnyKeys(items: seq<Entry>, random: seq<seq<u8>>, b: CurvePoint, returned: seq<CurvePoint>,
      valid: seq<bool>, ret: nat, at: nat, i: nat)
    requires CurveLaws() && OrderL(b) && Inputs(items, random) && |returned| == |items| == |valid|
    requires Outcome(items, random, b, returned, valid, ret)
    requires IsBatch(|items|, at) && at <= i < at + BatchSize(|items|, at) && Joins(BatchShares(items, random, at))
    ensures valid[i] <==> Good(items[i], b) || CancelsUpToGap(items, random, b, at)
  {
    hide CurveLaws;
    hide OrderL;
    hide OnCurve;
    hide Good;
    hide BatchDecodes;
    hide BatchShares;
    hide Returned;
    hide DefectSum;
    hide GapPart;
    hide Joins;
    hide ReturnBits;
    SameBatch(i, at);
    if BatchDecodes(items, at) {
      NeutralIff(BatchShares(items, random, at), b, returned[at]);
    }
  }

  /** Keys of order L in the batch, and scalars under which its whole sum comes back. */
  ghost predicate Regular(t: seq<Share>) {
    KeysOfOrderL(t) && Joins(t)
  }

  /** Everything in the batch decodes, and the defects times their multipliers add up to the identity. */
  ghost predicate Cancels(items: seq<Entry>, random: seq<seq<u8>>, b: CurvePoint, at: nat)
    requires Inputs(items, random) && at <= |items|
  {
    BatchDecodes(items, at) && DefectSum(BatchShares(items, random, at), b) == Point(0, 1)
  }

  /** In a regular batch a signature is reported good exactly when it is, or the batch's defects cancel. */
  lemma ReportIsExact(items: seq<Entry>, random: seq<seq<u8>>, b: CurvePoint, returned: seq<CurvePoint>,
      valid: seq<bool>, ret: nat, at: nat, i: nat)
    requires CurveLaws() && OrderL(b) && Inputs(items, random) && |returned| == |items| == |valid|
    requires Outcome(items, random, b, returned, valid, ret)
    requires IsBatch(|items|, at) && at <= i < at + BatchSize(|items|, at) && Regular(BatchShares(items, random, at))
    ensures valid[i] <==> Good(items[i], b) || Cancels(items, random, b, at)
  {
    hide CurveLaws;
    hide OrderL;
    hide OnCurve;
    hide Good;
    hide BatchDecodes;
    hide BatchShares;
    hide DefectSum;
    hide GapPart;
    hide Joins;
    hide KeysOfOrderL;
    hide Outcome;
    ReportForAnyKeys(items, random, b, returned, valid, ret, at, i);
    NoGap(BatchShares(items, random, at), b);
  }

  /** Good signatures are all reported good, whatever the keys and the multipliers, and bit 0 of the result is clear. */
  lemma AllGoodValid(items: seq<Entry>, random: seq<seq<u8>>, b: CurvePoint, returned: seq<CurvePoint>,
      valid: seq<bool>, ret: nat)
    requires Inputs(items, random) && |returned| == |items| == |valid|
    requires Outcome(items, random, b, returned, valid, ret)
    requires forall i :: 0 <= i < |items| ==> Good(items[i], b)
    ensures (forall i :: 0 <= i < |items| ==> valid[i]) && ret % 2 == 0
  {
    hide OnCurve;
    hide Good;
    hide AllReturned;
    hide FellBack;
  }

  /** Bit 1 stays clear exactly when in no batch the reduction modulo L leaves anything out. */
  lemma AllGoodResult(items: seq<Entry>, random: seq<seq<u8>>, b: CurvePoint, returned: seq<CurvePoint>,
      valid: seq<bool>, ret: nat)
    requires CurveLaws() && OrderL(b) && Inputs(items, random) && |returned| == |items| == |valid|
    requires Outcome(items, random, b, returned, valid, ret)
    requires forall i :: 0 <= i < |items| ==> Good(items[i], b)
    requires forall at: nat :: IsBatch(|items|, at) ==> Joins(BatchShares(items, random, at))
    ensures ret == 0 <==> forall at: nat ::
        IsBatch(|items|, at) ==> GapPart(BatchShares(items, random, at), b) == Point(0, 1)
  {
    hide CurveLaws;
    hide OrderL;
    hide OnCurve;
    hide Good;
    hide BatchDecodes;
    hide BatchShares;
    hide Judged;
    hide Returned;
    hide DefectSum;
    hide GapPart;
    hide Joins;
    AllGoodValid(items, random, b, returned, valid, ret);
    forall at: nat | IsBatch(|items|, at)
      ensures FellBack(items, returned, at) <==> GapPart(BatchShares(items, random, at), b) != Point(0, 1)
    {
      GoodBatch(items, random, b, at);
      NeutralIff(BatchShares(items, random, at), b, returned[at]);
    }
  }

  /** Good signatures in regular batches are all reported good, and the return value is 0. */
  lemma AllGoodReported(items: seq<Entry>, random: seq<seq<u8>>, b: CurvePoint, returned: seq<CurvePoint>,
      valid: seq<bool>, ret: nat)
    requires CurveLaws() && OrderL(b) && Inputs(items, random) && |returned| == |items| == |valid|
    requires Outcome(items, random, b, returned, valid, ret)
    requires forall i :: 0 <= i < |items| ==> Good(items[i], b)
    requires forall at: nat :: IsBatch(|items|, at) ==> Regular(BatchShares(items, random, at))
    ensures (forall i :: 0 <= i < |items| ==> valid[i]) && ret == 0
  {
    hide CurveLaws;
    hide OrderL;
    hide OnCurve;
    hide Good;
    hide BatchShares;
    hide GapPart;
    hide KeysOfOrderL;
    hide Joins;
    hide Outcome;
    AllGoodValid(items, random, b, returned, valid, ret);
    forall at: nat | IsBatch(|items|, at)
      ensures GapPart(BatchShares(items, random, at), b) == Point(0, 1)
    {
      NoGap(BatchShares(items, random, at), b);
    }
    AllGoodResult(items, random, b, returned, valid, ret);
  }

  /** Whatever the multipliers, the defects of good signatures add up to the identity. */
  lemma GoodBatch(items: seq<Entry>, random: seq<seq<u8>>, b: CurvePoint, at: nat)
    requires CurveLaws() && Inputs(items, random) && at <= |items|
    requires forall i :: 0 <= i < |items| ==> Good(items[i], b)
    ensures DefectSum(BatchShares(items, random, at), b) == Point(0, 1) && BatchDecodes(items, at)
  {
    hide CurveLaws;
    hide OnCurve;
    hide Good;
    hide Defect;
    hide ShareOf;
    hide Decodes;
    var t := BatchShares(items, random, at);
    forall k | 0 <= k < |t|
      ensures Defect(t[k], b) == Point(0, 1)
    {
      GoodDecodes(items[at + k], b);
      GoodIff(items[at + k], random[at + k], b);
    }
    NoDefects(t, b);
    forall k | at <= k < at + |t|
      ensures Decodes(items[k])
    {
      GoodDecodes(items[k], b);
    }
  }

  /**
   One bad signature among good ones in a regular batch is reported bad, unless its multiplier is 0 or its defect has
   small order.
   */
  lemma OneBadReported(items: seq<Entry>, random: seq<seq<u8>>, b: CurvePoint, returned: seq<CurvePoint>,
      valid: seq<bool>, ret: nat, at: nat, i: nat, n: nat)
    requires CurveLaws() && OrderL(b) && Inputs(items, random) && |returned| == |items| == |valid|
    requires Outcome(items, random, b, returned, valid, ret)
    requires IsBatch(|items|, at) && at <= i < at + BatchSize(|items|, at) && Regular(BatchShares(items, random, at))
    requires forall k :: at <= k < at + BatchSize(|items|, at) && k != i ==> Good(items[k], b)
    requires !Good(items[i], b) && HasOrder(EdwardsGroup(), Defect(ShareOf(items[i], random[i]), b), n)
    requires 0 < MultiplierOf(random[i]) < n
    ensures !valid[i] && ret % 2 == 1
  {
    hide CurveLaws;
    hide OrderL;
    hide OnCurve;
    hide Good;
    hide Defect;
    hide DefectSum;
    hide Decodes;
    hide Decoded;
    hide Challenge;
    hide MultiplierOf;
    hide LE;
    hide Outcome;
    hide Regular;
    hide HasOrder;
    var t := BatchShares(items, random, at);
    ReportIsExact(items, random, b, returned, valid, ret, at, i);
    forall k | 0 <= k < |t| && k != i - at
      ensures Defect(t[k], b) == Point(0, 1)
    {
      GoodDecodes(items[at + k], b);
      GoodIff(items[at + k], random[at + k], b);
    }
    assert t[i - at] == ShareOf(items[i], random[i]);
    OneDefectStays(t, b, i - at, n);
    SetBit(items, random, b, returned, valid, ret, i);
  }

  lemma SetBit(items: seq<Entry>, random: seq<seq<u8>>, b: CurvePoint, returned: seq<CurvePoint>,
      valid: seq<bool>, ret: nat, i: nat)
    requires Inputs(items, random) && |returned| == |items| == |valid|
        && Outcome(items, random, b, returned, valid, ret)
    requires i < |items| && !valid[i]
    ensures ret % 2 == 1
  {
    hide AllReturned;
    hide Judged;
    hide OnCurve;
  }

  /**
   The batch does not test the range of S: a signature whose S is a good one's plus a multiple of L, but not below
   2^253, gives the same share, so that no batch tells the two apart, while by itself it is rejected.
   */
  lemma RangeNotTested(e: Entry, f: Entry, random: seq<u8>, b: CurvePoint, k: nat)
    requires Sized(e) && Sized(f) && |random| == 16 && f.m == e.m && f.pk == e.pk && f.rs[..32] == e.rs[..32]
    requires LE(f.rs[32..]) == LE(e.rs[32..]) + k * L && LE(f.rs[32..]) >= TWO253
    ensures ShareOf(f, random) == ShareOf(e, random) && !Good(f, b)
  {
    hide OnCurve;
    hide LE;
    hide Decoded;
    hide Challenge;
    ModShift(LE(e.rs[32..]), L, k);
  }

  /** A batch otherwise good then reports such a signature good. */
  lemma RangeReported(items: seq<Entry>, random: seq<seq<u8>>, b: CurvePoint, returned: seq<CurvePoint>,
      valid: seq<bool>, ret: nat, at: nat, i: nat, e: Entry, k: nat)
    requires CurveLaws() && OrderL(b) && Inputs(items, random) && |returned| == |items| == |valid|
    requires Outcome(items, random, b, returned, valid, ret)
    requires IsBatch(|items|, at) && at <= i < at + BatchSize(|items|, at) && Regular(BatchShares(items, random, at))
    requires forall j :: at <= j < at + BatchSize(|items|, at) && j != i ==> Good(items[j], b)
    requires Sized(e) && Good(e, b)
    requires items[i].m == e.m && items[i].pk == e.pk && items[i].rs[..32] == e.rs[..32]
    requires LE(items[i].rs[32..]) == LE(e.rs[32..]) + k * L && LE(items[i].rs[32..]) >= TWO253
    ensures valid[i] && !Good(items[i], b)
  {
    hide CurveLaws;
    hide OrderL;
    hide OnCurve;
    hide Good;
    hide Defect;
    hide ShareOf;
    hide Decodable;
    hide Outcome;
    hide Regular;
    hide DefectSum;
    hide LE;
    var t := BatchShares(items, random, at);
    RangeNotTested(e, items[i], random[i], b, k);
    GoodDecodes(e, b);
    GoodIff(e, random[i], b);
    forall j | 0 <= j < |t|
      ensures Defect(t[j], b) == Point(0, 1) && Decodes(items[at + j])
    {
      if at + j != i {
        GoodDecodes(items[at + j], b);
        GoodIff(items[at + j], random[at + j], b);
      }
    }
    NoDefects(t, b);
    forall j | at <= j < at + |t|
      ensures Decodes(items[j])
    {
      assert Decodes(items[at + (j - at)]);
    }
    ReportIsExact(items, random, b, returned, valid, ret, at, i);
  }
}
