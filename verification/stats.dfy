/** The sums of `getStats` (index.js): approved deposits and withdrawals of one payment
    method whose timestamp lies in an inclusive window. The store's filtering on method and
    status is not part of this model: each query arrives as the sequence of matching
    documents, or as a failure. */
module Stats {
  import opened Wrappers
  import opened Periods

  /** A stored timestamp; `seconds` may be absent. */
  datatype Stamp = Stamp(seconds: Option<int>)

  /** A deposit or withdrawal document. `amount` is `None` when the field is missing or
      holds another falsy value; amounts are integer cents. */
  datatype TxRecord = TxRecord(amount: Option<int>, createdAt: Option<Stamp>)

  datatype QueryError = QueryError(message: string)

  /** The documents a query returned, or the error it raised. */
  type Snapshot = Result<seq<TxRecord>, QueryError>

  /** The object `getStats` returns. */
  datatype Totals = Totals(weeklyDeposit: int, weeklyWithdraw: int)

  /** `Number(data.amount || 0)`. */
  function AmountOf(r: TxRecord): int {
    r.amount.GetOr(0)
  }

  /** `data.createdAt && data.createdAt.seconds`: a timestamp with non-zero seconds. */
  predicate HasTime(r: TxRecord) {
    r.createdAt.Some? && r.createdAt.value.seconds.Some? && r.createdAt.value.seconds.value != 0
  }

  /** The instant a document counts at: its seconds in milliseconds, or `now` when the
      timestamp is missing or zero. */
  function TimeOf(r: TxRecord, now: int): int {
    if HasTime(r) then r.createdAt.value.seconds.value * 1000 else now
  }

  /** `time >= start && time <= end`. */
  predicate Counts(r: TxRecord, w: Window, now: int) {
    w.Contains(TimeOf(r, now))
  }

  /** `snap.forEach(doc => { if (in window) sum += amount })`, starting from `acc`. */
  function Accumulate(acc: int, recs: seq<TxRecord>, w: Window, now: int): int
    decreases |recs|
  {
    if |recs| == 0 then acc
    else Accumulate(if Counts(recs[0], w, now) then acc + AmountOf(recs[0]) else acc, recs[1..], w, now)
  }

  // ---------------------------------------------------------------------------
  // Reference: filter the documents in the window, then add up their amounts
  // ---------------------------------------------------------------------------

  function Selected(recs: seq<TxRecord>, w: Window, now: int): (sel: seq<TxRecord>)
    ensures |sel| <= |recs|
    ensures forall r :: r in sel ==> r in recs && Counts(r, w, now)
  {
    if |recs| == 0 then []
    else if Counts(recs[0], w, now) then [recs[0]] + Selected(recs[1..], w, now)
    else Selected(recs[1..], w, now)
  }

  function SumAmounts(recs: seq<TxRecord>): int {
    if |recs| == 0 then 0 else AmountOf(recs[0]) + SumAmounts(recs[1..])
  }

  /** The total of the documents in the window. */
  function WindowTotal(recs: seq<TxRecord>, w: Window, now: int): int {
    SumAmounts(Selected(recs, w, now))
  }

  /** The running sum of `forEach` is the total of the documents in the window. */
  lemma {:induction false} AccumulateIsWindowTotal(acc: int, recs: seq<TxRecord>, w: Window, now: int)
    ensures Accumulate(acc, recs, w, now) == acc + WindowTotal(recs, w, now)
    decreases |recs|
  {
    if 0 < |recs| {
      var r := recs[0];
      AccumulateIsWindowTotal(if Counts(r, w, now) then acc + AmountOf(r) else acc, recs[1..], w, now);
      if Counts(r, w, now) {
        var rest := Selected(recs[1..], w, now);
        assert Selected(recs, w, now) == [r] + rest;
        assert ([r] + rest)[1..] == rest;
      }
    }
  }

  lemma {:induction false} WindowTotalAppend(a: seq<TxRecord>, b: seq<TxRecord>, w: Window, now: int)
    ensures WindowTotal(a + b, w, now) == WindowTotal(a, w, now) + WindowTotal(b, w, now)
    decreases |a|
  {
    if |a| == 0 {
      assert a + b == b;
    } else {
      assert (a + b)[0] == a[0];
      assert (a + b)[1..] == a[1..] + b;
      WindowTotalAppend(a[1..], b, w, now);
      var rest := Selected(a[1..] + b, w, now);
      if Counts(a[0], w, now) {
        assert ([a[0]] + rest)[1..] == rest;
        var restA := Selected(a[1..], w, now);
        assert ([a[0]] + restA)[1..] == restA;
      }
    }
  }

  /** Each document contributes once: its amount when it counts, nothing otherwise. */
  lemma ContributesOnce(a: seq<TxRecord>, r: TxRecord, b: seq<TxRecord>, w: Window, now: int)
    ensures WindowTotal(a + [r] + b, w, now)
         == WindowTotal(a + b, w, now) + (if Counts(r, w, now) then AmountOf(r) else 0)
  {
    WindowTotalAppend(a + [r], b, w, now);
    WindowTotalAppend(a, [r], w, now);
    WindowTotalAppend(a, b, w, now);
    assert [r][1..] == [];
    if Counts(r, w, now) {
      assert Selected([r], w, now) == [r];
      assert SumAmounts([r]) == AmountOf(r) + SumAmounts([r][1..]);
    } else {
      assert Selected([r], w, now) == [];
    }
  }

  /** The order in which the store returns documents does not change the total. */
  lemma {:induction false} WindowTotalPermutation(a: seq<TxRecord>, b: seq<TxRecord>, w: Window, now: int)
    requires multiset(a) == multiset(b)
    ensures WindowTotal(a, w, now) == WindowTotal(b, w, now)
    decreases |a|
  {
    if |a| == 0 {
      assert |b| == |multiset(b)| == 0;
    } else {
      var r := a[0];
      assert r in multiset(b);
      var k :| 0 <= k < |b| && b[k] == r;
      var b1, b2 := b[..k], b[k + 1..];
      RemoveMatching(a, b, k);
      WindowTotalPermutation(a[1..], b1 + b2, w, now);
      assert b == b1 + [r] + b2;
      ContributesOnce(b1, r, b2, w, now);
      assert a == [] + [r] + a[1..];
      ContributesOnce([], r, a[1..], w, now);
      assert [] + a[1..] == a[1..];
    }
  }

  /** Removing the first element of `a` and a matching element of `b` keeps the multisets equal. */
  lemma RemoveMatching<T>(a: seq<T>, b: seq<T>, k: nat)
    requires multiset(a) == multiset(b) && 0 < |a| && k < |b| && b[k] == a[0]
    ensures multiset(a[1..]) == multiset(b[..k] + b[k + 1..])
  {
    assert a == [a[0]] + a[1..];
    assert b == b[..k] + [b[k]] + b[k + 1..];
    assert multiset(b) == multiset(b[..k]) + multiset([b[k]]) + multiset(b[k + 1..]);
    assert multiset(a) == multiset([a[0]]) + multiset(a[1..]);
    assert multiset(b[..k] + b[k + 1..]) == multiset(b[..k]) + multiset(b[k + 1..]);
    assert multiset(a[1..]) == multiset(a) - multiset([a[0]]);
    assert multiset(b[..k] + b[k + 1..]) == multiset(b) - multiset([b[k]]);
  }

  /** `getStats`: the deposit sum, then the withdrawal sum. A failed deposit query leaves
      both sums at zero and the withdrawal query is never issued; a failed withdrawal query
      keeps the deposit sum already accumulated. */
  function GetStats(deposits: Snapshot, withdrawals: Snapshot, w: Window, now: int): (r: Totals)
    ensures deposits.Failure? ==> r == Totals(0, 0)
    ensures deposits.Success? ==> r.weeklyDeposit == WindowTotal(deposits.value, w, now)
    ensures deposits.Success? && withdrawals.Success? ==>
              r.weeklyWithdraw == WindowTotal(withdrawals.value, w, now)
    ensures withdrawals.Failure? ==> r.weeklyWithdraw == 0
  {
    match deposits
    case Failure(_) => Totals(0, 0)
    case Success(ds) =>
      AccumulateIsWindowTotal(0, ds, w, now);
      var deposited := Accumulate(0, ds, w, now);
      match withdrawals
      case Failure(_) => Totals(deposited, 0)
      case Success(ws) =>
        AccumulateIsWindowTotal(0, ws, w, now);
        Totals(deposited, Accumulate(0, ws, w, now))
  }

  /** A document whose `createdAt.seconds` is missing or zero is dated `now`: appending it
      adds its amount to the sum exactly when `now` lies in the window. */
  lemma UndatedCountsNow(ds: seq<TxRecord>, ws: seq<TxRecord>, r: TxRecord, w: Window, now: int)
    requires !HasTime(r)
    ensures GetStats(Success(ds + [r]), Success(ws), w, now).weeklyDeposit
         == GetStats(Success(ds), Success(ws), w, now).weeklyDeposit
            + (if w.start <= now <= w.end then AmountOf(r) else 0)
    ensures GetStats(Success(ds), Success(ws + [r]), w, now).weeklyWithdraw
         == GetStats(Success(ds), Success(ws), w, now).weeklyWithdraw
            + (if w.start <= now <= w.end then AmountOf(r) else 0)
  {
    AppendedDocument(ds, r, w, now);
    AppendedDocument(ws, r, w, now);
  }

  /** A dated document adds its amount exactly when its second, in milliseconds, lies in
      the window, both ends included. */
  lemma DatedCountsAtItsSecond(ds: seq<TxRecord>, ws: seq<TxRecord>, r: TxRecord, w: Window, now: int)
    requires HasTime(r)
    ensures var t := r.createdAt.value.seconds.value * 1000;
      GetStats(Success(ds + [r]), Success(ws), w, now).weeklyDeposit
      == GetStats(Success(ds), Success(ws), w, now).weeklyDeposit
         + (if w.start <= t <= w.end then AmountOf(r) else 0)
    ensures var t := r.createdAt.value.seconds.value * 1000;
      GetStats(Success(ds), Success(ws + [r]), w, now).weeklyWithdraw
      == GetStats(Success(ds), Success(ws), w, now).weeklyWithdraw
         + (if w.start <= t <= w.end then AmountOf(r) else 0)
  {
    AppendedDocument(ds, r, w, now);
    AppendedDocument(ws, r, w, now);
  }

  /** A document whose amount is missing or falsy leaves both sums as they were. */
  lemma FalsyAmountAddsNothing(ds: seq<TxRecord>, ws: seq<TxRecord>, r: TxRecord, w: Window, now: int)
    requires r.amount.None?
    ensures GetStats(Success(ds + [r]), Success(ws), w, now)
         == GetStats(Success(ds), Success(ws), w, now)
    ensures GetStats(Success(ds), Success(ws + [r]), w, now)
         == GetStats(Success(ds), Success(ws), w, now)
  {
    AppendedDocument(ds, r, w, now);
    AppendedDocument(ws, r, w, now);
  }

  lemma AppendedDocument(recs: seq<TxRecord>, r: TxRecord, w: Window, now: int)
    ensures WindowTotal(recs + [r], w, now)
         == WindowTotal(recs, w, now) + (if Counts(r, w, now) then AmountOf(r) else 0)
  {
    ContributesOnce(recs, r, [], w, now);
    assert recs + [r] + [] == recs + [r];
    assert recs + [] == recs;
  }
}
