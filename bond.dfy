/**
 * A fixed-coupon bond priced off a market par curve: its cashflow schedule (forward from the issue
 * date or backward from maturity), the discounted price with a memo, and the delta to one tenor.
 * Dates are day numbers; a year fraction is the number of days over 365 (Actual/365 Fixed).
 */
module Bonds {
  import opened Collections
  import opened Outcomes
  import opened Externals
  import opened ZeroCouponCurves
  import opened MarketCurves

  /** The bond's fixed terms, as handed to its constructor. */
  datatype Terms = Terms(
    issueDate: int,
    maturityDate: int,
    couponRate: real,
    couponFrequency: int,
    isForward: bool)

  /** Frequencies for which the coupon step is at least one month, so that every walk ends. */
  predicate ValidTerms(t: Terms)
  {
    1 <= t.couponFrequency <= 12
  }

  // ---------------------------------------------------------------------------------------------
  // Coupon periods

  /** `12 / CouponFrequency`: whole months between coupon dates. */
  function GapMonths(frequency: int): (months: int)
    requires 1 <= frequency <= 12
    ensures 1 <= months <= 12
    ensures months * frequency <= 12 < (months + 1) * frequency
  {
    12 / frequency
  }

  /** The coupon accrues from `start` to `end` and is paid (keyed) at `end`. */
  datatype Period = Period(start: int, end: int)

  /**
   * The forward walk from `(prevCashflowDate, cashflowDate)`: one period per coupon date strictly
   * before maturity, then the period ending at maturity.
   */
  function ForwardPeriods(addMonths: (int, int) -> int, gap: int, prev: int, date: int, maturity: int): seq<Period>
    requires Advances(addMonths) && gap >= 1
    decreases maturity - date
  {
    if date < maturity then [Period(prev, date)] + ForwardPeriods(addMonths, gap, date, addMonths(date, gap), maturity)
    else [Period(prev, maturity)]
  }

  /**
   * The backward walk from `(prevCashflowDate, cashflowDate)`, listed in date order: while the
   * previous date is after the issue date it emits `(prev, date)` and steps back; the walk ends with
   * the entry keyed at the issue date whose accrual runs from the last coupon date reached back to
   * the issue date, `Period(date, issue)`.
   */
  function BackwardPeriods(addMonths: (int, int) -> int, gap: int, issue: int, prev: int, date: int): seq<Period>
    requires Advances(addMonths) && gap >= 1
    decreases prev - issue
  {
    if prev > issue then BackwardPeriods(addMonths, gap, issue, addMonths(prev, -gap), prev) + [Period(prev, date)]
    else [Period(date, issue)]
  }

  /** The periods of the bond's schedule in date order, before any is dropped for its year fraction. */
  function Periods(t: Terms, addMonths: (int, int) -> int): seq<Period>
    requires ValidTerms(t) && Advances(addMonths)
  {
    var gap := GapMonths(t.couponFrequency);
    if t.isForward then ForwardPeriods(addMonths, gap, t.issueDate, addMonths(t.issueDate, gap), t.maturityDate)
    else BackwardPeriods(addMonths, gap, t.issueDate, addMonths(t.maturityDate, -gap), t.maturityDate)
  }

  /** Payment dates strictly increase along the list. */
  predicate Chronological(ps: seq<Period>)
  {
    forall i, j :: 0 <= i < j < |ps| ==> ps[i].end < ps[j].end
  }

  /** Every period is paid strictly after `date`. */
  predicate PaidAfter(ps: seq<Period>, date: int)
  {
    forall i :: 0 <= i < |ps| ==> date < ps[i].end
  }

  /** Every period is paid strictly before `date`. */
  predicate PaidBefore(ps: seq<Period>, date: int)
  {
    forall i :: 0 <= i < |ps| ==> ps[i].end < date
  }

  /** Every period but the last, the one ending at maturity, is paid strictly before `date`. */
  predicate CouponDatesBefore(ps: seq<Period>, date: int)
  {
    forall i :: 0 <= i < |ps| - 1 ==> ps[i].end < date
  }

  /** From index `from` on, each period starts on the date the one before it is paid. */
  predicate ContiguousFrom(ps: seq<Period>, from: nat)
  {
    forall i :: from <= i < |ps| - 1 ==> ps[i].end == ps[i + 1].start
  }

  /** A period paid before every period of a chronological list can be put in front of it. */
  lemma ChronologicalCons(p: Period, ps: seq<Period>)
    requires Chronological(ps) && PaidAfter(ps, p.end)
    ensures Chronological([p] + ps)
  {
    var r := [p] + ps;
    forall i, j | 0 <= i < j < |r| ensures r[i].end < r[j].end {
      assert r[j] == ps[j - 1];
      assert i == 0 || r[i] == ps[i - 1];
    }
  }

  /** A period paid after every period of a chronological list can be put behind it. */
  lemma ChronologicalSnoc(ps: seq<Period>, p: Period)
    requires Chronological(ps) && PaidBefore(ps, p.end)
    ensures Chronological(ps + [p])
  {
    var r := ps + [p];
    forall i, j | 0 <= i < j < |r| ensures r[i].end < r[j].end {
      assert r[i] == ps[i];
      assert j == |ps| || r[j] == ps[j];
    }
  }

  // The forward walk

  /** The walk starts at the first previous date and its first payment is the first date or maturity. */
  lemma ForwardFirst(addMonths: (int, int) -> int, gap: int, prev: int, date: int, maturity: int)
    requires Advances(addMonths) && gap >= 1
    ensures |ForwardPeriods(addMonths, gap, prev, date, maturity)| >= 1
    ensures ForwardPeriods(addMonths, gap, prev, date, maturity)[0] == Period(prev, if date < maturity then date else maturity)
  {
  }

  /** The last payment is at maturity. */
  lemma {:induction false} ForwardLast(addMonths: (int, int) -> int, gap: int, prev: int, date: int, maturity: int)
    requires Advances(addMonths) && gap >= 1
    ensures |ForwardPeriods(addMonths, gap, prev, date, maturity)| >= 1
    ensures ForwardPeriods(addMonths, gap, prev, date, maturity)[|ForwardPeriods(addMonths, gap, prev, date, maturity)| - 1].end == maturity
    decreases maturity - date
  {
    if date < maturity {
      ForwardLast(addMonths, gap, date, addMonths(date, gap), maturity);
    }
  }

  /** Every coupon date the loop visits is strictly before maturity. */
  lemma {:induction false} ForwardBeforeMaturity(addMonths: (int, int) -> int, gap: int, prev: int, date: int, maturity: int)
    requires Advances(addMonths) && gap >= 1
    ensures CouponDatesBefore(ForwardPeriods(addMonths, gap, prev, date, maturity), maturity)
    decreases maturity - date
  {
    if date < maturity {
      var rest := ForwardPeriods(addMonths, gap, date, addMonths(date, gap), maturity);
      ForwardBeforeMaturity(addMonths, gap, date, addMonths(date, gap), maturity);
      assert ForwardPeriods(addMonths, gap, prev, date, maturity) == [Period(prev, date)] + rest;
      assert forall i :: 0 < i < |rest| + 1 ==> ([Period(prev, date)] + rest)[i] == rest[i - 1];
    }
  }

  /** Each period accrues from the previous payment date: the amount uses the last `prevCashflowDate`. */
  lemma {:induction false} ForwardContiguous(addMonths: (int, int) -> int, gap: int, prev: int, date: int, maturity: int)
    requires Advances(addMonths) && gap >= 1
    ensures ContiguousFrom(ForwardPeriods(addMonths, gap, prev, date, maturity), 0)
    decreases maturity - date
  {
    if date < maturity {
      var next := addMonths(date, gap);
      var rest := ForwardPeriods(addMonths, gap, date, next, maturity);
      ForwardContiguous(addMonths, gap, date, next, maturity);
      ForwardFirst(addMonths, gap, date, next, maturity);
      assert ForwardPeriods(addMonths, gap, prev, date, maturity) == [Period(prev, date)] + rest;
      assert forall i :: 0 < i < |rest| + 1 ==> ([Period(prev, date)] + rest)[i] == rest[i - 1];
    }
  }

  /** All payment dates of the walk are after any date that precedes both the first date and maturity. */
  lemma {:induction false} ForwardAfter(addMonths: (int, int) -> int, gap: int, prev: int, date: int, maturity: int, bound: int)
    requires Advances(addMonths) && gap >= 1
    requires bound < date && bound < maturity
    ensures PaidAfter(ForwardPeriods(addMonths, gap, prev, date, maturity), bound)
    decreases maturity - date
  {
    if date < maturity {
      var next := addMonths(date, gap);
      assert date < next;
      var rest := ForwardPeriods(addMonths, gap, date, next, maturity);
      ForwardAfter(addMonths, gap, date, next, maturity, bound);
      assert ForwardPeriods(addMonths, gap, prev, date, maturity) == [Period(prev, date)] + rest;
      assert forall i :: 0 < i < |rest| + 1 ==> ([Period(prev, date)] + rest)[i] == rest[i - 1];
    }
  }

  /** The forward payment dates strictly increase, so their year fractions never collide. */
  lemma {:induction false} ForwardChronological(addMonths: (int, int) -> int, gap: int, prev: int, date: int, maturity: int)
    requires Advances(addMonths) && gap >= 1
    ensures Chronological(ForwardPeriods(addMonths, gap, prev, date, maturity))
    decreases maturity - date
  {
    if date < maturity {
      var next := addMonths(date, gap);
      var rest := ForwardPeriods(addMonths, gap, date, next, maturity);
      ForwardChronological(addMonths, gap, date, next, maturity);
      assert date < next;
      ForwardAfter(addMonths, gap, date, next, maturity, date);
      ChronologicalCons(Period(prev, date), rest);
    }
  }

  // The backward walk

  /** All payment dates of the walk precede any date after both the starting date and the issue date. */
  lemma {:induction false} BackwardBefore(addMonths: (int, int) -> int, gap: int, issue: int, prev: int, date: int, bound: int)
    requires Advances(addMonths) && gap >= 1
    requires prev < date < bound && issue < bound
    ensures PaidBefore(BackwardPeriods(addMonths, gap, issue, prev, date), bound)
    decreases prev - issue
  {
    if prev > issue {
      var back := addMonths(prev, -gap);
      assert back < prev;
      var rest := BackwardPeriods(addMonths, gap, issue, back, prev);
      BackwardBefore(addMonths, gap, issue, back, prev, bound);
      assert BackwardPeriods(addMonths, gap, issue, prev, date) == rest + [Period(prev, date)];
    }
  }

  /** The backward payment dates, listed in date order, strictly increase. */
  lemma {:induction false} BackwardChronological(addMonths: (int, int) -> int, gap: int, issue: int, prev: int, date: int)
    requires Advances(addMonths) && gap >= 1
    requires prev < date
    ensures Chronological(BackwardPeriods(addMonths, gap, issue, prev, date))
    decreases prev - issue
  {
    if prev > issue {
      var back := addMonths(prev, -gap);
      assert back < prev;
      var rest := BackwardPeriods(addMonths, gap, issue, back, prev);
      BackwardChronological(addMonths, gap, issue, back, prev);
      BackwardBefore(addMonths, gap, issue, back, prev, date);
      ChronologicalSnoc(rest, Period(prev, date));
    }
  }

  /**
   * The earliest entry is paid at the issue date. When the loop ran, it accrues from the same
   * coupon date the next entry starts from, the earliest coupon date reached; otherwise from the
   * starting `cashflowDate`.
   */
  lemma {:induction false} BackwardIssueEntry(addMonths: (int, int) -> int, gap: int, issue: int, prev: int, date: int)
    requires Advances(addMonths) && gap >= 1
    ensures BackwardPeriods(addMonths, gap, issue, prev, date)[0].end == issue
    ensures |BackwardPeriods(addMonths, gap, issue, prev, date)| == 1 ==>
      BackwardPeriods(addMonths, gap, issue, prev, date)[0].start == date
    ensures |BackwardPeriods(addMonths, gap, issue, prev, date)| >= 2 ==>
      BackwardPeriods(addMonths, gap, issue, prev, date)[0].start == BackwardPeriods(addMonths, gap, issue, prev, date)[1].start
    decreases prev - issue
  {
    if prev > issue {
      var back := addMonths(prev, -gap);
      var rest := BackwardPeriods(addMonths, gap, issue, back, prev);
      BackwardIssueEntry(addMonths, gap, issue, back, prev);
      var ps := rest + [Period(prev, date)];
      assert BackwardPeriods(addMonths, gap, issue, prev, date) == ps;
      assert ps[0] == rest[0];
      assert |rest| >= 2 ==> ps[1] == rest[1];
    }
  }

  /** Every entry after the issue-date entry accrues over a forward interval that starts after the issue date. */
  lemma {:induction false} BackwardAfterIssue(addMonths: (int, int) -> int, gap: int, issue: int, prev: int, date: int)
    requires Advances(addMonths) && gap >= 1
    requires prev < date
    ensures forall i :: 0 < i < |BackwardPeriods(addMonths, gap, issue, prev, date)| ==>
      issue < BackwardPeriods(addMonths, gap, issue, prev, date)[i].start < BackwardPeriods(addMonths, gap, issue, prev, date)[i].end
    decreases prev - issue
  {
    if prev > issue {
      var back := addMonths(prev, -gap);
      assert back < prev;
      var rest := BackwardPeriods(addMonths, gap, issue, back, prev);
      BackwardAfterIssue(addMonths, gap, issue, back, prev);
      assert BackwardPeriods(addMonths, gap, issue, prev, date) == rest + [Period(prev, date)];
    }
  }

  /**
   * After the issue-date entry each period starts on the date the one before it is paid, and when
   * the loop ran the last period is the first one it emitted.
   */
  lemma {:induction false} BackwardContiguous(addMonths: (int, int) -> int, gap: int, issue: int, prev: int, date: int)
    requires Advances(addMonths) && gap >= 1
    ensures ContiguousFrom(BackwardPeriods(addMonths, gap, issue, prev, date), 1)
    ensures prev > issue ==>
      BackwardPeriods(addMonths, gap, issue, prev, date)[|BackwardPeriods(addMonths, gap, issue, prev, date)| - 1] == Period(prev, date)
    decreases prev - issue
  {
    if prev > issue {
      var back := addMonths(prev, -gap);
      var rest := BackwardPeriods(addMonths, gap, issue, back, prev);
      BackwardContiguous(addMonths, gap, issue, back, prev);
      assert BackwardPeriods(addMonths, gap, issue, prev, date) == rest + [Period(prev, date)];
      if back > issue {
        assert rest[|rest| - 1].end == prev;
      } else {
        assert rest == [Period(prev, issue)];
      }
    }
  }

  /**
   * As written, the issue-date entry of a backward schedule of a bond maturing after its issue
   * accrues backwards: from a coupon date after the issue date to the issue date.
   */
  lemma BackwardStubReversed(addMonths: (int, int) -> int, gap: int, issue: int, maturity: int)
    requires Advances(addMonths) && gap >= 1
    requires issue < maturity
    ensures BackwardPeriods(addMonths, gap, issue, addMonths(maturity, -gap), maturity)[0].end == issue
    ensures issue < BackwardPeriods(addMonths, gap, issue, addMonths(maturity, -gap), maturity)[0].start
  {
    var prev := addMonths(maturity, -gap);
    assert prev < maturity;
    BackwardIssueEntry(addMonths, gap, issue, prev, maturity);
    BackwardAfterIssue(addMonths, gap, issue, prev, maturity);
  }

  /** The schedule's payment dates strictly increase in either direction. */
  lemma PeriodsChronological(t: Terms, addMonths: (int, int) -> int)
    requires ValidTerms(t) && Advances(addMonths)
    ensures Chronological(Periods(t, addMonths))
  {
    var gap := GapMonths(t.couponFrequency);
    if t.isForward {
      ForwardChronological(addMonths, gap, t.issueDate, addMonths(t.issueDate, gap), t.maturityDate);
    } else {
      assert addMonths(t.maturityDate, -gap) < t.maturityDate;
      BackwardChronological(addMonths, gap, t.issueDate, addMonths(t.maturityDate, -gap), t.maturityDate);
    }
  }

  // ---------------------------------------------------------------------------------------------
  // Cashflows

  /** `(date - evaluationDate).TotalDays / 365`. */
  function YearFrac(date: int, evaluationDate: int): real
  {
    (date - evaluationDate) as real / 365.0
  }

  /** Later dates have larger year fractions. */
  lemma YearFracMonotone(a: int, b: int, evaluationDate: int)
    requires a < b
    ensures YearFrac(a, evaluationDate) < YearFrac(b, evaluationDate)
  {
  }

  /** `CouponRate * (end - start).TotalDays / 365`. */
  function Accrued(rate: real, p: Period): real
  {
    rate * (p.end - p.start) as real / 365.0
  }

  /** The entry a period contributes: keyed at its payment's year fraction, and only if that is positive. */
  function Paid(p: Period, evaluationDate: int, rate: real): seq<Entry>
  {
    if YearFrac(p.end, evaluationDate) > 0.0 then [Entry(YearFrac(p.end, evaluationDate), Accrued(rate, p))] else []
  }

  /** The coupon entries of the periods, in their order. */
  function Coupons(ps: seq<Period>, evaluationDate: int, rate: real): seq<Entry>
  {
    if |ps| == 0 then [] else Paid(ps[0], evaluationDate, rate) + Coupons(ps[1..], evaluationDate, rate)
  }

  /**
   * An entry is a coupon exactly when some period is paid at a positive year fraction, with that
   * year fraction as its key and that period's accrued amount as its value: periods paid on or
   * before the evaluation date are dropped, not zero-filled.
   */
  lemma {:induction false} CouponsMembership(ps: seq<Period>, evaluationDate: int, rate: real, e: Entry)
    ensures e in Coupons(ps, evaluationDate, rate) <==>
      exists p :: p in ps && YearFrac(p.end, evaluationDate) > 0.0 && e == Entry(YearFrac(p.end, evaluationDate), Accrued(rate, p))
  {
    if |ps| > 0 {
      CouponsMembership(ps[1..], evaluationDate, rate, e);
      assert forall p :: p in ps <==> p == ps[0] || p in ps[1..];
    }
  }

  /** Adding a later period at the end adds its entry, if any, at the end. */
  lemma {:induction false} CouponsAppend(ps: seq<Period>, p: Period, evaluationDate: int, rate: real)
    ensures Coupons(ps + [p], evaluationDate, rate) == Coupons(ps, evaluationDate, rate) + Paid(p, evaluationDate, rate)
  {
    if |ps| > 0 {
      assert (ps + [p])[1..] == ps[1..] + [p];
      CouponsAppend(ps[1..], p, evaluationDate, rate);
    } else {
      assert Coupons([p], evaluationDate, rate) == Paid(p, evaluationDate, rate) + Coupons([], evaluationDate, rate);
    }
  }

  /** Adding an earlier period in front adds its entry, if any, in front. */
  lemma CouponsPrepend(p: Period, ps: seq<Period>, evaluationDate: int, rate: real)
    ensures Coupons([p] + ps, evaluationDate, rate) == Paid(p, evaluationDate, rate) + Coupons(ps, evaluationDate, rate)
  {
    assert ([p] + ps)[1..] == ps;
  }

  /** If every period is paid before `date`, every coupon is keyed below `date`'s year fraction. */
  lemma CouponsBelow(ps: seq<Period>, evaluationDate: int, rate: real, date: int)
    requires forall p :: p in ps ==> p.end < date
    ensures forall e :: e in Coupons(ps, evaluationDate, rate) ==> e.key < YearFrac(date, evaluationDate)
  {
    forall e | e in Coupons(ps, evaluationDate, rate) ensures e.key < YearFrac(date, evaluationDate) {
      CouponsMembership(ps, evaluationDate, rate, e);
      var p :| p in ps && e.key == YearFrac(p.end, evaluationDate);
      YearFracMonotone(p.end, date, evaluationDate);
    }
  }

  /** If every period is paid after `date`, every coupon is keyed above `date`'s year fraction. */
  lemma CouponsAbove(ps: seq<Period>, evaluationDate: int, rate: real, date: int)
    requires forall p :: p in ps ==> date < p.end
    ensures forall e :: e in Coupons(ps, evaluationDate, rate) ==> YearFrac(date, evaluationDate) < e.key
  {
    forall e | e in Coupons(ps, evaluationDate, rate) ensures YearFrac(date, evaluationDate) < e.key {
      CouponsMembership(ps, evaluationDate, rate, e);
      var p :| p in ps && e.key == YearFrac(p.end, evaluationDate);
      YearFracMonotone(date, p.end, evaluationDate);
    }
  }

  /** Chronological periods give coupons in strictly ascending key order, so no `Add` meets a duplicate key. */
  lemma {:induction false} CouponsSorted(ps: seq<Period>, evaluationDate: int, rate: real)
    requires Chronological(ps)
    ensures Sorted(Coupons(ps, evaluationDate, rate))
  {
    if |ps| > 0 {
      var rest := ps[1..];
      assert Chronological(rest);
      CouponsSorted(rest, evaluationDate, rate);
      assert forall p :: p in rest ==> ps[0].end < p.end by {
        forall p | p in rest ensures ps[0].end < p.end {
          var k :| 0 <= k < |rest| && rest[k] == p;
          assert ps[k + 1] == p;
        }
      }
      CouponsAbove(rest, evaluationDate, rate, ps[0].end);
      var head := Paid(ps[0], evaluationDate, rate);
      var tail := Coupons(rest, evaluationDate, rate);
      var r := head + tail;
      forall i, j | 0 <= i < j < |r| ensures r[i].key < r[j].key {
        var o := |head|;
        assert r[j] == tail[j - o];
        if i < o {
          assert tail[j - o] in tail;
        } else {
          assert r[i] == tail[i - o];
        }
      }
    }
  }

  /** Every coupon is keyed at a strictly positive year fraction. */
  lemma CouponKeysPositive(ps: seq<Period>, evaluationDate: int, rate: real)
    ensures forall e :: e in Coupons(ps, evaluationDate, rate) ==> e.key > 0.0
  {
    forall e | e in Coupons(ps, evaluationDate, rate) ensures e.key > 0.0 {
      CouponsMembership(ps, evaluationDate, rate, e);
    }
  }

  /** One step of the forward walk moves the period `(prev, date)` from the walk still to come to the periods done. */
  lemma ForwardStep(addMonths: (int, int) -> int, gap: int, done: seq<Period>, prev: int, date: int, maturity: int)
    requires Advances(addMonths) && gap >= 1 && date < maturity
    ensures done + ForwardPeriods(addMonths, gap, prev, date, maturity)
      == (done + [Period(prev, date)]) + ForwardPeriods(addMonths, gap, date, addMonths(date, gap), maturity)
  {
    var rest := ForwardPeriods(addMonths, gap, date, addMonths(date, gap), maturity);
    assert done + ([Period(prev, date)] + rest) == (done + [Period(prev, date)]) + rest;
  }

  /** One step of the backward walk moves the period `(prev, date)` from the walk still to come to the periods done. */
  lemma BackwardStep(addMonths: (int, int) -> int, gap: int, issue: int, prev: int, date: int, done: seq<Period>)
    requires Advances(addMonths) && gap >= 1 && prev > issue
    ensures BackwardPeriods(addMonths, gap, issue, prev, date) + done
      == BackwardPeriods(addMonths, gap, issue, addMonths(prev, -gap), prev) + ([Period(prev, date)] + done)
  {
    var rest := BackwardPeriods(addMonths, gap, issue, addMonths(prev, -gap), prev);
    assert (rest + [Period(prev, date)]) + done == rest + ([Period(prev, date)] + done);
  }

  /**
   * Paying a period after every period done: if its year fraction is positive, that key is new
   * and `Add` appends its entry; otherwise the coupons are unchanged.
   */
  lemma AppendCoupon(cashflows: SortedDict, done: seq<Period>, p: Period, evaluationDate: int, rate: real)
    requires cashflows == Coupons(done, evaluationDate, rate)
    requires forall q :: q in done ==> q.end < p.end
    ensures YearFrac(p.end, evaluationDate) > 0.0 ==> YearFrac(p.end, evaluationDate) !in Keys(cashflows)
    ensures YearFrac(p.end, evaluationDate) > 0.0 ==>
      Add(cashflows, YearFrac(p.end, evaluationDate), Accrued(rate, p)) == Coupons(done + [p], evaluationDate, rate)
    ensures YearFrac(p.end, evaluationDate) <= 0.0 ==> cashflows == Coupons(done + [p], evaluationDate, rate)
  {
    CouponsAppend(done, p, evaluationDate, rate);
    if YearFrac(p.end, evaluationDate) > 0.0 {
      CouponsBelow(done, evaluationDate, rate, p.end);
      AddAbove(cashflows, YearFrac(p.end, evaluationDate), Accrued(rate, p));
    }
  }

  /**
   * Paying a period before every period done: if its year fraction is positive, that key is new
   * and `Add` prepends its entry; otherwise the coupons are unchanged.
   */
  lemma PrependCoupon(cashflows: SortedDict, p: Period, done: seq<Period>, evaluationDate: int, rate: real)
    requires cashflows == Coupons(done, evaluationDate, rate)
    requires forall q :: q in done ==> p.end < q.end
    ensures YearFrac(p.end, evaluationDate) > 0.0 ==> YearFrac(p.end, evaluationDate) !in Keys(cashflows)
    ensures YearFrac(p.end, evaluationDate) > 0.0 ==>
      Add(cashflows, YearFrac(p.end, evaluationDate), Accrued(rate, p)) == Coupons([p] + done, evaluationDate, rate)
    ensures YearFrac(p.end, evaluationDate) <= 0.0 ==> cashflows == Coupons([p] + done, evaluationDate, rate)
  {
    CouponsPrepend(p, done, evaluationDate, rate);
    if YearFrac(p.end, evaluationDate) > 0.0 {
      CouponsAbove(done, evaluationDate, rate, p.end);
      AddBelow(cashflows, YearFrac(p.end, evaluationDate), Accrued(rate, p));
    }
  }

  /** The coupon table of the schedule, before the principal is added. */
  function CouponTable(t: Terms, addMonths: (int, int) -> int, evaluationDate: int): SortedDict
    requires ValidTerms(t) && Advances(addMonths)
  {
    PeriodsChronological(t, addMonths);
    CouponsSorted(Periods(t, addMonths), evaluationDate, t.couponRate);
    Coupons(Periods(t, addMonths), evaluationDate, t.couponRate)
  }

  /** "Add principal": `cashflows[cashflows.Keys.Max()] += 1` on a non-empty table. */
  function WithPrincipal(d: SortedDict): SortedDict
  {
    if |d| == 0 then d
    else
      MaxIsGreatest(Keys(d));
      Adjust(d, Max(Keys(d)), 1.0)
  }

  /**
   * The principal goes to the last entry, the one with the largest key: that entry's amount grows by
   * one and every other entry stays as it was; an empty table stays empty.
   */
  lemma PrincipalOnLastEntry(d: SortedDict)
    ensures |WithPrincipal(d)| == |d|
    ensures |d| > 0 ==> WithPrincipal(d)[|d| - 1] == Entry(d[|d| - 1].key, d[|d| - 1].value + 1.0)
    ensures forall j :: 0 <= j < |d| - 1 ==> WithPrincipal(d)[j] == d[j]
  {
    if |d| > 0 {
      MinMaxOfIncreasing(Keys(d));
      var r := WithPrincipal(d);
      forall j | 0 <= j < |d| ensures r[j].key == d[j].key {
        assert Keys(r)[j] == Keys(d)[j];
      }
      forall j | 0 <= j < |d| - 1 ensures d[j].key != Max(Keys(d)) {
        assert Keys(d)[j] < Keys(d)[|d| - 1];
      }
    }
  }

  /** `GetCashflows(evaluationDate)`: the coupon table with the principal added to its last entry. */
  function Cashflows(t: Terms, addMonths: (int, int) -> int, evaluationDate: int): SortedDict
    requires ValidTerms(t) && Advances(addMonths)
  {
    WithPrincipal(CouponTable(t, addMonths, evaluationDate))
  }

  /** Every key of the schedule is a strictly positive year fraction. */
  lemma CashflowKeysPositive(t: Terms, addMonths: (int, int) -> int, evaluationDate: int)
    requires ValidTerms(t) && Advances(addMonths)
    ensures forall e :: e in Cashflows(t, addMonths, evaluationDate) ==> e.key > 0.0
  {
    var d := CouponTable(t, addMonths, evaluationDate);
    CouponKeysPositive(Periods(t, addMonths), evaluationDate, t.couponRate);
    PrincipalOnLastEntry(d);
    var r := Cashflows(t, addMonths, evaluationDate);
    forall e | e in r ensures e.key > 0.0 {
      var j :| 0 <= j < |r| && r[j] == e;
      assert d[j] in d;
    }
  }

  // ---------------------------------------------------------------------------------------------
  // Pricing

  /** The curve's discount factor as a function of the year fraction. */
  function DiscountCurve(zc: ZeroCouponCurve, pow: (real, real) -> real): real -> real
    requires ZeroCouponCurves.Valid(zc) && PowPositive(pow)
  {
    yearFrac => DiscountFactor(zc, pow, yearFrac)
  }

  /** `Σ cashflow * discount(yearFrac)`, accumulated in ascending key order. */
  function DiscountedSum(cashflows: seq<Entry>, discount: real -> real): real
  {
    if |cashflows| == 0 then 0.0
    else
      var last := cashflows[|cashflows| - 1];
      DiscountedSum(cashflows[..|cashflows| - 1], discount) + last.value * discount(last.key)
  }

  /** The discounted sum over two consecutive runs of entries is the sum of their discounted sums. */
  lemma {:induction false} DiscountedSumSplit(a: seq<Entry>, b: seq<Entry>, discount: real -> real)
    ensures DiscountedSum(a + b, discount) == DiscountedSum(a, discount) + DiscountedSum(b, discount)
    decreases |b|
  {
    if |b| > 0 {
      var b' := b[..|b| - 1];
      assert (a + b)[..|a + b| - 1] == a + b';
      DiscountedSumSplit(a, b', discount);
    } else {
      assert a + b == a;
    }
  }

  /** Accumulating one more entry adds its discounted amount. */
  lemma DiscountedSumStep(cashflows: seq<Entry>, i: nat, discount: real -> real)
    requires i < |cashflows|
    ensures DiscountedSum(cashflows[..i + 1], discount)
      == DiscountedSum(cashflows[..i], discount) + cashflows[i].value * discount(cashflows[i].key)
  {
    assert cashflows[..i + 1][..i] == cashflows[..i];
  }

  /** A single cashflow is worth its amount times the discount factor at its year fraction. */
  lemma DiscountedSumSingle(e: Entry, discount: real -> real)
    ensures DiscountedSum([e], discount) == e.value * discount(e.key)
  {
    assert [e][..0] == [];
  }

  /**
   * `Price(evaluationDate, marketCurve)`: a one-entry schedule is worth exactly zero and no curve is
   * built; otherwise the price fails exactly when the bootstrap fails, and is the discounted sum of
   * the schedule on the bootstrapped zero curve.
   */
  function PriceOf(cashflows: SortedDict, curve: MarketCurve, lib: Library): (r: Result<real>)
    requires curve.couponFrequency >= 1 && PowPositive(lib.pow) && NonnegativeSolver(lib.minimize)
    ensures |cashflows| == 1 ==> r == Success(0.0)
    ensures |cashflows| != 1 ==> (r.Failure? <==> ZeroCurveOf(curve, lib).Failure?)
  {
    if |cashflows| == 1 then Success(0.0)
    else
      var zc := ZeroCurveOf(curve, lib);
      if zc.Failure? then Failure(zc.error)
      else
        ZeroCurveOfValid(curve, lib);
        Success(DiscountedSum(cashflows, DiscountCurve(zc.value, lib.pow)))
  }

  /** The discount loop of `Price(evaluationDate, marketCurve)`: `price += cashflow * DiscountFactor(yearFrac)`. */
  method DiscountCashflows(cashflows: SortedDict, discount: real -> real) returns (price: real)
    ensures price == DiscountedSum(cashflows, discount)
  {
    price := 0.0;
    for i := 0 to |cashflows|
      invariant price == DiscountedSum(cashflows[..i], discount)
    {
      var yearFrac := cashflows[i].key;
      var cashflow := cashflows[i].value;
      DiscountedSumStep(cashflows, i, discount);
      price := price + cashflow * discount(yearFrac);
    }
    assert cashflows[..|cashflows|] == cashflows;
  }

  // ---------------------------------------------------------------------------------------------
  // Delta

  /** The one-basis-point shift applied to the bumped tenor. */
  const BasisPoint: real := 0.0001

  /** A copy of the curve, with the same frequency, whose rate at `tenor` is shifted by `shift`. */
  function Bump(curve: MarketCurve, tenor: real, shift: real): MarketCurve
    requires tenor in Keys(curve.points)
  {
    MarketCurve(Adjust(curve.points, tenor, shift), curve.couponFrequency)
  }

  /**
   * The bumped curve has the original's tenors and frequency and differs from it only at `tenor`,
   * by exactly `shift`.
   */
  lemma BumpOnlyAtTenor(curve: MarketCurve, tenor: real, shift: real)
    requires tenor in Keys(curve.points)
    ensures Bump(curve, tenor, shift).couponFrequency == curve.couponFrequency
    ensures Keys(Bump(curve, tenor, shift).points) == Keys(curve.points)
    ensures forall j :: 0 <= j < |curve.points| && curve.points[j].key != tenor ==>
      Bump(curve, tenor, shift).points[j] == curve.points[j]
    ensures forall j :: 0 <= j < |curve.points| && curve.points[j].key == tenor ==>
      Bump(curve, tenor, shift).points[j] == Entry(tenor, curve.points[j].value + shift)
  {
    var r := Bump(curve, tenor, shift).points;
    forall j | 0 <= j < |curve.points| ensures r[j].key == curve.points[j].key {
      assert Keys(r)[j] == Keys(curve.points)[j];
    }
  }

  /**
   * Half the difference between a down price and an up price; the first failure, in the order
   * the prices are computed, is passed on.
   */
  function Spread(down: Result<real>, up: Result<real>): (r: Result<real>)
    ensures r.Success? <==> down.Success? && up.Success?
    ensures down.Failure? ==> r == Failure(down.error)
    ensures down.Success? && up.Failure? ==> r == Failure(up.error)
  {
    if down.Failure? then Failure(down.error)
    else if up.Failure? then Failure(up.error)
    else Success((down.value - up.value) / 2.0)
  }

  /**
   * `Delta(evaluationDate, tenor)`: a tenor the curve does not hold fails; otherwise the spread of
   * the prices on the curve bumped down and bumped up by one basis point.
   */
  function DeltaOf(cashflows: SortedDict, curve: MarketCurve, tenor: real, lib: Library): (r: Result<real>)
    requires curve.couponFrequency >= 1 && PowPositive(lib.pow) && NonnegativeSolver(lib.minimize)
    ensures tenor !in Keys(curve.points) <==> r == Failure(TenorNotFound)
    ensures tenor in Keys(curve.points) && |cashflows| == 1 ==> r == Success(0.0)
  {
    if tenor !in Keys(curve.points) then Failure(TenorNotFound)
    else Spread(PriceOf(cashflows, Bump(curve, tenor, -BasisPoint), lib), PriceOf(cashflows, Bump(curve, tenor, BasisPoint), lib))
  }

  /** When both bumped prices exist, the delta is half the down price minus the up price. */
  lemma DeltaOfBumpedPrices(cashflows: SortedDict, curve: MarketCurve, tenor: real, lib: Library)
    requires curve.couponFrequency >= 1 && PowPositive(lib.pow) && NonnegativeSolver(lib.minimize) && tenor in Keys(curve.points)
    ensures (PriceOf(cashflows, Bump(curve, tenor, -BasisPoint), lib).Success? &&
             PriceOf(cashflows, Bump(curve, tenor, BasisPoint), lib).Success?) ==>
      DeltaOf(cashflows, curve, tenor, lib) ==
        Success((PriceOf(cashflows, Bump(curve, tenor, -BasisPoint), lib).value - PriceOf(cashflows, Bump(curve, tenor, BasisPoint), lib).value) / 2.0)
  {
  }

  // ---------------------------------------------------------------------------------------------
  // The bond

  class Bond {
    const issueDate: int
    const maturityDate: int
    const couponRate: real
    const couponFrequency: int
    const isForward: bool
    const marketCurve: MarketCurve
    /** The calendar, power and solver the computations call. */
    const lib: Library
    /** The memoised price: `None` until a price has been computed on the bond's own curve. */
    var price: Option<real>

    constructor(issueDate: int, maturityDate: int, couponRate: real, couponFrequency: int, isForward: bool,
                marketCurve: SortedDict, lib: Library)
      ensures this.issueDate == issueDate && this.maturityDate == maturityDate
      ensures this.couponRate == couponRate && this.couponFrequency == couponFrequency
      ensures this.isForward == isForward && this.lib == lib
      ensures this.marketCurve == MarketCurve(marketCurve, couponFrequency)
      ensures price == None
      ensures 1 <= couponFrequency <= 12 && Externals.Valid(lib) ==> Valid()
    {
      this.issueDate := issueDate;
      this.maturityDate := maturityDate;
      this.couponRate := couponRate;
      this.couponFrequency := couponFrequency;
      this.isForward := isForward;
      this.marketCurve := MarketCurve(marketCurve, couponFrequency);
      this.lib := lib;
      price := None;
    }

    /** What every computation on the bond needs: a frequency in `1..12` and a well-behaved library. */
    ghost predicate Valid()
    {
      1 <= couponFrequency <= 12 && marketCurve.couponFrequency == couponFrequency && Externals.Valid(lib)
    }

    function BondTerms(): Terms
    {
      Terms(issueDate, maturityDate, couponRate, couponFrequency, isForward)
    }

    /** The forward branch of `GetCashflows`: coupon dates stepped forward from the issue date, then maturity. */
    method ForwardCoupons(evaluationDate: int) returns (cashflows: SortedDict)
      requires Valid() && isForward
      ensures cashflows == CouponTable(BondTerms(), lib.addMonths, evaluationDate)
    {
      var gap := GapMonths(couponFrequency);
      ghost var all := Periods(BondTerms(), lib.addMonths);
      ghost var done: seq<Period> := [];
      cashflows := [];
      var prevCashflowDate := issueDate;
      var cashflowDate := lib.addMonths(issueDate, gap);
      while cashflowDate < maturityDate
        invariant done + ForwardPeriods(lib.addMonths, gap, prevCashflowDate, cashflowDate, maturityDate) == all
        invariant prevCashflowDate < cashflowDate
        invariant forall p :: p in done ==> p.end <= prevCashflowDate && p.end < maturityDate
        invariant cashflows == Coupons(done, evaluationDate, couponRate)
        decreases maturityDate - cashflowDate
      {
        var period := Period(prevCashflowDate, cashflowDate);
        var yearFrac := YearFrac(cashflowDate, evaluationDate);
        AppendCoupon(cashflows, done, period, evaluationDate, couponRate);
        if yearFrac > 0.0 {
          cashflows := Add(cashflows, yearFrac, Accrued(couponRate, period));
        }
        ForwardStep(lib.addMonths, gap, done, prevCashflowDate, cashflowDate, maturityDate);
        done := done + [period];
        prevCashflowDate := cashflowDate;
        cashflowDate := lib.addMonths(cashflowDate, gap);
      }
      var period := Period(prevCashflowDate, maturityDate);
      var yearFrac := YearFrac(maturityDate, evaluationDate);
      AppendCoupon(cashflows, done, period, evaluationDate, couponRate);
      if yearFrac > 0.0 {
        cashflows := Add(cashflows, yearFrac, Accrued(couponRate, period));
      }
      assert all == done + [period];
    }

    /** The backward branch of `GetCashflows`: coupon dates stepped back from maturity while after the issue date. */
    method BackwardCoupons(evaluationDate: int) returns (cashflows: SortedDict)
      requires Valid() && !isForward
      ensures cashflows == CouponTable(BondTerms(), lib.addMonths, evaluationDate)
    {
      var gap := GapMonths(couponFrequency);
      ghost var all := Periods(BondTerms(), lib.addMonths);
      ghost var done: seq<Period> := [];
      cashflows := [];
      var prevCashflowDate := lib.addMonths(maturityDate, -gap);
      var cashflowDate := maturityDate;
      while prevCashflowDate > issueDate
        invariant BackwardPeriods(lib.addMonths, gap, issueDate, prevCashflowDate, cashflowDate) + done == all
        invariant prevCashflowDate < cashflowDate
        invariant forall p :: p in done ==> cashflowDate < p.end
        invariant |done| > 0 ==> issueDate < cashflowDate
        invariant cashflows == Coupons(done, evaluationDate, couponRate)
        decreases prevCashflowDate - issueDate
      {
        var period := Period(prevCashflowDate, cashflowDate);
        var yearFrac := YearFrac(cashflowDate, evaluationDate);
        PrependCoupon(cashflows, period, done, evaluationDate, couponRate);
        if yearFrac > 0.0 {
          cashflows := Add(cashflows, yearFrac, Accrued(couponRate, period));
        }
        BackwardStep(lib.addMonths, gap, issueDate, prevCashflowDate, cashflowDate, done);
        done := [period] + done;
        cashflowDate := prevCashflowDate;
        prevCashflowDate := lib.addMonths(prevCashflowDate, -gap);
      }
      var period := Period(cashflowDate, issueDate);
      var yearFrac := YearFrac(issueDate, evaluationDate);
      PrependCoupon(cashflows, period, done, evaluationDate, couponRate);
      if yearFrac > 0.0 {
        cashflows := Add(cashflows, yearFrac, Accrued(couponRate, period));
      }
      assert all == [period] + done;
    }

    /** `GetCashflows`: walk the schedule in the bond's direction, then add the principal to the last entry. */
    method GetCashflows(evaluationDate: int) returns (cashflows: SortedDict)
      requires Valid()
      ensures cashflows == Cashflows(BondTerms(), lib.addMonths, evaluationDate)
    {
      if isForward {
        cashflows := ForwardCoupons(evaluationDate);
      } else {
        cashflows := BackwardCoupons(evaluationDate);
      }
      if |cashflows| != 0 {
        MaxIsGreatest(Keys(cashflows));
        var lastYearFrac := Max(Keys(cashflows));
        cashflows := Adjust(cashflows, lastYearFrac, 1.0);
      }
    }

    /** `Price(evaluationDate, marketCurve)`: uses the bond's terms, never its memo. */
    method PriceWith(evaluationDate: int, curve: MarketCurve) returns (r: Result<real>)
      requires Valid() && curve.couponFrequency >= 1
      ensures r == PriceOf(Cashflows(BondTerms(), lib.addMonths, evaluationDate), curve, lib)
    {
      var cashflows := GetCashflows(evaluationDate);
      if |cashflows| == 1 {
        return Success(0.0);
      }
      var zeroCouponCurve := BuildZeroCouponCurve(curve, lib);
      if zeroCouponCurve.Failure? {
        return Failure(zeroCouponCurve.error);
      }
      var total := DiscountCashflows(cashflows, DiscountCurve(zeroCouponCurve.value, lib.pow));
      return Success(total);
    }

    /**
     * `Price(evaluationDate)`: without a memo it prices on the bond's own curve and keeps a
     * successful result; with one it returns the memo, whatever the evaluation date.
     */
    method Price(evaluationDate: int) returns (r: Result<real>)
      requires Valid()
      modifies this
      ensures old(price).Some? ==> r == Success(old(price).value) && price == old(price)
      ensures old(price).None? ==> r == PriceOf(Cashflows(BondTerms(), lib.addMonths, evaluationDate), marketCurve, lib)
      ensures old(price).None? ==> price == (if r.Success? then Some(r.value) else None)
    {
      if price.None? {
        r := PriceWith(evaluationDate, marketCurve);
        if r.Success? {
          price := Some(r.value);
        }
        return;
      }
      r := Success(price.value);
    }

    /** `Delta(evaluationDate, tenor)`: prices two bumped copies of the curve and leaves the bond untouched. */
    method Delta(evaluationDate: int, tenor: real) returns (r: Result<real>)
      requires Valid()
      ensures r == DeltaOf(Cashflows(BondTerms(), lib.addMonths, evaluationDate), marketCurve, tenor, lib)
    {
      if tenor !in Keys(marketCurve.points) {
        return Failure(TenorNotFound);
      }
      var downDeltaCurve := Bump(marketCurve, tenor, -BasisPoint);
      var downDeltaPrice := PriceWith(evaluationDate, downDeltaCurve);
      if downDeltaPrice.Failure? {
        return Failure(downDeltaPrice.error);
      }
      var upDeltaCurve := Bump(marketCurve, tenor, BasisPoint);
      var upDeltaPrice := PriceWith(evaluationDate, upDeltaCurve);
      r := Spread(downDeltaPrice, upDeltaPrice);
    }
  }
}
