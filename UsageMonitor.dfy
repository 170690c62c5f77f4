/**
 * The client-side usage-quota guard: daily counters of backend reads, writes
 * and function invocations, checked against fixed limits (75% of the free
 * tier), reset when the stored day differs from today, persisted after every
 * committed change, and classified into three alert tiers.  "Today" (the UTC
 * date of the device clock) is a parameter.
 */
module UsageMonitor {
  import opened Documents

  datatype UsageKind = Reads | Writes | Functions

  datatype UsageData = UsageData(readsToday: int, writesToday: int, functionsToday: int, lastReset: string)

  datatype AlertLevel = Safe | Warning | Danger

  /** `DAILY_LIMITS`. */
  function Limit(kind: UsageKind): int {
    match kind
    case Reads => 30000
    case Writes => 11250
    case Functions => 750
  }

  /** `ALERT_THRESHOLDS`: warning from 70%, danger from 90%. */
  const SAFE_THRESHOLD: real := 0.7
  const WARNING_THRESHOLD: real := 0.9

  function Count(d: UsageData, kind: UsageKind): int {
    match kind
    case Reads => d.readsToday
    case Writes => d.writesToday
    case Functions => d.functionsToday
  }

  function WithCount(d: UsageData, kind: UsageKind, n: int): (r: UsageData)
    ensures Count(r, kind) == n && r.lastReset == d.lastReset
    ensures forall k :: k != kind ==> Count(r, k) == Count(d, k)
  {
    match kind
    case Reads => d.(readsToday := n)
    case Writes => d.(writesToday := n)
    case Functions => d.(functionsToday := n)
  }

  /**
   * `checkAndResetDaily`: the result is dated today; a new day zeroes all
   * three counters, and data of the same day is returned as it is.
   */
  function CheckAndResetDaily(d: UsageData, today: string): (r: UsageData)
    ensures r.lastReset == today
    ensures d.lastReset != today ==> forall k :: Count(r, k) == 0
    ensures d.lastReset == today ==> r == d
  {
    if d.lastReset != today then UsageData(0, 0, 0, today) else d
  }

  /** The data `incrementUsage` builds: the reset data with one counter raised by `count`. */
  function Incremented(d: UsageData, today: string, kind: UsageKind, count: int): (r: UsageData)
    ensures r.lastReset == today
    ensures Count(r, kind) == (if d.lastReset == today then Count(d, kind) else 0) + count
    ensures forall k :: k != kind ==> Count(r, k) == (if d.lastReset == today then Count(d, k) else 0)
  {
    var current := CheckAndResetDaily(d, today);
    WithCount(current, kind, Count(current, kind) + count)
  }

  /**
   * `wouldExceedLimit(type, count)`: whether the counter `incrementUsage`
   * would build passes its limit; on a new day only `count` itself matters.
   */
  function WouldExceedLimit(d: UsageData, today: string, kind: UsageKind, count: int): (exceeds: bool)
    ensures exceeds <==> Count(Incremented(d, today, kind, count), kind) > Limit(kind)
    ensures d.lastReset != today ==> (exceeds <==> count > Limit(kind))
  {
    Count(CheckAndResetDaily(d, today), kind) + count > Limit(kind)
  }

  // ---- alert level and report ----

  function Ratio(d: UsageData, kind: UsageKind): real {
    Count(d, kind) as real / Limit(kind) as real
  }

  function RealMax(a: real, b: real): real {
    if a >= b then a else b
  }

  /** Some counter is at `threshold` of its limit or more. */
  predicate AnyRatioAtLeast(d: UsageData, threshold: real) {
    Ratio(d, Reads) >= threshold || Ratio(d, Writes) >= threshold || Ratio(d, Functions) >= threshold
  }

  /**
   * `getAlertLevel`, on the counters as they are (no reset first): the
   * largest of the three ratios decides, so the level is danger when some
   * counter reaches 90%, warning when none does but one reaches 70%, and safe
   * otherwise.
   */
  function GetAlertLevel(d: UsageData): (level: AlertLevel)
    ensures level == Danger <==> AnyRatioAtLeast(d, WARNING_THRESHOLD)
    ensures level == Warning <==> !AnyRatioAtLeast(d, WARNING_THRESHOLD) && AnyRatioAtLeast(d, SAFE_THRESHOLD)
    ensures level == Safe <==> !AnyRatioAtLeast(d, SAFE_THRESHOLD)
  {
    var maxPercentage := RealMax(RealMax(Ratio(d, Reads), Ratio(d, Writes)), Ratio(d, Functions));
    if maxPercentage >= WARNING_THRESHOLD then Danger
    else if maxPercentage >= SAFE_THRESHOLD then Warning
    else Safe
  }

  /**
   * `Math.round(current / limit * 100)` on exact rationals: the integer
   * nearest to `100 * current / limit`, halves rounded up; 0 at zero, 100 at
   * the limit, and within 0..100 in between.
   */
  function Percentage(current: int, limit: int): (p: int)
    requires limit > 0
    ensures 2 * limit * p <= 200 * current + limit < 2 * limit * p + 2 * limit
    ensures current == 0 ==> p == 0
    ensures current == limit ==> p == 100
    ensures 0 <= current <= limit ==> 0 <= p <= 100
  {
    var p := (200 * current + limit) / (2 * limit);
    RoundedBounds(current, limit, p);
    p
  }

  /** The rounding bounds pin the percentage down at zero, at the limit and in between. */
  lemma RoundedBounds(current: int, limit: int, p: int)
    requires limit > 0 && p == (200 * current + limit) / (2 * limit)
    ensures 2 * limit * p <= 200 * current + limit < 2 * limit * p + 2 * limit
    ensures current == 0 ==> p == 0
    ensures current == limit ==> p == 100
    ensures 0 <= current <= limit ==> 0 <= p <= 100
  {
    var l2 := 2 * limit;
    DivBounds(200 * current + limit, l2);
    ScaleOrder(l2, p, -1);
    ScaleOrder(l2, 101, p);
    ScaleOrder(l2, p, 99);
    ScaleOrder(l2, 1, p);
  }

  /** Euclidean division by a positive divisor. */
  lemma DivBounds(x: int, b: int)
    requires b > 0
    ensures b * (x / b) <= x < b * (x / b) + b
  {
  }

  /** Multiplying by a positive number keeps the order. */
  lemma ScaleOrder(b: int, p: int, k: int)
    requires b > 0
    ensures b * p <= b * k <==> p <= k
  {
    if p <= k {
      assert b * k - b * p == b * (k - p);
    } else {
      assert b * p - b * k == b * (p - k);
    }
  }

  datatype KindReport = KindReport(current: int, limit: int, percentage: int)

  datatype UsageReport = UsageReport(readsReport: KindReport, writesReport: KindReport, functionsReport: KindReport, alertLevel: AlertLevel)

  function KindReportOf(d: UsageData, kind: UsageKind): KindReport {
    KindReport(Count(d, kind), Limit(kind), Percentage(Count(d, kind), Limit(kind)))
  }

  /** The entry of a report for one kind of usage. */
  function EntryOf(r: UsageReport, kind: UsageKind): KindReport {
    match kind
    case Reads => r.readsReport
    case Writes => r.writesReport
    case Functions => r.functionsReport
  }

  /**
   * `getUsageReport`: for each kind, the entry of that kind holds its own
   * counter, its own limit and its percentage; the level is `getAlertLevel()`.
   */
  function GetUsageReport(d: UsageData): (r: UsageReport)
    ensures forall kind :: EntryOf(r, kind) == KindReportOf(d, kind)
    ensures r.alertLevel == GetAlertLevel(d)
  {
    UsageReport(KindReportOf(d, Reads), KindReportOf(d, Writes), KindReportOf(d, Functions), GetAlertLevel(d))
  }

  // ---- the hook's state ----

  /** The hook's `usageData` state, its loading flag, and the stored entry under its storage key. */
  class Monitor {
    var usageData: UsageData
    var isLoading: bool
    var stored: Option<UsageData>

    /** The initial state: zero counters dated today; `stored` is what the storage already holds. */
    constructor (today: string, stored: Option<UsageData>)
      ensures usageData == UsageData(0, 0, 0, today) && isLoading && this.stored == stored
    {
      usageData := UsageData(0, 0, 0, today);
      isLoading := true;
      this.stored := stored;
    }

    /** `loadUsageData`: adopt the stored entry if there is one, then stop loading. */
    method LoadUsageData()
      modifies this
      ensures usageData == (if old(stored).Some? then old(stored).value else old(usageData))
      ensures !isLoading && stored == old(stored)
    {
      if stored.Some? {
        usageData := stored.value;
      }
      isLoading := false;
    }

    /** The effect that runs on every render: commit and persist a pending daily reset. */
    method ResetEffect(today: string)
      modifies this
      ensures usageData == CheckAndResetDaily(old(usageData), today)
      ensures stored == (if old(usageData).lastReset != today then Some(usageData) else old(stored))
      ensures isLoading == old(isLoading)
    {
      var resetData := CheckAndResetDaily(usageData, today);
      if resetData != usageData {
        usageData := resetData;
        stored := Some(resetData);
      }
    }

    /**
     * `incrementUsage(type, count)`: admitted exactly when the limit is not
     * exceeded after the pending reset; only an admitted call changes the
     * state and the stored entry.
     */
    method IncrementUsage(kind: UsageKind, count: int, today: string) returns (allowed: bool)
      modifies this
      ensures allowed == !WouldExceedLimit(old(usageData), today, kind, count)
      ensures allowed ==> usageData == Incremented(old(usageData), today, kind, count) && stored == Some(usageData)
      ensures !allowed ==> usageData == old(usageData) && stored == old(stored)
      ensures isLoading == old(isLoading)
    {
      var currentData := CheckAndResetDaily(usageData, today);
      var newData := currentData;
      match kind {
        case Reads =>
          newData := newData.(readsToday := newData.readsToday + count);
          if newData.readsToday > Limit(Reads) {
            return false;
          }
        case Writes =>
          newData := newData.(writesToday := newData.writesToday + count);
          if newData.writesToday > Limit(Writes) {
            return false;
          }
        case Functions =>
          newData := newData.(functionsToday := newData.functionsToday + count);
          if newData.functionsToday > Limit(Functions) {
            return false;
          }
      }
      usageData := newData;
      stored := Some(newData);
      return true;
    }
  }

  // ---- properties ----

  /** Resetting twice on the same day is resetting once; the result is dated today. */
  lemma ResetIdempotent(d: UsageData, today: string)
    ensures CheckAndResetDaily(CheckAndResetDaily(d, today), today) == CheckAndResetDaily(d, today)
    ensures CheckAndResetDaily(d, today).lastReset == today
    ensures d.lastReset == today ==> CheckAndResetDaily(d, today) == d
  {
  }

  /** An admitted call raises only its own counter, by exactly `count`, on the reset data. */
  lemma AdmittedIncrement(d: UsageData, today: string, kind: UsageKind, count: int)
    requires !WouldExceedLimit(d, today, kind, count)
    ensures var r := CheckAndResetDaily(d, today);
      var n := Incremented(d, today, kind, count);
      && Count(n, kind) == Count(r, kind) + count
      && Count(n, kind) <= Limit(kind)
      && (forall k :: k != kind ==> Count(n, k) == Count(r, k))
      && n.lastReset == today
  {
  }

  /** One call of `incrementUsage` as a transition of the stored data. */
  datatype Request = Request(kind: UsageKind, count: int, today: string)

  function Step(d: UsageData, r: Request): UsageData {
    if WouldExceedLimit(d, r.today, r.kind, r.count) then d else Incremented(d, r.today, r.kind, r.count)
  }

  function Run(d: UsageData, requests: seq<Request>): UsageData
    decreases |requests|
  {
    if requests == [] then d else Run(Step(d, requests[0]), requests[1..])
  }

  predicate WithinLimits(d: UsageData) {
    forall k :: 0 <= Count(d, k) <= Limit(k)
  }

  lemma StepWithinLimits(d: UsageData, r: Request)
    requires WithinLimits(d) && r.count >= 0
    ensures WithinLimits(Step(d, r))
  {
    if !WouldExceedLimit(d, r.today, r.kind, r.count) {
      AdmittedIncrement(d, r.today, r.kind, r.count);
      var n := Step(d, r);
      forall k ensures 0 <= Count(n, k) <= Limit(k) {
        if k != r.kind {
          assert Count(n, k) == Count(CheckAndResetDaily(d, r.today), k);
        }
      }
    }
  }

  /** From counters within the limits, calls with non-negative counts keep every counter within its limit. */
  lemma {:induction false} RunWithinLimits(d: UsageData, requests: seq<Request>)
    requires WithinLimits(d)
    requires forall i :: 0 <= i < |requests| ==> requests[i].count >= 0
    ensures WithinLimits(Run(d, requests))
    decreases |requests|
  {
    if requests != [] {
      StepWithinLimits(d, requests[0]);
      RunWithinLimits(Step(d, requests[0]), requests[1..]);
    }
  }

  /** Counter `kind` is at `tenths`/10 of its limit or more, in integer terms. */
  predicate Reaches(d: UsageData, kind: UsageKind, tenths: int) {
    10 * Count(d, kind) >= tenths * Limit(kind)
  }

  predicate AnyReaches(d: UsageData, tenths: int) {
    Reaches(d, Reads, tenths) || Reaches(d, Writes, tenths) || Reaches(d, Functions, tenths)
  }

  /** The alert tiers in integer terms: danger iff some counter reaches 90% of its limit, else warning iff 70%. */
  lemma AlertLevelExact(d: UsageData)
    ensures GetAlertLevel(d) == Danger <==> AnyReaches(d, 9)
    ensures GetAlertLevel(d) == Warning <==> !AnyReaches(d, 9) && AnyReaches(d, 7)
    ensures GetAlertLevel(d) == Safe <==> !AnyReaches(d, 7)
  {
    RatioThreshold(d, Reads);
    RatioThreshold(d, Writes);
    RatioThreshold(d, Functions);
  }

  /** The ratio compared with 0.9 and 0.7 is the integer comparison: the limits are exact. */
  lemma RatioThreshold(d: UsageData, kind: UsageKind)
    ensures Ratio(d, kind) >= WARNING_THRESHOLD <==> Reaches(d, kind, 9)
    ensures Ratio(d, kind) >= SAFE_THRESHOLD <==> Reaches(d, kind, 7)
  {
    var c := Count(d, kind) as real;
    match kind
    case Reads => assert Ratio(d, kind) == c / 30000.0;
    case Writes => assert Ratio(d, kind) == c / 11250.0;
    case Functions => assert Ratio(d, kind) == c / 750.0;
  }

  function Rank(a: AlertLevel): int {
    match a
    case Safe => 0
    case Warning => 1
    case Danger => 2
  }

  /** More usage never gives a lower tier. */
  lemma AlertLevelMonotone(d: UsageData, e: UsageData)
    requires forall k :: Count(d, k) <= Count(e, k)
    ensures Rank(GetAlertLevel(d)) <= Rank(GetAlertLevel(e))
  {
    AlertLevelExact(d);
    AlertLevelExact(e);
  }

  /**
   * Every entry of the report copies its own counter and limit, reads 0% at
   * zero and 100% at the limit, and stays within 0..100 in between; the
   * report carries the alert level.
   */
  lemma ReportSpec(d: UsageData, kind: UsageKind)
    ensures var r := EntryOf(GetUsageReport(d), kind);
      && r == KindReportOf(d, kind)
      && r.current == Count(d, kind) && r.limit == Limit(kind)
      && (Count(d, kind) == 0 ==> r.percentage == 0)
      && (Count(d, kind) == Limit(kind) ==> r.percentage == 100)
      && (0 <= Count(d, kind) <= Limit(kind) ==> 0 <= r.percentage <= 100)
    ensures GetUsageReport(d).alertLevel == GetAlertLevel(d)
  {
  }

  /** A stale day with 10000 writes admits one write today and restarts the count at 1. */
  lemma NewDayExample()
    ensures var d := UsageData(0, 10000, 0, "2024-01-01");
      && !WouldExceedLimit(d, "2024-01-02", Writes, 1)
      && Incremented(d, "2024-01-02", Writes, 1) == UsageData(0, 1, 0, "2024-01-02")
  {
  }

  /** At the limit, a further write is refused. */
  lemma DenialExample()
    ensures WouldExceedLimit(UsageData(0, 11250, 0, "2024-01-02"), "2024-01-02", Writes, 1)
  {
  }
}
