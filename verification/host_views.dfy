/** The read-side rules of HostService: which availability metric a page
    shows, the status label, the uptime text, the overall availability of the
    admin dashboard, and the homepage host list. */
module HostViews {
  import opened Wrappers
  import opened Text
  import opened Domain
  import opened HistoryRepository

  // ---------------------------------------------------------------------
  // Priority key

  /** `getPriorityKey`: the first of three keys the host configures. */
  function PriorityKey(configured: set<string>, key1: string, key2: string, key3: string): (r: Option<string>)
    ensures r.None? <==> key1 !in configured && key2 !in configured && key3 !in configured
    ensures r.Some? ==> r.value in configured
  {
    if key1 in configured then Some(key1)
    else if key2 in configured then Some(key2)
    else if key3 in configured then Some(key3)
    else None
  }

  /** Reference: the earliest candidate that is configured. */
  function FirstConfigured(candidates: seq<string>, configured: set<string>): (r: Option<string>)
    ensures r.None? <==> forall i :: 0 <= i < |candidates| ==> candidates[i] !in configured
    ensures r.Some? ==> r.value in candidates && r.value in configured
  {
    if candidates == [] then None
    else if candidates[0] in configured then Some(candidates[0])
    else FirstConfigured(candidates[1..], configured)
  }

  /** No candidate before the one chosen is configured. */
  lemma {:induction false} FirstConfiguredIsEarliest(candidates: seq<string>, configured: set<string>, j: nat)
    requires j < |candidates| && candidates[j] in configured
    ensures exists i :: 0 <= i <= j && Some(candidates[i]) == FirstConfigured(candidates, configured)
                        && forall k :: 0 <= k < i ==> candidates[k] !in configured
  {
    if candidates[0] !in configured {
      FirstConfiguredIsEarliest(candidates[1..], configured, j - 1);
      var i :| 0 <= i <= j - 1 && Some(candidates[1..][i]) == FirstConfigured(candidates[1..], configured)
               && forall k :: 0 <= k < i ==> candidates[1..][k] !in configured;
      assert candidates[i + 1] == candidates[1..][i];
      forall k | 0 <= k < i + 1 ensures candidates[k] !in configured {
        if k > 0 { assert candidates[k] == candidates[1..][k - 1]; }
      }
    }
  }

  lemma PriorityKeyIsFirstConfigured(configured: set<string>, key1: string, key2: string, key3: string)
    ensures PriorityKey(configured, key1, key2, key3) == FirstConfigured([key1, key2, key3], configured)
  {
    var cs := [key1, key2, key3];
    assert cs[1..] == [key2, key3] && cs[1..][1..] == [key3] && cs[1..][1..][1..] == [];
    assert FirstConfigured([key3], configured) == if key3 in configured then Some(key3) else None;
    assert FirstConfigured([key2, key3], configured)
        == if key2 in configured then Some(key2) else FirstConfigured([key3], configured);
    assert FirstConfigured(cs, configured)
        == if key1 in configured then Some(key1) else FirstConfigured([key2, key3], configured);
  }

  /** The global-availability metric shown for a host: health first, then
      http-agente, then ping. */
  function GlobalAvailabilityKey(configured: set<string>): Option<string>
  {
    PriorityKey(configured, AvailGlobalHealth, AvailGlobalHttp, AvailGlobal)
  }

  /** The specific-availability metric shown for a host, in the same order. */
  function SpecificAvailabilityKey(configured: set<string>): Option<string>
  {
    PriorityKey(configured, AvailSpecificHealth, AvailSpecificHttp, AvailSpecific)
  }

  /** The homepage's own if-chain choosing the global key. */
  function HomepageGlobalKey(configured: set<string>): Option<string>
  {
    if AvailGlobalHealth in configured then Some(AvailGlobalHealth)
    else if AvailGlobalHttp in configured then Some(AvailGlobalHttp)
    else if AvailGlobal in configured then Some(AvailGlobal)
    else None
  }

  /** The homepage's own if-chain choosing the specific key. */
  function HomepageSpecificKey(configured: set<string>): Option<string>
  {
    if AvailSpecificHealth in configured then Some(AvailSpecificHealth)
    else if AvailSpecificHttp in configured then Some(AvailSpecificHttp)
    else if AvailSpecific in configured then Some(AvailSpecific)
    else None
  }

  /** The homepage and the host dashboard pick the same metrics. */
  lemma HomepageAgreesWithDashboard(configured: set<string>)
    ensures HomepageGlobalKey(configured) == FirstConfigured([AvailGlobalHealth, AvailGlobalHttp, AvailGlobal], configured)
    ensures HomepageSpecificKey(configured) == FirstConfigured([AvailSpecificHealth, AvailSpecificHttp, AvailSpecific], configured)
    ensures HomepageGlobalKey(configured) == GlobalAvailabilityKey(configured)
  {
    PriorityKeyIsFirstConfigured(configured, AvailGlobalHealth, AvailGlobalHttp, AvailGlobal);
    PriorityKeyIsFirstConfigured(configured, AvailSpecificHealth, AvailSpecificHttp, AvailSpecific);
  }

  // ---------------------------------------------------------------------
  // Status label

  /** The status text of the host dashboard. */
  function StatusLabel(s: HostStatus): (text: string)
    ensures text in {"OK", "ALERT", "PROBLEM"}
  {
    match s
    case Active => "OK"
    case Alert => "ALERT"
    case Inactive => "PROBLEM"
  }

  /** Reading a label back. */
  function StatusOfLabel(text: string): (r: Option<HostStatus>)
    ensures r.Some? <==> text in {"OK", "ALERT", "PROBLEM"}
  {
    if text == "OK" then Some(Active)
    else if text == "ALERT" then Some(Alert)
    else if text == "PROBLEM" then Some(Inactive)
    else None
  }

  /** Every status has its own label, and the label gives the status back. */
  lemma StatusLabelRoundTrip(s: HostStatus, t: HostStatus)
    ensures StatusOfLabel(StatusLabel(s)) == Some(s)
    ensures StatusLabel(s) == StatusLabel(t) ==> s == t
  {
  }

  // ---------------------------------------------------------------------
  // Uptime

  /** Java's `/` on `long`: the quotient truncated toward zero. */
  function JavaDiv(a: int, b: int): int
    requires b > 0
  {
    if a >= 0 then a / b else -((-a) / b)
  }

  /** Java's `%` on `long`: the remainder takes the sign of the dividend. */
  function JavaRem(a: int, b: int): (r: int)
    requires b > 0
    ensures a == JavaDiv(a, b) * b + r
    ensures a >= 0 ==> 0 <= r < b
    ensures a < 0 ==> -b < r <= 0
  {
    if a >= 0 then a % b else -((-a) % b)
  }

  datatype Uptime = Uptime(days: int, hours: int, minutes: int)

  /** The days, hours and minutes `formatUptime` prints. */
  function UptimeOf(totalSeconds: int): Uptime
  {
    var dayRest := JavaRem(totalSeconds, 86400);
    Uptime(JavaDiv(totalSeconds, 86400), JavaDiv(dayRest, 3600), JavaDiv(JavaRem(dayRest, 3600), 60))
  }

  function UptimeSeconds(u: Uptime): int
  {
    u.days * 86400 + u.hours * 3600 + u.minutes * 60
  }

  /** For a non-negative count the parts are a proper split: hours below 24,
      minutes below 60, and less than a minute left over. */
  lemma UptimeIsProperSplit(totalSeconds: int)
    requires totalSeconds >= 0
    ensures var u := UptimeOf(totalSeconds);
            u.days >= 0 && 0 <= u.hours < 24 && 0 <= u.minutes < 60
            && UptimeSeconds(u) <= totalSeconds < UptimeSeconds(u) + 60
  {
    var dayRest := JavaRem(totalSeconds, 86400);
    var hourRest := JavaRem(dayRest, 3600);
    assert hourRest == JavaDiv(hourRest, 60) * 60 + JavaRem(hourRest, 60);
  }

  /** A negative count splits into non-positive parts, truncated toward zero. */
  lemma UptimeOfNegative(totalSeconds: int)
    requires totalSeconds < 0
    ensures var u := UptimeOf(totalSeconds);
            u.days <= 0 && -24 < u.hours <= 0 && -60 < u.minutes <= 0
            && UptimeSeconds(u) - 60 < totalSeconds <= UptimeSeconds(u)
  {
    var dayRest := JavaRem(totalSeconds, 86400);
    var hourRest := JavaRem(dayRest, 3600);
    assert hourRest == JavaDiv(hourRest, 60) * 60 + JavaRem(hourRest, 60);
  }

  const DaysLabel := " dias, "
  const HoursLabel := " horas, "
  const MinutesLabel := " minutos"

  /** `formatUptime`: "%d dias, %d horas, %d minutos". */
  function FormatUptime(totalSeconds: int): string
  {
    var u := UptimeOf(totalSeconds);
    IntToDecimal(u.days) + DaysLabel + IntToDecimal(u.hours) + HoursLabel + IntToDecimal(u.minutes) + MinutesLabel
  }

  /** Reads a run of decimal digits at the head of `text`. */
  function ReadNumber(text: string): (r: Option<(nat, string)>)
    ensures r.Some? ==> |r.value.1| < |text|
  {
    var n := DigitSpan(text);
    if n == 0 then None else Some((DecimalValue(text[..n]), text[n..]))
  }

  /** Consumes `literal` at the head of `text`. */
  function Expect(literal: string, text: string): Option<string>
  {
    if |literal| <= |text| && text[..|literal|] == literal then Some(text[|literal|..]) else None
  }

  /** Reads "<d> dias, <h> horas, <m> minutos" with non-negative numbers, the
      shape the dashboard pulls apart again. */
  function ParseUptime(text: string): Option<Uptime>
  {
    match ReadNumber(text)
    case None => None
    case Some((d, afterDays)) =>
      match Expect(DaysLabel, afterDays)
      case None => None
      case Some(t1) =>
        match ReadNumber(t1)
        case None => None
        case Some((h, afterHours)) =>
          match Expect(HoursLabel, afterHours)
          case None => None
          case Some(t2) =>
            match ReadNumber(t2)
            case None => None
            case Some((m, afterMinutes)) =>
              if afterMinutes == MinutesLabel then Some(Uptime(d, h, m)) else None
  }

  /** A number written by `%d` is read back, and reading stops at the
      literal that follows it. */
  lemma ReadWrittenNumber(n: nat, rest: string)
    requires rest == [] || !IsDigit(rest[0])
    ensures ReadNumber(IntToDecimal(n) + rest) == Some((n, rest))
  {
    var d := IntToDecimal(n);
    DigitSpanOfRun(d, rest);
    assert (d + rest)[..|d|] == d;
    assert (d + rest)[|d|..] == rest;
  }

  lemma ExpectLiteral(literal: string, text: string)
    ensures Expect(literal, literal + text) == Some(text)
  {
    assert (literal + text)[..|literal|] == literal;
    assert (literal + text)[|literal|..] == text;
  }

  /** The text of three non-negative parts reads back as those parts. */
  lemma ParseWrittenUptime(d: nat, h: nat, m: nat)
    ensures ParseUptime(IntToDecimal(d) + (DaysLabel + (IntToDecimal(h) + (HoursLabel + (IntToDecimal(m) + MinutesLabel)))))
            == Some(Uptime(d, h, m))
  {
    var tail3 := IntToDecimal(m) + MinutesLabel;
    var tail2 := IntToDecimal(h) + (HoursLabel + tail3);
    ReadWrittenNumber(d, DaysLabel + tail2);
    ExpectLiteral(DaysLabel, tail2);
    ReadWrittenNumber(h, HoursLabel + tail3);
    ExpectLiteral(HoursLabel, tail3);
    ReadWrittenNumber(m, MinutesLabel);
  }

  /** Regrouping six concatenated pieces to the right. */
  lemma ConcatSixRight<T>(a: seq<T>, b: seq<T>, c: seq<T>, d: seq<T>, e: seq<T>, f: seq<T>)
    ensures a + b + c + d + e + f == a + (b + (c + (d + (e + f))))
  {
    assert a + b + c + d + e + f == (a + b + c + d) + (e + f);
    assert (a + b + c + d) + (e + f) == (a + b + c) + (d + (e + f));
    assert (a + b + c) + (d + (e + f)) == (a + b) + (c + (d + (e + f)));
  }

  lemma FormatUptimeShape(totalSeconds: int)
    ensures var u := UptimeOf(totalSeconds);
            FormatUptime(totalSeconds)
            == IntToDecimal(u.days) + (DaysLabel + (IntToDecimal(u.hours) + (HoursLabel + (IntToDecimal(u.minutes) + MinutesLabel))))
  {
    var u := UptimeOf(totalSeconds);
    ConcatSixRight(IntToDecimal(u.days), DaysLabel, IntToDecimal(u.hours), HoursLabel, IntToDecimal(u.minutes), MinutesLabel);
  }

  /** For a non-negative count the uptime text reads back as its parts. */
  lemma UptimeRoundTrip(totalSeconds: int)
    requires totalSeconds >= 0
    ensures ParseUptime(FormatUptime(totalSeconds)) == Some(UptimeOf(totalSeconds))
  {
    var u := UptimeOf(totalSeconds);
    UptimeIsProperSplit(totalSeconds);
    FormatUptimeShape(totalSeconds);
    ParseWrittenUptime(u.days, u.hours, u.minutes);
  }

  // ---------------------------------------------------------------------
  // Overall availability

  /** `RoundingMode.HALF_UP` to two decimals: ties go away from zero. */
  function RoundHalfUp2(x: real): real
  {
    if x >= 0.0 then (x * 100.0 + 0.5).Floor as real / 100.0
    else -(((-x) * 100.0 + 0.5).Floor as real / 100.0)
  }

  lemma RoundHalfUp2Close(x: real)
    requires x >= 0.0
    ensures x - 0.005 < RoundHalfUp2(x) <= x + 0.005
  {
    var f := (x * 100.0 + 0.5).Floor;
    assert f as real <= x * 100.0 + 0.5 < f as real + 1.0;
  }

  lemma RoundHalfUp2Range(x: real)
    requires 0.0 <= x <= 100.0
    ensures 0.0 <= RoundHalfUp2(x) <= 100.0
  {
    var f := (x * 100.0 + 0.5).Floor;
    assert f as real <= x * 100.0 + 0.5 < f as real + 1.0;
    assert 0 <= f <= 10000;
  }

  /** Half-up rounding lands on the two-decimal grid. */
  lemma RoundHalfUp2OnGrid(x: real)
    requires x >= 0.0
    ensures OnCentGrid(RoundHalfUp2(x))
  {
    var f := (x * 100.0 + 0.5).Floor;
    assert RoundHalfUp2(x) * 100.0 == f as real;
  }

  /** A value with at most two decimals. */
  predicate OnCentGrid(r: real)
  {
    (r * 100.0).Floor as real == r * 100.0
  }

  /** Two decimals within half a cent of `x` (up, inclusive) can only be
      the half-up rounding of `x`: the contract of a rounding pins its value. */
  lemma GridPinsRounding(x: real, r: real)
    requires x >= 0.0
    requires OnCentGrid(r)
    requires x - 0.005 < r <= x + 0.005
    ensures r == RoundHalfUp2(x)
  {
    var k := (r * 100.0).Floor;
    assert k as real == r * 100.0;
    assert k as real <= x * 100.0 + 0.5 < k as real + 1.0;
    assert (x * 100.0 + 0.5).Floor == k;
  }

  function CountStatus(statuses: seq<HostStatus>, s: HostStatus): (n: nat)
    ensures n <= |statuses|
  {
    if statuses == [] then 0
    else (if statuses[0] == s then 1 else 0) + CountStatus(statuses[1..], s)
  }

  /** The exact share of hosts that are ACTIVE or in ALERT, in percent. */
  function UpShare(statuses: seq<HostStatus>): (r: real)
    requires |statuses| > 0
  {
    (CountStatus(statuses, Active) + CountStatus(statuses, Alert)) as real / |statuses| as real * 100.0
  }

  lemma {:induction false} UpCountWithinTotal(statuses: seq<HostStatus>)
    ensures CountStatus(statuses, Active) + CountStatus(statuses, Alert) + CountStatus(statuses, Inactive) == |statuses|
  {
    if statuses != [] {
      UpCountWithinTotal(statuses[1..]);
    }
  }

  lemma ShareIsPercentage(up: real, total: real)
    requires 0.0 <= up <= total && total > 0.0
    ensures 0.0 <= up / total * 100.0 <= 100.0
  {
    assert up / total <= 1.0;
  }

  /** The overall availability of the admin dashboard: 100 with no hosts,
      otherwise the share of hosts that are up, rounded half-up to two
      decimals. */
  function OverallAvailability(statuses: seq<HostStatus>): (r: real)
    ensures 0.0 <= r <= 100.0
    ensures statuses == [] ==> r == 100.0
    ensures statuses != [] ==> UpShare(statuses) - 0.005 < r <= UpShare(statuses) + 0.005
    ensures OnCentGrid(r)
  {
    if |statuses| > 0 then
      var share := UpShare(statuses);
      UpCountWithinTotal(statuses);
      ShareIsPercentage((CountStatus(statuses, Active) + CountStatus(statuses, Alert)) as real, |statuses| as real);
      RoundHalfUp2Range(share);
      RoundHalfUp2Close(share);
      RoundHalfUp2OnGrid(share);
      RoundHalfUp2(share)
    else 100.0
  }

  lemma RoundHalfUp2Exact(x: real)
    requires x == 0.0 || x == 100.0
    ensures RoundHalfUp2(x) == x
  {
    var f := (x * 100.0 + 0.5).Floor;
    assert f as real <= x * 100.0 + 0.5 < f as real + 1.0;
    assert f == (x * 100.0) as int;
  }

  lemma WholeShare(n: real)
    requires n > 0.0
    ensures n / n * 100.0 == 100.0
  {
  }

  /** The contract of `OverallAvailability` determines its value: it is the
      share of up hosts rounded half-up to two decimals. */
  lemma OverallIsRoundedShare(statuses: seq<HostStatus>)
    requires statuses != []
    ensures OverallAvailability(statuses) == RoundHalfUp2(UpShare(statuses))
  {
    var r := OverallAvailability(statuses);
    UpCountWithinTotal(statuses);
    ShareIsPercentage((CountStatus(statuses, Active) + CountStatus(statuses, Alert)) as real, |statuses| as real);
    GridPinsRounding(UpShare(statuses), r);
  }

  lemma UpShareAllUp(statuses: seq<HostStatus>)
    requires statuses != [] && CountStatus(statuses, Inactive) == 0
    ensures UpShare(statuses) == 100.0
  {
    UpCountWithinTotal(statuses);
    WholeShare(|statuses| as real);
  }

  lemma UpShareAllDown(statuses: seq<HostStatus>)
    requires statuses != [] && CountStatus(statuses, Inactive) == |statuses|
    ensures UpShare(statuses) == 0.0
  {
    UpCountWithinTotal(statuses);
  }

  /** All hosts up gives 100; all hosts INACTIVE gives 0. */
  lemma OverallAvailabilityExtremes(statuses: seq<HostStatus>)
    requires statuses != []
    ensures CountStatus(statuses, Inactive) == 0 ==> OverallAvailability(statuses) == 100.0
    ensures CountStatus(statuses, Inactive) == |statuses| ==> OverallAvailability(statuses) == 0.0
  {
    OverallIsRoundedShare(statuses);
    if CountStatus(statuses, Inactive) == 0 {
      UpShareAllUp(statuses);
      RoundHalfUp2Exact(100.0);
    }
    if CountStatus(statuses, Inactive) == |statuses| {
      UpShareAllDown(statuses);
      RoundHalfUp2Exact(0.0);
    }
  }

  // ---------------------------------------------------------------------
  // Homepage

  /** The homepage lists the hosts that are not ACTIVE, in their order. */
  function HomepageHosts(hosts: seq<Host>): (r: seq<Host>)
    ensures forall h :: h in r <==> h in hosts && h.status != Active
    ensures |r| <= |hosts|
  {
    if hosts == [] then []
    else
      var rest := HomepageHosts(hosts[1..]);
      assert forall h :: h in hosts <==> h == hosts[0] || h in hosts[1..];
      if hosts[0].status != Active then [hosts[0]] + rest else rest
  }

  /** The homepage's 48-hour availability card: 0 when no history matches. */
  function HomepageAvailability(rows: seq<HistoryRow>, host: int, configured: set<string>, start: int): Option<real>
  {
    match HomepageGlobalKey(configured)
    case None => None
    case Some(key) => Some(Availability(rows, host, key, start).GetOr(0.0))
  }

  /** The host dashboard's availability cards: 100 when no history matches. */
  function DashboardAvailability(rows: seq<HistoryRow>, host: int, metricKey: string, start: int): real
  {
    Availability(rows, host, metricKey, start).GetOr(100.0)
  }

  /** The two pages agree when there is history in the window and show
      opposite extremes when there is none. */
  lemma AvailabilityDefaultsDiffer(rows: seq<HistoryRow>, host: int, configured: set<string>, start: int)
    requires GlobalAvailabilityKey(configured).Some?
    ensures var key := GlobalAvailabilityKey(configured).value;
            var home := HomepageAvailability(rows, host, configured, start).value;
            var dash := DashboardAvailability(rows, host, key, start);
            ((forall x :: x in rows ==> !(OfPair(x, host, key) && x.ts >= start)) ==> home == 0.0 && dash == 100.0)
            && ((exists x :: x in rows && OfPair(x, host, key) && x.ts >= start) ==> home == dash)
  {
    HomepageAgreesWithDashboard(configured);
  }
}
