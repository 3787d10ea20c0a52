/** `formatActivityStatus(isOnline, lastSeen)`: the activity label shown for a
    user, from millisecond timestamps; the clock reading is the parameter `now`. */
module ActivityStatus {

  /** "online" needs a `lastSeen` at most this old. */
  const OnlineThresholdMs := 2 * 60 * 1000

  /** The label kinds, in the order the formatter tries them. `ActiveAt`
      stands for the wall-clock time of `lastSeen`, whose text depends on the
      host's locale and time zone. */
  datatype Status =
    | Online
    | Offline
    | ActiveNow
    | MinutesAgo(minutes: nat)
    | HoursAgo(hours: nat)
    | DaysAgo(days: nat)
    | ActiveAt(lastSeen: int)

  /** The first test of the formatter: online, with a non-zero `lastSeen` at
      most two minutes old. */
  predicate ShownOnline(isOnline: bool, lastSeen: int, now: int) {
    isOnline && lastSeen != 0 && now - lastSeen <= OnlineThresholdMs
  }

  /** The formatter. Its nested `Math.floor` divisions are floor divisions of
      positive divisors, which Dafny's `/` is. Each result kind is given by the
      elapsed time `now - lastSeen` alone, once the online and zero tests fail;
      a `lastSeen` in the future counts as "active now". */
  function FormatActivityStatus(isOnline: bool, lastSeen: int, now: int): (r: Status)
    ensures r == Online <==> ShownOnline(isOnline, lastSeen, now)
    ensures r == Offline <==> lastSeen == 0
    ensures r == ActiveNow <==>
      !ShownOnline(isOnline, lastSeen, now) && lastSeen != 0 && now - lastSeen < 60000
    ensures r.MinutesAgo? <==>
      !ShownOnline(isOnline, lastSeen, now) && lastSeen != 0 && 60000 <= now - lastSeen < 3600000
    ensures r.MinutesAgo? ==> r.minutes == (now - lastSeen) / 60000 && 1 <= r.minutes <= 59
    ensures r.HoursAgo? <==>
      !ShownOnline(isOnline, lastSeen, now) && lastSeen != 0 && 3600000 <= now - lastSeen < 86400000
    ensures r.HoursAgo? ==> r.hours == (now - lastSeen) / 3600000 && 1 <= r.hours <= 23
    ensures r.DaysAgo? <==>
      !ShownOnline(isOnline, lastSeen, now) && lastSeen != 0 && 86400000 <= now - lastSeen < 604800000
    ensures r.DaysAgo? ==> r.days == (now - lastSeen) / 86400000 && 1 <= r.days <= 6
    ensures r.ActiveAt? <==>
      !ShownOnline(isOnline, lastSeen, now) && lastSeen != 0 && now - lastSeen >= 604800000
    ensures r.ActiveAt? ==> r.lastSeen == lastSeen
  {
    if ShownOnline(isOnline, lastSeen, now) then Online
    else if lastSeen == 0 then Offline
    else
      var diff := now - lastSeen;
      var seconds := diff / 1000;
      var minutes := seconds / 60;
      var hours := minutes / 60;
      var days := hours / 24;
      NestedFloors(diff);
      if seconds < 60 then ActiveNow
      else if minutes < 60 then MinutesAgo(minutes)
      else if hours < 24 then HoursAgo(hours)
      else if days < 7 then DaysAgo(days)
      else ActiveAt(lastSeen)
  }

  /** The chained floors of the formatter are single floor divisions. */
  lemma NestedFloors(diff: int)
    ensures diff / 1000 / 60 == diff / 60000
    ensures diff / 1000 / 60 / 60 == diff / 3600000
    ensures diff / 1000 / 60 / 60 / 24 == diff / 86400000
  {
  }

  /** The label text; `clockText` is the host's locale rendering of `lastSeen`
      used by the last branch. */
  function Text(s: Status, clockText: string): (r: string)
    ensures !s.Online? && !s.Offline? ==> |r| >= 7 && r[..7] == "active "
    ensures s == Online ==> r == "online"
    ensures s == Offline ==> r == "offline"
    ensures s == ActiveNow ==> r == "active now"
    ensures s.MinutesAgo? ==> r == "active " + Decimal(s.minutes) + "m ago"
    ensures s.HoursAgo? ==> r == "active " + Decimal(s.hours) + "h ago"
    ensures s.DaysAgo? ==> r == "active " + Decimal(s.days) + "d ago"
    ensures s.ActiveAt? ==> r == "active " + clockText
  {
    match s
    case Online => "online"
    case Offline => "offline"
    case ActiveNow => "active now"
    case MinutesAgo(m) => "active " + Decimal(m) + "m ago"
    case HoursAgo(h) => "active " + Decimal(h) + "h ago"
    case DaysAgo(d) => "active " + Decimal(d) + "d ago"
    case ActiveAt(_) => "active " + clockText
  }

  /** The decimal digits of `n`, as a template literal renders an integer. */
  function Decimal(n: nat): (r: string)
    ensures |r| >= 1
    ensures forall i :: 0 <= i < |r| ==> '0' <= r[i] <= '9'
    ensures |r| == 1 <==> n < 10
    ensures r[0] == '0' <==> n == 0
    ensures |r| > 1 ==> r[0] != '0'
  {
    var digit := ['0' + (n % 10) as char];
    if n < 10 then digit else Decimal(n / 10) + digit
  }

  /** The number a string of decimal digits denotes. */
  function DigitsValue(s: string): nat
    requires forall i :: 0 <= i < |s| ==> '0' <= s[i] <= '9'
  {
    if s == [] then 0 else DigitsValue(s[..|s| - 1]) * 10 + (s[|s| - 1] as int - '0' as int)
  }

  /** Reading the rendered digits back gives the count. */
  lemma {:induction false} DecimalRoundTrip(n: nat)
    ensures DigitsValue(Decimal(n)) == n
    decreases n
  {
    if n >= 10 {
      DecimalRoundTrip(n / 10);
      var s := Decimal(n);
      assert s[..|s| - 1] == Decimal(n / 10);
    }
  }
}
