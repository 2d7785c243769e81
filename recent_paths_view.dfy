/** The recent-paths panel (components/recent-paths.tsx): an empty state
    for an empty list, otherwise one row per entry with the time since it
    was last opened, bucketed into minutes, hours and days. */
module RecentPathsView {
  import opened RecentPaths

  const MinuteMs: int := 1000 * 60
  const HourMs: int := 1000 * 60 * 60
  const DayMs: int := 1000 * 60 * 60 * 24

  /** The decimal digits of a number, as `${n}` writes them. */
  function Decimal(n: nat): (r: string)
    ensures |r| >= 1
    ensures forall k | 0 <= k < |r| :: '0' <= r[k] <= '9'
  {
    var digit := ['0' + (n % 10) as char];
    if n < 10 then digit else Decimal(n / 10) + digit
  }

  /** The number a string of decimal digits denotes. */
  function DigitsValue(s: string): int
    requires forall k | 0 <= k < |s| :: '0' <= s[k] <= '9'
  {
    if s == [] then 0 else DigitsValue(s[..|s| - 1]) * 10 + (s[|s| - 1] - '0') as int
  }

  /** `${n}` reads back as `n`. */
  lemma {:induction false} DecimalRoundTrip(n: nat)
    ensures DigitsValue(Decimal(n)) == n
  {
    var r := Decimal(n);
    if n >= 10 {
      DecimalRoundTrip(n / 10);
      assert r[..|r| - 1] == Decimal(n / 10);
    }
  }

  /** `formatLastAccessed(timestamp)` at time `now`; `localeDate` is
      `new Date(timestamp).toLocaleDateString()`. `/` on integers with a
      positive divisor rounds down, as `Math.floor` does. */
  function FormatLastAccessed(now: int, timestamp: int, localeDate: int -> string): string {
    var diff := now - timestamp;
    var minutes := diff / MinuteMs;
    var hours := diff / HourMs;
    var days := diff / DayMs;
    if minutes < 1 then "Just now"
    else if minutes < 60 then Decimal(minutes) + "m ago"
    else if hours < 24 then Decimal(hours) + "h ago"
    else if days == 1 then "Yesterday"
    else if days < 7 then Decimal(days) + "d ago"
    else localeDate(timestamp)
  }

  /** The buckets by elapsed time: under a minute (or in the future) is
      "Just now", then whole minutes up to 59, whole hours up to 23, one
      day is "Yesterday", whole days up to 6, and the date afterwards. */
  lemma FormatBuckets(now: int, timestamp: int, localeDate: int -> string)
    ensures var diff := now - timestamp;
      var r := FormatLastAccessed(now, timestamp, localeDate);
      && (diff < MinuteMs ==> r == "Just now")
      && (MinuteMs <= diff < HourMs ==>
            exists m: nat | 1 <= m <= 59 :: m * MinuteMs <= diff < (m + 1) * MinuteMs && r == Decimal(m) + "m ago")
      && (HourMs <= diff < DayMs ==>
            exists h: nat | 1 <= h <= 23 :: h * HourMs <= diff < (h + 1) * HourMs && r == Decimal(h) + "h ago")
      && (DayMs <= diff < 2 * DayMs ==> r == "Yesterday")
      && (2 * DayMs <= diff < 7 * DayMs ==>
            exists d: nat | 2 <= d <= 6 :: d * DayMs <= diff < (d + 1) * DayMs && r == Decimal(d) + "d ago")
      && (7 * DayMs <= diff ==> r == localeDate(timestamp))
  {
    var diff := now - timestamp;
    var r := FormatLastAccessed(now, timestamp, localeDate);
    var minutes := diff / MinuteMs;
    var hours := diff / HourMs;
    var days := diff / DayMs;
    FloorBounds(diff, MinuteMs);
    FloorBounds(diff, HourMs);
    FloorBounds(diff, DayMs);
    if diff < MinuteMs {
      DivBelow(diff, MinuteMs, 1);
    } else {
      DivAtLeast(diff, MinuteMs, 1);
      if diff < HourMs {
        DivBelow(diff, MinuteMs, 60);
        assert r == Decimal(minutes) + "m ago";
      } else {
        DivAtLeast(diff, MinuteMs, 60);
        DivAtLeast(diff, HourMs, 1);
        if diff < DayMs {
          DivBelow(diff, HourMs, 24);
          assert r == Decimal(hours) + "h ago";
        } else {
          DivAtLeast(diff, HourMs, 24);
          DivAtLeast(diff, DayMs, 1);
          if diff < 2 * DayMs {
            DivBelow(diff, DayMs, 2);
          } else {
            DivAtLeast(diff, DayMs, 2);
            if diff < 7 * DayMs {
              DivBelow(diff, DayMs, 7);
              assert r == Decimal(days) + "d ago";
            } else {
              DivAtLeast(diff, DayMs, 7);
            }
          }
        }
      }
    }
  }

  /** `Math.floor(diff / unit)` lies between the multiples of `unit` that
      surround `diff`. */
  lemma FloorBounds(diff: int, unit: int)
    requires unit > 0
    ensures (diff / unit) * unit <= diff < (diff / unit + 1) * unit
  {
  }

  lemma DivBelow(diff: int, unit: int, hi: int)
    requires unit > 0 && diff < hi * unit
    ensures diff / unit < hi
  {
    FloorBounds(diff, unit);
    if diff / unit >= hi {
      MulMono(hi, diff / unit, unit);
    }
  }

  lemma DivAtLeast(diff: int, unit: int, lo: int)
    requires unit > 0 && lo * unit <= diff
    ensures lo <= diff / unit
  {
    FloorBounds(diff, unit);
    if diff / unit < lo {
      MulMono(diff / unit + 1, lo, unit);
    }
  }

  lemma MulMono(a: int, b: int, unit: int)
    requires a <= b && unit > 0
    ensures a * unit <= b * unit
  {
    assert b * unit - a * unit == (b - a) * unit;
  }

  /** What the panel shows. */
  datatype Row = Row(name: string, path: string, lastAccessed: string)
  datatype Panel = EmptyState | Rows(rows: seq<Row>)

  function Render(recentPaths: seq<RecentPath>, now: int, localeDate: int -> string): (r: Panel)
    ensures r.EmptyState? <==> |recentPaths| == 0
    ensures r.Rows? ==> |r.rows| == |recentPaths|
    ensures r.Rows? ==> forall k | 0 <= k < |recentPaths| :: r.rows[k].path == recentPaths[k].path
  {
    if |recentPaths| == 0 then EmptyState
    else Rows(seq(|recentPaths|, k requires 0 <= k < |recentPaths| =>
      Row(recentPaths[k].name, recentPaths[k].path,
          FormatLastAccessed(now, recentPaths[k].lastAccessed, localeDate))))
  }
}
