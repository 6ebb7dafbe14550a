/**
 * The log-tail wrapper of internal/aws.go: the compact duration text the
 * AWS CLI's `logs tail --since` flag expects, and the argument vector
 * handed to `aws`. A Go time.Duration is an int of nanoseconds.
 */
module Aws {
  import opened Common
  import opened Decimal

  const Second: int := 1_000_000_000
  const Minute: int := 60_000_000_000
  const Hour: int := 3_600_000_000_000
  const Day: int := 86_400_000_000_000

  /** formatSinceForAWS: the largest of day, hour, minute that divides d
    * exactly, else whole seconds (truncated); "0s" for d <= 0. */
  function FormatSince(d: int): (r: string)
    ensures |r| >= 2 && AllDigits(r[..|r| - 1]) && r[|r| - 1] in "smhd"
    ensures d <= 0 ==> r == "0s"
    ensures r[0] == '0' ==> r == "0s"
  {
    if d <= 0 then "0s"
    else if d % Day == 0 then FromNat(d / Day) + "d"
    else if d % Hour == 0 then FromNat(d / Hour) + "h"
    else if d % Minute == 0 then FromNat(d / Minute) + "m"
    else FromNat(d / Second) + "s"
  }

  /** Nanoseconds in one of the unit letters of the compact form. */
  function UnitNanos(u: char): int {
    match u
    case 'd' => Day
    case 'h' => Hour
    case 'm' => Minute
    case _ => Second
  }

  /** What a compact duration text "<count><unit>" denotes, in nanoseconds. */
  function CompactToNanos(s: string): Option<int> {
    if |s| >= 2 && AllDigits(s[..|s| - 1]) && s[|s| - 1] in "smhd"
    then Some(ToNat(s[..|s| - 1]) * UnitNanos(s[|s| - 1]))
    else None
  }

  /** The unit FormatSince picks for a positive duration is the largest one
    * dividing it exactly: days, then hours, then minutes, else seconds. */
  lemma FormatSinceUnit(d: int)
    requires d > 0
    ensures var r := FormatSince(d); var u := r[|r| - 1];
      && (u == 'd' <==> d % Day == 0)
      && (u == 'h' <==> d % Hour == 0 && d % Day != 0)
      && (u == 'm' <==> d % Minute == 0 && d % Hour != 0)
      && (u == 's' <==> d % Minute != 0)
  {
    UnitsNest(d);
    var r := FormatSince(d);
    if d % Day == 0 {
      assert r == FromNat(d / Day) + "d";
    } else if d % Hour == 0 {
      assert r == FromNat(d / Hour) + "h";
    } else if d % Minute == 0 {
      assert r == FromNat(d / Minute) + "m";
    } else {
      assert r == FromNat(d / Second) + "s";
    }
  }

  /** A whole number of days is a whole number of hours, and a whole
    * number of hours a whole number of minutes. */
  lemma UnitsNest(d: int)
    ensures d % Day == 0 ==> d % Hour == 0
    ensures d % Hour == 0 ==> d % Minute == 0
  {
    if d % Day == 0 {
      assert d == (d / Day * 24) * Hour;
    }
    if d % Hour == 0 {
      assert d == (d / Hour * 60) * Minute;
    }
  }

  lemma WholeSeconds(d: int, k: int)
    requires d == k * Second
    ensures d % Second == 0
  {
  }

  /** "<k><letter>" denotes k whole units. */
  lemma CountOfUnits(r: string, k: nat, letter: char)
    requires letter in "smhd" && r == FromNat(k) + [letter]
    ensures CompactToNanos(r) == Some(k * UnitNanos(letter))
  {
    assert r[..|r| - 1] == FromNat(k);
    RoundTrip(k);
  }

  /** The text FormatSince produces denotes the duration itself when it is a
    * whole number of minutes (so count * unit == d), and the duration
    * truncated to whole seconds otherwise; non-positive durations denote 0. */
  lemma FormatSinceDenotes(d: int)
    ensures CompactToNanos(FormatSince(d)) == Some(if d <= 0 then 0 else d - d % Second)
    ensures d > 0 && d % Minute == 0 ==> CompactToNanos(FormatSince(d)) == Some(d)
  {
    if d > 0 {
      var r := FormatSince(d);
      if d % Day == 0 {
        CountOfUnits(r, d / Day, 'd');
        assert d / Day * Day == d;
        WholeSeconds(d, d / Day * 86400);
      } else if d % Hour == 0 {
        CountOfUnits(r, d / Hour, 'h');
        assert d / Hour * Hour == d;
        WholeSeconds(d, d / Hour * 3600);
      } else if d % Minute == 0 {
        CountOfUnits(r, d / Minute, 'm');
        assert d / Minute * Minute == d;
        WholeSeconds(d, d / Minute * 60);
      } else {
        CountOfUnits(r, d / Second, 's');
        assert d / Second * Second == d - d % Second;
      }
    } else {
      CountOfUnits(FormatSince(d), 0, 's');
    }
  }

  /** 90 minutes is not a whole number of hours, so it stays in minutes. */
  lemma FormatSinceNinetyMinutes()
    ensures FormatSince(90 * Minute) == "90m"
  {
    var d := 90 * Minute;
    assert d % Day != 0 && d % Hour != 0 && d % Minute == 0 && d / Minute == 90;
    assert FromNat(90) == "90" by { assert FromNat(9) == "9"; }
  }

  /** A day and an hour print as "1d" and "1h". */
  lemma FormatSinceWholeUnits()
    ensures FormatSince(Day) == "1d"
    ensures FormatSince(Hour) == "1h"
  {
    assert Day % Day == 0 && Day / Day == 1;
    assert Hour % Day != 0 && Hour % Hour == 0 && Hour / Hour == 1;
  }

  /** Durations that are not whole minutes print as truncated seconds. */
  lemma FormatSinceTruncates()
    ensures FormatSince(45 * Second) == "45s"
    ensures FormatSince(500_000_000) == "0s"
  {
    var d := 45 * Second;
    assert d % Minute != 0 && d % Hour != 0 && d % Day != 0 && d / Second == 45;
    assert FromNat(45) == "45" by { assert FromNat(4) == "4"; }
    assert 500_000_000 % Minute != 0 && 500_000_000 / Second == 0;
  }

  /** The argument vector GetLogs builds before running `aws`: the base
    * command, then --follow when asked, then --since whenever since > 0,
    * with or without --follow. */
  method BuildTailArgs(logGroup: string, follow: bool, since: int) returns (args: seq<string>)
    ensures |args| == 3 + (if follow then 1 else 0) + (if since > 0 then 2 else 0)
    ensures args[..3] == ["logs", "tail", logGroup]
    ensures follow <==> "--follow" in args[3..]
    ensures follow ==> args[3] == "--follow"
    ensures since > 0 <==> "--since" in args[3..]
    ensures since > 0 ==> args[|args| - 2] == "--since" && args[|args| - 1] == FormatSince(since)
    ensures since > 0 ==> CompactToNanos(args[|args| - 1]) == Some(since - since % Second)
  {
    args := ["logs", "tail", logGroup];
    if follow {
      args := args + ["--follow"];
    }
    if since > 0 {
      var text := FormatSince(since);
      args := args + ["--since", text];
      FormatSinceDenotes(since);
      assert text != "--follow" by { assert text[|text| - 1] != "--follow"[7]; }
    }
    assert "--follow" != "--since" by { assert "--follow"[2] != "--since"[2]; }
    assert args[3..] == (if follow then ["--follow"] else [])
      + (if since > 0 then ["--since", FormatSince(since)] else []);
  }
}
