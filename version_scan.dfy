/** scripts/fetch-zone-control-versions.mjs: enumerates one candidate version tag per
    minute of the election evening (UTC), asks the server about each tag not already in the
    saved state, and lists the tags found in sorted order. */
module VersionScan {
  import opened Wrappers
  import opened Text
  import opened Ordering
  import opened Collections

  /** A UTC wall-clock time `{ y, m, d, h, min, s }`. */
  datatype UtcTime = UtcTime(y: nat, m: nat, d: nat, h: nat, min: nat, s: nat)

  /** 2026-02-08 12:00:00 UTC (19:00 in Bangkok). */
  const StartUtc := UtcTime(2026, 2, 8, 12, 0, 0)

  /** 2026-02-08 16:59:59 UTC (23:59:59 in Bangkok). */
  const EndUtc := UtcTime(2026, 2, 8, 16, 59, 59)

  // ---------------------------------------------------------------------------------
  // Version tags

  /** `String(n).padStart(2, "0")`. */
  function Pad2(n: nat): (r: string)
    ensures |r| >= 2 && AllDigits(r)
    ensures n >= 10 ==> r == NatToString(n)
  {
    PadStart(NatToString(n), 2, '0')
  }

  /** Below 100, `pad2` gives exactly the two decimal digits, tens first. */
  lemma Pad2Digits(n: nat)
    requires n < 100
    ensures Pad2(n) == [DigitChar(n / 10), DigitChar(n % 10)]
    ensures Codes(Pad2(n)) == ['0' as int + n / 10, '0' as int + n % 10]
  {
    var r := Pad2(n);
    if n < 10 {
      assert NatToString(n) == [DigitChar(n)];
      assert r == seq(1, _ => '0') + [DigitChar(n)];
      assert n / 10 == 0 && n % 10 == n;
      assert DigitChar(0) == '0';
    } else {
      assert NatToString(n) == NatToString(n / 10) + [DigitChar(n % 10)];
      assert NatToString(n / 10) == [DigitChar(n / 10)];
    }
    assert r == [DigitChar(n / 10), DigitChar(n % 10)];
    assert Codes(r) == [r[0] as int, r[1] as int];
  }

  /** `pad2` is read back by `Number`. */
  lemma Pad2RoundTrip(n: nat)
    requires n < 100
    ensures ParseNat(Pad2(n)) == Some(n)
  {
    Pad2Digits(n);
    var r := Pad2(n);
    assert r[..1] == [DigitChar(n / 10)] && r[..1][..0] == [];
    assert DigitsValue(r[..1]) == n / 10;
    assert DigitsValue(r) == DigitsValue(r[..1]) * 10 + n % 10;
  }

  /** The tag fields before the hour: year, month, day and the `T`. */
  function DatePart(t: UtcTime): string
  {
    NatToString(t.y) + Pad2(t.m) + Pad2(t.d) + "T"
  }

  /** `toVersionTag`: `YYYYMMDDTHHMMSS` for a four-digit year. */
  function ToVersionTag(t: UtcTime): (tag: string)
    ensures tag == DatePart(t) + Pad2(t.h) + Pad2(t.min) + Pad2(t.s)
  {
    NatToString(t.y) + Pad2(t.m) + Pad2(t.d) + "T" + Pad2(t.h) + Pad2(t.min) + Pad2(t.s)
  }

  /** A four-digit number is written with four digits. */
  lemma FourDigits(n: nat)
    requires 1000 <= n <= 9999
    ensures |NatToString(n)| == 4
  {
    var a := n / 10;
    var b := a / 10;
    var c := b / 10;
    assert 1 <= c < 10;
    assert |NatToString(c)| == 1;
    assert |NatToString(b)| == 2;
    assert |NatToString(a)| == 3;
  }

  /** For a four-digit year and two-digit fields the tag is 15 characters, all digits but
      the `T` at index 8, and every field reads back from its own place. */
  lemma VersionTagShape(t: UtcTime)
    requires 1000 <= t.y <= 9999 && t.m < 100 && t.d < 100 && t.h < 100 && t.min < 100 && t.s < 100
    ensures var tag := ToVersionTag(t);
            |tag| == 15 && tag[8] == 'T'
            && ParseNat(tag[..4]) == Some(t.y) && ParseNat(tag[4..6]) == Some(t.m)
            && ParseNat(tag[6..8]) == Some(t.d) && ParseNat(tag[9..11]) == Some(t.h)
            && ParseNat(tag[11..13]) == Some(t.min) && ParseNat(tag[13..]) == Some(t.s)
  {
    FourDigits(t.y);
    Pad2Digits(t.m);
    Pad2Digits(t.d);
    Pad2Digits(t.h);
    Pad2Digits(t.min);
    Pad2Digits(t.s);
    ParseNatToString(t.y);
    Pad2RoundTrip(t.m);
    Pad2RoundTrip(t.d);
    Pad2RoundTrip(t.h);
    Pad2RoundTrip(t.min);
    Pad2RoundTrip(t.s);
    var tag := ToVersionTag(t);
    assert tag[..4] == NatToString(t.y);
    assert tag[4..6] == Pad2(t.m);
    assert tag[6..8] == Pad2(t.d);
    assert tag[9..11] == Pad2(t.h);
    assert tag[11..13] == Pad2(t.min);
    assert tag[13..] == Pad2(t.s);
  }

  lemma CodesAppend(a: string, b: string)
    ensures Codes(a + b) == Codes(a) + Codes(b)
  {
  }

  /** The code units of a tag: date part, hour and minute, seconds. */
  lemma TagCodes(t: UtcTime)
    ensures Codes(ToVersionTag(t))
         == Codes(DatePart(t)) + (Codes(Pad2(t.h)) + Codes(Pad2(t.min))) + Codes(Pad2(t.s))
  {
    CodesAppend(DatePart(t) + Pad2(t.h) + Pad2(t.min), Pad2(t.s));
    CodesAppend(DatePart(t) + Pad2(t.h), Pad2(t.min));
    CodesAppend(DatePart(t), Pad2(t.h));
  }

  /** The code units of `pad2` below 100. */
  lemma Pad2Codes(n: nat)
    requires n < 100
    ensures Codes(Pad2(n)) == ['0' as int + n / 10, '0' as int + n % 10]
  {
    Pad2Digits(n);
  }

  /** Two numbers below 100 in order give their padded digits in strict code-unit order. */
  lemma Pad2Order(a: nat, b: nat)
    requires a < b < 100
    ensures LexLt(Codes(Pad2(a)), Codes(Pad2(b)))
  {
    Pad2Codes(a);
    Pad2Codes(b);
    var x, y := Codes(Pad2(a)), Codes(Pad2(b));
    LexLeFields(y, x);
    assert a == a / 10 * 10 + a % 10 && b == b / 10 * 10 + b % 10;
    assert a / 10 < b / 10 || (a / 10 == b / 10 && a % 10 < b % 10);
  }

  /** Hour and minute in order give their padded digits in strict code-unit order. */
  lemma HourMinuteOrder(h1: nat, min1: nat, h2: nat, min2: nat)
    requires h1 < 100 && h2 < 100 && min1 < 100 && min2 < 100
    requires h1 < h2 || (h1 == h2 && min1 < min2)
    ensures LexLt(Codes(Pad2(h1)) + Codes(Pad2(min1)), Codes(Pad2(h2)) + Codes(Pad2(min2)))
  {
    var x1, x2 := Codes(Pad2(h1)), Codes(Pad2(h2));
    var y1, y2 := Codes(Pad2(min1)), Codes(Pad2(min2));
    Pad2Codes(h1);
    Pad2Codes(h2);
    if h1 < h2 {
      Pad2Order(h1, h2);
      LexLtAppend([], x1, x2, y1, y2);
      assert [] + x1 + y1 == x1 + y1 && [] + x2 + y2 == x2 + y2;
    } else {
      Pad2Order(min1, min2);
      Pad2Codes(min1);
      Pad2Codes(min2);
      LexLtAppend(x1, y1, y2, [], []);
      assert x1 + y1 + [] == x1 + y1 && x2 + y2 + [] == x2 + y2;
    }
  }

  /** Two times of the same day and second whose hour and minute are in order, the
      earlier strictly first, give tags in strictly increasing code-unit order. */
  lemma TagOrder(t1: UtcTime, t2: UtcTime)
    requires t1.y == t2.y && t1.m == t2.m && t1.d == t2.d && t1.s == t2.s
    requires t1.h < 100 && t2.h < 100 && t1.min < 100 && t2.min < 100
    requires t1.h < t2.h || (t1.h == t2.h && t1.min < t2.min)
    ensures LexLt(Codes(ToVersionTag(t1)), Codes(ToVersionTag(t2)))
  {
    HourMinuteOrder(t1.h, t1.min, t2.h, t2.min);
    Pad2Digits(t1.h);
    Pad2Digits(t2.h);
    Pad2Digits(t1.min);
    Pad2Digits(t2.min);
    TagCodes(t1);
    TagCodes(t2);
    assert DatePart(t1) == DatePart(t2);
    LexLtAppend(Codes(DatePart(t1)), Codes(Pad2(t1.h)) + Codes(Pad2(t1.min)),
                Codes(Pad2(t2.h)) + Codes(Pad2(t2.min)), Codes(Pad2(t1.s)), Codes(Pad2(t2.s)));
  }

  // ---------------------------------------------------------------------------------
  // Minute enumeration

  /** `toMins`: minutes since midnight. */
  function ToMins(t: UtcTime): nat
  {
    t.h * 60 + t.min
  }

  /** `fromMins`: the start time with hour and minute taken from a minute total. */
  function FromMins(start: UtcTime, total: nat): (t: UtcTime)
    ensures t.y == start.y && t.m == start.m && t.d == start.d && t.s == start.s
    ensures t.min < 60 && ToMins(t) == total
  {
    start.(h := total / 60, min := total % 60)
  }

  /** How many minute totals `start, start + step, ...` stay at or below the end. */
  function MinuteCount(start: UtcTime, end: UtcTime, step: nat): nat
    requires step > 0
  {
    if ToMins(start) <= ToMins(end) then (ToMins(end) - ToMins(start)) / step + 1 else 0
  }

  /** The times `minuteRange` yields, in closed form: the i-th is `i * step` minutes
      after the start. */
  function MinuteTimes(start: UtcTime, end: UtcTime, step: nat): (times: seq<UtcTime>)
    requires step > 0
    ensures |times| == MinuteCount(start, end, step)
  {
    seq(MinuteCount(start, end, step), i requires 0 <= i => FromMins(start, ToMins(start) + i * step))
  }

  /** With a positive step, `n` more steps stay at or below the end exactly when `n` is
      below the count. */
  lemma StepsWithin(start: UtcTime, end: UtcTime, step: nat, n: nat)
    requires step > 0
    ensures ToMins(start) + n * step <= ToMins(end) <==> n < MinuteCount(start, end, step)
  {
    MulLe(0, n, step);
    if ToMins(start) <= ToMins(end) {
      StepsBelow(ToMins(end) - ToMins(start), step, n);
    }
  }

  /** `n` steps fit in `a` exactly when `n` is at most the quotient. */
  lemma StepsBelow(a: nat, step: nat, n: nat)
    requires step > 0
    ensures n * step <= a <==> n <= a / step
  {
    var q := a / step;
    assert a == q * step + a % step;
    if n <= q {
      MulLe(n, q, step);
    } else {
      MulLe(q + 1, n, step);
    }
  }

  /** Every time enumerated keeps the start's date and seconds, has a minute below 60,
      is at or before the end, and each is `step` minutes after the one before. */
  lemma MinuteTimesSpec(start: UtcTime, end: UtcTime, step: nat)
    requires step > 0
    ensures forall i :: 0 <= i < MinuteCount(start, end, step) ==>
              var t := MinuteTimes(start, end, step)[i];
              t.y == start.y && t.m == start.m && t.d == start.d && t.s == start.s
              && t.min < 60 && ToMins(start) <= ToMins(t) <= ToMins(end)
    ensures forall i :: 0 < i < MinuteCount(start, end, step) ==>
              ToMins(MinuteTimes(start, end, step)[i]) == ToMins(MinuteTimes(start, end, step)[i - 1]) + step
  {
    var times := MinuteTimes(start, end, step);
    forall i | 0 <= i < MinuteCount(start, end, step)
      ensures ToMins(times[i]) == ToMins(start) + i * step <= ToMins(end)
    {
      StepsWithin(start, end, step, i);
    }
    forall i | 0 < i < MinuteCount(start, end, step)
      ensures ToMins(times[i]) == ToMins(times[i - 1]) + step
    {
      assert i * step == (i - 1) * step + step;
    }
  }

  /** `minuteRange`: a `while` loop that yields the time of each minute total from the
      start's while the total does not pass the end's, stepping by `stepMinutes`. */
  method MinuteRange(start: UtcTime, end: UtcTime, stepMinutes: nat) returns (times: seq<UtcTime>)
    requires stepMinutes > 0
    ensures times == MinuteTimes(start, end, stepMinutes)
  {
    var total := ToMins(start);
    var endTotal := ToMins(end);
    times := [];
    StepsWithin(start, end, stepMinutes, 0);
    while total <= endTotal
      invariant total == ToMins(start) + |times| * stepMinutes
      invariant |times| <= MinuteCount(start, end, stepMinutes)
      invariant total <= endTotal <==> |times| < MinuteCount(start, end, stepMinutes)
      invariant times == MinuteTimes(start, end, stepMinutes)[..|times|]
      decreases endTotal - total
    {
      MinuteTimesSnoc(start, end, stepMinutes, |times|);
      times := times + [FromMins(start, total)];
      total := total + stepMinutes;
      StepsWithin(start, end, stepMinutes, |times|);
    }
  }

  /** One more enumerated time is the next `step` minutes on. */
  lemma MinuteTimesSnoc(start: UtcTime, end: UtcTime, step: nat, n: nat)
    requires step > 0 && n < MinuteCount(start, end, step)
    ensures MinuteTimes(start, end, step)[..n + 1]
         == MinuteTimes(start, end, step)[..n] + [FromMins(start, ToMins(start) + n * step)]
    ensures (n + 1) * step == n * step + step
  {
    PrefixSnoc(MinuteTimes(start, end, step), n);
  }

  /** `allTags`: the version tag of every enumerated minute. */
  function AllTags(step: nat): (tags: seq<string>)
    requires step > 0
    ensures |tags| == MinuteCount(StartUtc, EndUtc, step)
    ensures forall i :: 0 <= i < |tags| ==> tags[i] == ToVersionTag(MinuteTimes(StartUtc, EndUtc, step)[i])
  {
    var times := MinuteTimes(StartUtc, EndUtc, step);
    seq(|times|, i requires 0 <= i < |times| => ToVersionTag(times[i]))
  }

  lemma MulLe(a: nat, b: nat, c: nat)
    requires a <= b
    ensures a * c <= b * c
  {
    assert b * c == a * c + (b - a) * c;
  }

  lemma MulStrict(a: nat, b: nat, c: nat)
    requires a < b && c > 0
    ensures a * c < b * c
  {
    assert b * c == a * c + (b - a) * c;
  }

  /** Of two times with minutes below 60, the one with the smaller minute total has the
      smaller hour, or the same hour and the smaller minute. */
  lemma MinsOrder(t1: UtcTime, t2: UtcTime)
    requires t1.min < 60 && t2.min < 60 && ToMins(t1) < ToMins(t2)
    ensures t1.h < t2.h || (t1.h == t2.h && t1.min < t2.min)
  {
  }

  /** The enumerated tags are in strictly increasing code-unit order, so no tag repeats
      and `.sort()` leaves any selection of them in enumeration order. */
  lemma AllTagsIncreasing(step: nat)
    requires step > 0
    ensures StrictlyIncreasing(AllTags(step), Codes)
  {
    var times := MinuteTimes(StartUtc, EndUtc, step);
    var tags := AllTags(step);
    MinuteTimesSpec(StartUtc, EndUtc, step);
    forall i, j | 0 <= i < j < |tags|
      ensures LexLt(Codes(tags[i]), Codes(tags[j]))
    {
      TimesOrder(step, i, j);
      TagOrder(times[i], times[j]);
    }
  }

  /** Of two enumerated times, the later one has the later hour, or the same hour and
      the later minute. */
  lemma TimesOrder(step: nat, i: nat, j: nat)
    requires step > 0 && i < j < MinuteCount(StartUtc, EndUtc, step)
    ensures var t1, t2 := MinuteTimes(StartUtc, EndUtc, step)[i], MinuteTimes(StartUtc, EndUtc, step)[j];
            t1.y == t2.y && t1.m == t2.m && t1.d == t2.d && t1.s == t2.s
            && t1.h < 100 && t2.h < 100 && t1.min < 100 && t2.min < 100
            && (t1.h < t2.h || (t1.h == t2.h && t1.min < t2.min))
  {
    var times := MinuteTimes(StartUtc, EndUtc, step);
    MinuteTimesSpec(StartUtc, EndUtc, step);
    var t1, t2 := times[i], times[j];
    assert ToMins(t1) == ToMins(StartUtc) + i * step;
    assert ToMins(t2) == ToMins(StartUtc) + j * step;
    MulStrict(i, j, step);
    MinsOrder(t1, t2);
  }

  lemma DatePartElectionDay()
    ensures DatePart(StartUtc) == "20260208T"
  {
    assert NatToString(2026) == "2026" by {
      assert NatToString(2) == "2";
      assert NatToString(20) == "20";
      assert NatToString(202) == "202";
    }
    Pad2Digits(2);
    Pad2Digits(8);
  }

  /** With a one-minute step the script scans 300 tags, from 12:00 to 16:59 UTC. */
  lemma AllTagsOneMinute()
    ensures |AllTags(1)| == 300
    ensures AllTags(1)[0] == "20260208T120000"
    ensures AllTags(1)[299] == "20260208T165900"
  {
    var times := MinuteTimes(StartUtc, EndUtc, 1);
    var first, last := times[0], times[299];
    assert first == StartUtc.(h := 12, min := 0);
    assert last == StartUtc.(h := 16, min := 59);
    assert DatePart(first) == DatePart(StartUtc) && DatePart(last) == DatePart(StartUtc);
    DatePartElectionDay();
    Pad2Digits(12);
    Pad2Digits(0);
    Pad2Digits(16);
    Pad2Digits(59);
    assert ToVersionTag(first) == "20260208T" + "12" + "00" + "00";
    assert ToVersionTag(last) == "20260208T" + "16" + "59" + "00";
  }

  // ---------------------------------------------------------------------------------
  // Command-line arguments

  /** An argument's value: the text after `=`, or `true` when there is none. */
  datatype ArgValue = Text(text: string) | Flag

  /** `a.replace(/^--/, "")`. */
  function StripDashes(a: string): (r: string)
    ensures |a| >= 2 && a[..2] == "--" ==> r == a[2..]
    ensures !(|a| >= 2 && a[..2] == "--") ==> r == a
  {
    if |a| >= 2 && a[..2] == "--" then a[2..] else a
  }

  /** One argument as `[k, v !== undefined ? v : true]`: the name is the text up to the
      first `=`, the value the text between the first and the second `=`. */
  function ParseArg(a: string): (kv: (string, ArgValue))
    ensures '=' !in kv.0
  {
    var parts := Split(StripDashes(a), '=');
    (parts[0], if |parts| >= 2 then Text(parts[1]) else Flag)
  }

  /** `--k=v` gives `k` and `v`, and `--k` gives `k` and `true`, for names and values
      without `=`. */
  lemma ParseArgRoundTrip(k: string, v: string)
    requires '=' !in k && '=' !in v
    ensures ParseArg("--" + k + "=" + v) == (k, Text(v))
    ensures ParseArg("--" + k) == (k, Flag)
  {
    assert ("--" + k + "=" + v)[..2] == "--";
    assert ("--" + k + "=" + v)[2..] == Join([k, v], '=');
    SplitJoin([k, v], '=');
    assert ("--" + k)[..2] == "--";
    assert ("--" + k)[2..] == Join([k], '=');
    SplitJoin([k], '=');
  }

  /** A value that itself holds `=` is cut at that `=`: `--k=v=w` gives `v`. */
  lemma ParseArgCutsValue(k: string, v: string, w: string)
    requires '=' !in k && '=' !in v && '=' !in w
    ensures ParseArg("--" + k + "=" + v + "=" + w) == (k, Text(v))
  {
    assert ("--" + k + "=" + v + "=" + w)[..2] == "--";
    assert [k, v, w][1..] == [v, w] && [v, w][1..] == [w];
    assert Join([w], '=') == w;
    assert Join([v, w], '=') == v + "=" + w;
    assert Join([k, v, w], '=') == k + "=" + (v + "=" + w);
    assert ("--" + k + "=" + v + "=" + w)[2..] == Join([k, v, w], '=');
    SplitJoin([k, v, w], '=');
  }

  /** The `[key, value]` pairs `args.map(...)` produces, one per argument. */
  function ArgEntries(argv: seq<string>): (entries: seq<(string, ArgValue)>)
    ensures |entries| == |argv|
    ensures forall i :: 0 <= i < |argv| ==> entries[i] == ParseArg(argv[i])
  {
    seq(|argv|, i requires 0 <= i < |argv| => ParseArg(argv[i]))
  }

  /** `Object.fromEntries(...)` over the parsed arguments. */
  function ParseArgs(argv: seq<string>): (args: map<string, ArgValue>)
  {
    FromEntries(ArgEntries(argv))
  }

  /** A name is present exactly when some argument carries it. */
  lemma ParseArgsKeys(argv: seq<string>)
    ensures forall k :: k in ParseArgs(argv) <==> exists i :: 0 <= i < |argv| && ParseArg(argv[i]).0 == k
  {
    var entries := ArgEntries(argv);
    FromEntriesLastWins(entries);
    forall k
      ensures k in ParseArgs(argv) <==> exists i :: 0 <= i < |argv| && ParseArg(argv[i]).0 == k
    {
      if k in ParseArgs(argv) {
        var i :| 0 <= i < |entries| && entries[i].0 == k;
        assert ParseArg(argv[i]).0 == k;
      }
      if exists i :: 0 <= i < |argv| && ParseArg(argv[i]).0 == k {
        var i :| 0 <= i < |argv| && ParseArg(argv[i]).0 == k;
        assert entries[i].0 == k;
      }
    }
  }

  /** A name's value is that of the last argument carrying it. */
  lemma ParseArgsLastWins(argv: seq<string>)
    ensures forall i :: 0 <= i < |argv| && (forall j :: i < j < |argv| ==> ParseArg(argv[j]).0 != ParseArg(argv[i]).0)
              ==> ParseArg(argv[i]).0 in ParseArgs(argv) && ParseArgs(argv)[ParseArg(argv[i]).0] == ParseArg(argv[i]).1
  {
    var entries := ArgEntries(argv);
    FromEntriesLastWins(entries);
    forall i | 0 <= i < |argv| && (forall j :: i < j < |argv| ==> ParseArg(argv[j]).0 != ParseArg(argv[i]).0)
      ensures ParseArg(argv[i]).0 in ParseArgs(argv) && ParseArgs(argv)[ParseArg(argv[i]).0] == ParseArg(argv[i]).1
    {
      assert entries[i].0 in FromEntries(entries);
      assert forall j :: i < j < |argv| ==> entries[j].0 != entries[i].0;
    }
  }

  // ---------------------------------------------------------------------------------
  // The resume loop

  /** The state after scanning `tags` in order: a tag already known is left alone, any
      other gets the server's answer. */
  ghost function ScannedState(state0: map<string, bool>, tags: seq<string>, checkVersion: string -> bool)
    : map<string, bool>
    decreases |tags|
  {
    if tags == [] then state0
    else
      var before := ScannedState(state0, tags[..|tags| - 1], checkVersion);
      var last := tags[|tags| - 1];
      if last in before then before else before[last := checkVersion(last)]
  }

  /** How many tags the loop finds already known: saved before the run, or met earlier in
      the same run. */
  ghost function CachedCount(state0: map<string, bool>, tags: seq<string>): nat
    decreases |tags|
  {
    if tags == [] then 0
    else
      var init, last := tags[..|tags| - 1], tags[|tags| - 1];
      CachedCount(state0, init) + if last in state0 || last in init then 1 else 0
  }

  /** The scanned state holds exactly the saved tags and the scanned ones. */
  lemma {:induction false} ScannedStateKeys(state0: map<string, bool>, tags: seq<string>, checkVersion: string -> bool)
    ensures forall t :: t in ScannedState(state0, tags, checkVersion) <==> t in state0 || t in tags
    decreases |tags|
  {
    if tags != [] {
      var init := tags[..|tags| - 1];
      ScannedStateKeys(state0, init, checkVersion);
      assert tags == init + [tags[|tags| - 1]];
    }
  }

  /** Scanning one more tag: nothing changes when it is already known, otherwise its
      answer is added. */
  lemma ScannedStateSnoc(state0: map<string, bool>, tags: seq<string>, tag: string, checkVersion: string -> bool)
    ensures var before := ScannedState(state0, tags, checkVersion);
            ScannedState(state0, tags + [tag], checkVersion)
              == if tag in before then before else before[tag := checkVersion(tag)]
  {
    assert (tags + [tag])[..|tags|] == tags;
  }

  /** Counting one more tag. */
  lemma CachedCountSnoc(state0: map<string, bool>, tags: seq<string>, tag: string)
    ensures CachedCount(state0, tags + [tag]) == CachedCount(state0, tags) + if tag in state0 || tag in tags then 1 else 0
  {
    assert (tags + [tag])[..|tags|] == tags;
  }

  /** One turn of the loop: a known tag leaves the state alone and is counted as cached;
      an unknown one adds one entry, its answer, and is not. */
  lemma ScanStep(state0: map<string, bool>, done: seq<string>, tag: string, checkVersion: string -> bool)
    ensures var before := ScannedState(state0, done, checkVersion);
            var after := ScannedState(state0, done + [tag], checkVersion);
            (tag in before ==> after == before
                               && CachedCount(state0, done + [tag]) == CachedCount(state0, done) + 1)
            && (tag !in before ==> after == before[tag := checkVersion(tag)] && |after| == |before| + 1
                                   && CachedCount(state0, done + [tag]) == CachedCount(state0, done))
  {
    ScannedStateKeys(state0, done, checkVersion);
    ScannedStateSnoc(state0, done, tag, checkVersion);
    CachedCountSnoc(state0, done, tag);
  }

  /** The main loop: a tag already in `state` only counts as skipped; any other tag is
      checked, its answer stored, and counted as checked. The server is the oracle
      `checkVersion`. */
  method ResumeScan(allTags: seq<string>, state0: map<string, bool>, checkVersion: string -> bool)
    returns (state: map<string, bool>, checked: nat, skipped: nat)
    ensures state == ScannedState(state0, allTags, checkVersion)
    ensures checked + skipped == |allTags|
    ensures |state| == |state0| + checked
    ensures skipped == CachedCount(state0, allTags)
  {
    state := state0;
    checked, skipped := 0, 0;
    ghost var done: seq<string> := [];
    assert ScannedState(state0, [], checkVersion) == state0;
    for n := 0 to |allTags|
      invariant done == allTags[..n]
      invariant state == ScannedState(state0, done, checkVersion)
      invariant checked + skipped == n
      invariant |state| == |state0| + checked
      invariant skipped == CachedCount(state0, done)
    {
      var tag := allTags[n];
      ScanStep(state0, done, tag, checkVersion);
      PrefixSnoc(allTags, n);
      done := done + [tag];
      if tag in state {
        skipped := skipped + 1;
        continue;
      }
      var ok := checkVersion(tag);
      state := state[tag := ok];
      checked := checked + 1;
    }
    assert allTags[..|allTags|] == allTags;
  }

  /** After the loop every tag has an entry, saved entries are never overwritten, and
      every new entry is the server's answer for a scanned tag. */
  lemma {:induction false} ScannedStateSpec(state0: map<string, bool>, allTags: seq<string>, checkVersion: string -> bool)
    ensures var state := ScannedState(state0, allTags, checkVersion);
            (forall t :: t in allTags ==> t in state)
            && (forall t :: t in state0 ==> t in state && state[t] == state0[t])
            && (forall t :: t in state && t !in state0 ==> t in allTags && state[t] == checkVersion(t))
    decreases |allTags|
  {
    if allTags != [] {
      var init, last := allTags[..|allTags| - 1], allTags[|allTags| - 1];
      ScannedStateSpec(state0, init, checkVersion);
      assert allTags == init + [last];
    }
  }

  /** `allTags.filter((tag) => state[tag] === true)`. */
  function FoundTags(tags: seq<string>, state: map<string, bool>): (found: seq<string>)
    ensures forall t :: t in found <==> t in tags && t in state && state[t]
    ensures |found| <= |tags|
    decreases |tags|
  {
    if tags == [] then []
    else
      var last := tags[|tags| - 1];
      FoundTags(tags[..|tags| - 1], state) + if last in state && state[last] then [last] else []
  }

  /** Keeping some of a strictly increasing sequence keeps it strictly increasing. */
  lemma {:induction false} FoundTagsIncreasing(tags: seq<string>, state: map<string, bool>)
    requires StrictlyIncreasing(tags, Codes)
    ensures StrictlyIncreasing(FoundTags(tags, state), Codes)
    decreases |tags|
  {
    if tags != [] {
      var init, last := tags[..|tags| - 1], tags[|tags| - 1];
      FoundTagsIncreasing(init, state);
      var f := FoundTags(init, state);
      forall x | x in f
        ensures LexLt(Codes(x), Codes(last))
      {
        var i :| 0 <= i < |init| && init[i] == x;
      }
    }
  }

  /** `versions`: the found tags, sorted by code units. */
  function Versions(allTags: seq<string>, state: map<string, bool>): (versions: seq<string>)
    ensures forall t :: t in versions <==> t in allTags && t in state && state[t]
  {
    var found := FoundTags(allTags, state);
    var versions := SortBy(found, Codes);
    assert forall t :: t in versions <==> t in found by {
      forall t
        ensures t in versions <==> t in found
      {
        assert t in versions <==> t in multiset(versions);
        assert t in found <==> t in multiset(found);
      }
    }
    versions
  }

  /** The run as a whole: every minute's tag ends up in the state, and the versions
      listed are exactly the tags found, in chronological order. */
  method Run(step: nat, state0: map<string, bool>, checkVersion: string -> bool)
    returns (state: map<string, bool>, versions: seq<string>, checked: nat, skipped: nat)
    requires step > 0
    ensures forall t :: t in AllTags(step) ==> t in state
    ensures forall t :: t in state0 ==> t in state && state[t] == state0[t]
    ensures versions == FoundTags(AllTags(step), state)
    ensures forall t :: t in versions <==> t in AllTags(step) && state[t]
    ensures StrictlyIncreasing(versions, Codes)
    ensures state == ScannedState(state0, AllTags(step), checkVersion)
    ensures forall t :: t in state && t !in state0 ==> t in AllTags(step) && state[t] == checkVersion(t)
    ensures checked + skipped == MinuteCount(StartUtc, EndUtc, step)
    ensures skipped == CachedCount(state0, AllTags(step))
  {
    var times := MinuteRange(StartUtc, EndUtc, step);
    var allTags := seq(|times|, i requires 0 <= i < |times| => ToVersionTag(times[i]));
    assert allTags == AllTags(step);
    state, checked, skipped := ResumeScan(allTags, state0, checkVersion);
    ScannedStateSpec(state0, allTags, checkVersion);
    versions := Versions(allTags, state);
    AllTagsIncreasing(step);
    FoundTagsIncreasing(allTags, state);
    StrictlyIncreasingSorted(FoundTags(allTags, state), Codes);
    SortBySorted(FoundTags(allTags, state), Codes);
  }
}
