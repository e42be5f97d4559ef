/** The date keys that name rolled log files (clogger.c), over the civil dates of CivilTime. */
module RollingKeys {
  import opened Division
  import opened CivilTime

  datatype Policy = Min1 | Min5 | Min10 | Min30 | Hour | Day | Mon | Year

  /** %0wd of a non-negative number: at least w digits. */
  function Dec(n: nat, w: nat): string
    decreases n, w
  {
    if n == 0 && w == 0 then ""
    else if n == 0 then Dec(0, w - 1) + "0"
    else Dec(n / 10, if w == 0 then 0 else w - 1) + [Digit(n % 10)]
  }

  function Digit(d: nat): char
    requires d < 10
  {
    '0' + d as char
  }

  /** The key clog_format_datetime prints for a policy; loc has the full year and months from 1. */
  function Key(p: Policy, loc: Tm): string
    requires loc.year >= 0 && loc.mon >= 0 && loc.mday >= 0 && loc.hour >= 0 && loc.min >= 0
  {
    match p
    case Min1 => Dec(loc.year, 4) + Dec(loc.mon, 2) + Dec(loc.mday, 2) + "-" + Dec(loc.hour, 2) + Dec(loc.min, 2)
    case Min5 => Dec(loc.year, 4) + Dec(loc.mon, 2) + Dec(loc.mday, 2) + "-" + Dec(loc.hour, 2) + Dec((loc.min / 5) * 5, 2)
    case Min10 => Dec(loc.year, 4) + Dec(loc.mon, 2) + Dec(loc.mday, 2) + "-" + Dec(loc.hour, 2) + Dec((loc.min / 10) * 10, 2)
    case Min30 => Dec(loc.year, 4) + Dec(loc.mon, 2) + Dec(loc.mday, 2) + "-" + Dec(loc.hour, 2) + Dec((loc.min / 30) * 30, 2)
    case Hour => Dec(loc.year, 4) + Dec(loc.mon, 2) + Dec(loc.mday, 2) + "-" + Dec(loc.hour, 2)
    case Day => Dec(loc.year, 4) + Dec(loc.mon, 2) + Dec(loc.mday, 2)
    case Mon => Dec(loc.year, 4) + Dec(loc.mon, 2)
    case Year => Dec(loc.year, 4)
  }

  // ---------------------------------------------------------------- order of strings

  /** strcmp(a, b) < 0 */
  predicate LexLt(a: string, b: string) {
    if b == "" then false else if a == "" then true else a[0] < b[0] || (a[0] == b[0] && LexLt(a[1..], b[1..]))
  }

  lemma {:induction false} LexLtPrefix(a: string, b: string, x: string, y: string)
    requires |a| == |b| && LexLt(a, b)
    ensures LexLt(a + x, b + y)
  {
    if a[0] == b[0] {
      LexLtPrefix(a[1..], b[1..], x, y);
      assert (a + x)[1..] == a[1..] + x && (b + y)[1..] == b[1..] + y;
    }
  }

  lemma {:induction false} LexLtSuffix(a: string, x: string, y: string)
    requires LexLt(x, y)
    ensures LexLt(a + x, a + y)
  {
    if a == "" {
      assert a + x == x && a + y == y;
    } else {
      LexLtSuffix(a[1..], x, y);
      assert (a + x)[1..] == a[1..] + x && (a + y)[1..] == a[1..] + y;
    }
  }

  /** The order is strict. */
  lemma {:induction false} LexLtOneWay(a: string, b: string)
    requires LexLt(a, b)
    ensures !LexLt(b, a) && a != b
  {
    if a != "" && a[0] == b[0] {
      LexLtOneWay(a[1..], b[1..]);
    }
  }

  function Pow10(w: nat): nat {
    if w == 0 then 1 else 10 * Pow10(w - 1)
  }

  lemma {:induction false} DecWidth(n: nat, w: nat)
    requires n < Pow10(w)
    ensures |Dec(n, w)| == w
  {
    if w > 0 {
      DecWidth(n / 10, w - 1);
    }
  }

  /** The number a string of decimal digits spells. */
  function Value(s: string): int {
    if s == "" then 0 else 10 * Value(s[..|s| - 1]) + (s[|s| - 1] as int - '0' as int)
  }

  predicate Digits(s: string) {
    forall i :: 0 <= i < |s| ==> '0' <= s[i] <= '9'
  }

  lemma ValueSnoc(s: string, d: nat)
    requires d < 10 && Digits(s)
    ensures Value(s + [Digit(d)]) == 10 * Value(s) + d && Digits(s + [Digit(d)])
  {
    assert (s + [Digit(d)])[..|s|] == s;
  }

  /** The last digit printed, and what is printed before it. */
  lemma LastDigit(n: nat, w: nat)
    requires n > 0 || w > 0
    ensures Dec(n, w) == Dec(n / 10, if w == 0 then 0 else w - 1) + [Digit(n % 10)]
  {
  }

  /** A printed number is decimal digits that spell it, at least as many as asked for. */
  lemma {:induction false} DecSpells(n: nat, w: nat)
    ensures |Dec(n, w)| >= w && Digits(Dec(n, w)) && Value(Dec(n, w)) == n
    decreases n, w
  {
    if n > 0 || w > 0 {
      var m, v := n / 10, if w == 0 then 0 else w - 1;
      DecSpells(m, v);
      LastDigit(n, w);
      ValueSnoc(Dec(m, v), n % 10);
    }
  }

  /** Numbers printed to the same width sort as numbers. */
  lemma {:induction false} DecOrder(m: nat, n: nat, w: nat)
    requires m < n < Pow10(w)
    ensures LexLt(Dec(m, w), Dec(n, w))
  {
    var a, b, x, y := Dec(m / 10, w - 1), Dec(n / 10, w - 1), [Digit(m % 10)], [Digit(n % 10)];
    assert Dec(n, w) == b + y;
    assert Dec(m, w) == a + x;
    if m / 10 < n / 10 {
      DecOrder(m / 10, n / 10, w - 1);
      DecWidth(m / 10, w - 1);
      DecWidth(n / 10, w - 1);
      LexLtPrefix(a, b, x, y);
    } else {
      LexLtSuffix(a, x, y);
    }
  }

  // ---------------------------------------------------------------- keys as tuples of numbers

  /** What a key prints, as numbers: the year and down to the policy's unit. */
  function Fields(p: Policy, loc: Tm): (fs: seq<int>)
    ensures 1 <= |fs| <= 5
  {
    match p
    case Min1 => [loc.year, loc.mon, loc.mday, loc.hour, loc.min]
    case Min5 => [loc.year, loc.mon, loc.mday, loc.hour, (loc.min / 5) * 5]
    case Min10 => [loc.year, loc.mon, loc.mday, loc.hour, (loc.min / 10) * 10]
    case Min30 => [loc.year, loc.mon, loc.mday, loc.hour, (loc.min / 30) * 30]
    case Hour => [loc.year, loc.mon, loc.mday, loc.hour]
    case Day => [loc.year, loc.mon, loc.mday]
    case Mon => [loc.year, loc.mon]
    case Year => [loc.year]
  }

  function Width(i: nat): nat {
    if i == 0 then 4 else 2
  }

  predicate Fits(fs: seq<int>) {
    forall i :: 0 <= i < |fs| ==> 0 <= fs[i] < Pow10(Width(i))
  }

  function Text(fs: seq<int>): string
    requires Fits(fs)
  {
    if fs == [] then ""
    else
      var k := |fs| - 1;
      Text(fs[..k]) + ((if k == 3 then "-" else "") + Dec(fs[k], Width(k)))
  }

  /** Field order, most significant first. */
  predicate Before(fs: seq<int>, gs: seq<int>)
    requires |fs| == |gs|
  {
    if fs == [] then false
    else
      var k := |fs| - 1;
      Before(fs[..k], gs[..k]) || (fs[..k] == gs[..k] && fs[k] < gs[k])
  }

  lemma {:induction false} TextWidth(fs: seq<int>, gs: seq<int>)
    requires Fits(fs) && Fits(gs) && |fs| == |gs|
    ensures |Text(fs)| == |Text(gs)|
  {
    if fs != [] {
      var k := |fs| - 1;
      TextWidth(fs[..k], gs[..k]);
      DecWidth(fs[k], Width(k));
      DecWidth(gs[k], Width(k));
    }
  }

  lemma {:induction false} TextOrder(fs: seq<int>, gs: seq<int>)
    requires Fits(fs) && Fits(gs) && |fs| == |gs| && Before(fs, gs)
    ensures LexLt(Text(fs), Text(gs))
  {
    var k := |fs| - 1;
    var sep := if k == 3 then "-" else "";
    var x, y := Dec(fs[k], Width(k)), Dec(gs[k], Width(k));
    if Before(fs[..k], gs[..k]) {
      TextOrder(fs[..k], gs[..k]);
      TextWidth(fs[..k], gs[..k]);
      LexLtPrefix(Text(fs[..k]), Text(gs[..k]), sep + x, sep + y);
    } else {
      DecOrder(fs[k], gs[k], Width(k));
      LexLtSuffix(sep, x, y);
      LexLtSuffix(Text(fs[..k]), sep + x, sep + y);
    }
  }

  lemma {:induction false} BeforeTotal(fs: seq<int>, gs: seq<int>)
    requires |fs| == |gs|
    ensures fs == gs || Before(fs, gs) || Before(gs, fs)
  {
    if fs != [] {
      var k := |fs| - 1;
      BeforeTotal(fs[..k], gs[..k]);
      assert fs == fs[..k] + [fs[k]] && gs == gs[..k] + [gs[k]];
    }
  }

  /** Equal texts have equal fields. */
  lemma TextInjective(fs: seq<int>, gs: seq<int>)
    requires Fits(fs) && Fits(gs) && |fs| == |gs| && Text(fs) == Text(gs)
    ensures fs == gs
  {
    BeforeTotal(fs, gs);
    if Before(fs, gs) {
      TextOrder(fs, gs);
      LexLtOneWay(Text(fs), Text(gs));
    } else if Before(gs, fs) {
      TextOrder(gs, fs);
      LexLtOneWay(Text(gs), Text(fs));
    }
  }

  // ---------------------------------------------------------------- keys over time

  /** A calendar date whose year prints in four digits. */
  predicate Printable(loc: Tm, t: int) {
    IsClock(loc, t) && loc.year <= 9999
  }

  lemma FieldsFit(p: Policy, loc: Tm, t: int)
    requires Printable(loc, t)
    ensures Fits(Fields(p, loc))
  {
    assert Pow10(2) == 100 && Pow10(4) == 10000;
    assert loc.mday <= 31;
  }

  lemma DateText(y: nat, m: nat, d: nat)
    requires Fits([y, m, d])
    ensures Fits([y]) && Text([y]) == Dec(y, 4)
    ensures Fits([y, m]) && Text([y, m]) == Dec(y, 4) + Dec(m, 2)
    ensures Text([y, m, d]) == Dec(y, 4) + Dec(m, 2) + Dec(d, 2)
  {
    var fs := [y, m, d];
    assert fs[0] == y && fs[1] == m && fs[2] == d;
    TextSnoc([], y);
    assert [] + [y] == [y] && [y] + [m] == [y, m] && [y, m] + [d] == [y, m, d];
    TextSnoc([y], m);
    TextSnoc([y, m], d);
    assert "" + Dec(m, 2) == Dec(m, 2) && "" + Dec(d, 2) == Dec(d, 2) && "" + Dec(y, 4) == Dec(y, 4);
  }

  lemma HourText(y: nat, m: nat, d: nat, h: nat)
    requires Fits([y, m, d, h])
    ensures Fits([y, m, d]) && Text([y, m, d, h]) == Text([y, m, d]) + "-" + Dec(h, 2)
  {
    var fs := [y, m, d, h];
    assert fs[0] == y && fs[1] == m && fs[2] == d && fs[3] == h;
    TextSnoc([y, m, d], h);
    assert [y, m, d] + [h] == fs;
    assert Text([y, m, d]) + ("-" + Dec(h, 2)) == Text([y, m, d]) + "-" + Dec(h, 2);
  }

  lemma MinuteText(y: nat, m: nat, d: nat, h: nat, x: nat)
    requires Fits([y, m, d, h, x])
    ensures Fits([y, m, d, h]) && Text([y, m, d, h, x]) == Text([y, m, d, h]) + Dec(x, 2)
  {
    var fs := [y, m, d, h, x];
    assert fs[0] == y && fs[1] == m && fs[2] == d && fs[3] == h && fs[4] == x;
    TextSnoc([y, m, d, h], x);
    assert [y, m, d, h] + [x] == fs && "" + Dec(x, 2) == Dec(x, 2);
  }

  lemma KeyIsText(p: Policy, loc: Tm, t: int)
    requires Printable(loc, t)
    ensures Fits(Fields(p, loc)) && Key(p, loc) == Text(Fields(p, loc))
  {
    FieldsFit(p, loc, t);
    FieldsFit(Min1, loc, t);
    var y, m, d, h := loc.year, loc.mon, loc.mday, loc.hour;
    var fs := Fields(p, loc);
    MinuteText(y, m, d, h, if |fs| == 5 then fs[4] else loc.min);
    HourText(y, m, d, h);
    DateText(y, m, d);
  }

  lemma TextSnoc(fs: seq<int>, x: int)
    requires Fits(fs) && 0 <= x < Pow10(Width(|fs|))
    ensures Fits(fs + [x]) && Text(fs + [x]) == Text(fs) + ((if |fs| == 3 then "-" else "") + Dec(x, Width(|fs|)))
  {
    assert (fs + [x])[..|fs|] == fs;
  }

  /** The five numbers of a date that keys are made of, in order. */
  function Clock(loc: Tm): seq<int> {
    [loc.year, loc.mon, loc.mday, loc.hour, loc.min]
  }

  /** Not later in time, not later in any key's numbers. */
  predicate ClockLe(a: Tm, b: Tm) {
    a.year < b.year || (a.year == b.year && (a.mon < b.mon || (a.mon == b.mon && (a.mday < b.mday || (a.mday == b.mday
    && (a.hour < b.hour || (a.hour == b.hour && a.min <= b.min)))))))
  }

  lemma ClockFollowsTime(a: Tm, s: int, b: Tm, t: int)
    requires IsClock(a, s) && IsClock(b, t) && s <= t
    ensures ClockLe(a, b)
  {
    if !ClockLe(a, b) {
      EncodeOrder(b.(mon := b.mon - 1), a.(mon := a.mon - 1));
    }
  }

  /** How many minutes a key of five numbers rounds down to. */
  function Grain(p: Policy): nat {
    match p
    case Min5 => 5
    case Min10 => 10
    case Min30 => 30
    case _ => 1
  }

  lemma FieldsAre(p: Policy, loc: Tm)
    ensures var fs := Fields(p, loc); |fs| == (if Rank(p) <= 3 then 5 else 8 - Rank(p))
    ensures var fs := Fields(p, loc); forall i :: 0 <= i < |fs| && i < 4 ==> fs[i] == Clock(loc)[i]
    ensures var fs := Fields(p, loc); |fs| == 5 ==> fs[4] == (loc.min / Grain(p)) * Grain(p)
  {
  }

  lemma RoundingKeepsOrder(m: int, n: int, g: nat)
    requires (g == 1 || g == 5 || g == 10 || g == 30) && m <= n
    ensures (m / g) * g <= (n / g) * g
  {
    assert m / 5 <= n / 5 && m / 10 <= n / 10 && m / 30 <= n / 30;
  }

  lemma FieldsFollowClock(p: Policy, a: Tm, b: Tm)
    requires ClockLe(a, b)
    ensures |Fields(p, a)| == |Fields(p, b)| && (Fields(p, a) == Fields(p, b) || Before(Fields(p, a), Fields(p, b)))
  {
    var fs, gs := Fields(p, a), Fields(p, b);
    FieldsAre(p, a);
    FieldsAre(p, b);
    var i := if a.year != b.year then 0 else if a.mon != b.mon then 1
      else if a.mday != b.mday then 2 else if a.hour != b.hour then 3 else 4;
    if i == 4 {
      RoundingKeepsOrder(a.min, b.min, Grain(p));
    }
    FirstDiffers(fs, gs, i);
  }

  lemma FirstDiffers(fs: seq<int>, gs: seq<int>, i: nat)
    requires |fs| == |gs| && forall j :: 0 <= j < |fs| && j < i ==> fs[j] == gs[j]
    requires i < |fs| ==> fs[i] < gs[i] || (fs[i] == gs[i] && |fs| == i + 1)
    ensures fs == gs || Before(fs, gs)
  {
    if i < |fs| && fs[i] < gs[i] {
      BeforeFirst(fs, gs, i);
    }
  }

  /** The first number that differs decides. */
  lemma {:induction false} BeforeFirst(fs: seq<int>, gs: seq<int>, i: nat)
    requires |fs| == |gs| && i < |fs|
    ensures fs[..i] == gs[..i] && fs[i] < gs[i] ==> Before(fs, gs)
    decreases |fs|
  {
    var k := |fs| - 1;
    if i < k && fs[..i] == gs[..i] {
      assert fs[..k][..i] == fs[..i] && gs[..k][..i] == gs[..i];
      BeforeFirst(fs[..k], gs[..k], i);
    }
  }

  /** Keys sort as time does: the file names of a log list in the order they were opened. */
  lemma KeysFollowTime(p: Policy, a: Tm, s: int, b: Tm, t: int)
    requires Printable(a, s) && Printable(b, t) && s <= t
    ensures Key(p, a) == Key(p, b) || LexLt(Key(p, a), Key(p, b))
  {
    KeyIsText(p, a, s);
    KeyIsText(p, b, t);
    ClockFollowsTime(a, s, b, t);
    FieldsFollowClock(p, a, b);
    if Fields(p, a) != Fields(p, b) {
      TextOrder(Fields(p, a), Fields(p, b));
    }
  }

  /** The length of a bucket in seconds, for the policies whose buckets are all of one length. */
  function Span(p: Policy): nat
    requires Rank(p) <= 5
  {
    if p.Day? then 86400 else if p.Hour? then 3600 else 60 * Grain(p)
  }

  function Bucket(p: Policy, day: int, hour: int, min: int): int
    requires Rank(p) <= 5
  {
    match p
    case Day => day
    case Hour => day * 24 + hour
    case Min1 => (day * 24 + hour) * 60 + min
    case Min5 => (day * 24 + hour) * 12 + min / 5
    case Min10 => (day * 24 + hour) * 6 + min / 10
    case Min30 => (day * 24 + hour) * 2 + min / 30
  }

  lemma MinuteBucket(day: int, h: int, m: int, c: int, g: nat)
    requires (g == 1 || g == 5 || g == 10 || g == 30) && 0 <= h < 24 && 0 <= m < 60 && 0 <= c < 60
    ensures (day * 86400 + h * 3600 + m * 60 + c) / (60 * g) == (day * 24 + h) * (60 / g) + m / g
  {
    var t, hours := day * 86400 + h * 3600 + m * 60 + c, day * 24 + h;
    if g == 1 {
      DivUnique(t, 60, hours * 60 + m, c);
    } else if g == 5 {
      DivUnique(t, 300, hours * 12 + m / 5, (m % 5) * 60 + c);
    } else if g == 10 {
      DivUnique(t, 600, hours * 6 + m / 10, (m % 10) * 60 + c);
    } else {
      DivUnique(t, 1800, hours * 2 + m / 30, (m % 30) * 60 + c);
    }
  }

  lemma BucketIs(p: Policy, loc: Tm, t: int)
    requires IsClock(loc, t) && Rank(p) <= 5
    ensures t / Span(p) == Bucket(p, DayOf(loc.(mon := loc.mon - 1)), loc.hour, loc.min)
  {
    var day, h, m, c := DayOf(loc.(mon := loc.mon - 1)), loc.hour, loc.min, loc.sec;
    assert t == day * 86400 + h * 3600 + m * 60 + c;
    if p.Day? {
      DivUnique(t, 86400, day, h * 3600 + m * 60 + c);
    } else if p.Hour? {
      DivUnique(t, 3600, day * 24 + h, m * 60 + c);
    } else {
      MinuteBucket(day, h, m, c, Grain(p));
    }
  }

  lemma KeyIsFields(p: Policy, a: Tm, s: int, b: Tm, t: int)
    requires Printable(a, s) && Printable(b, t)
    ensures Key(p, a) == Key(p, b) <==> Fields(p, a) == Fields(p, b)
  {
    KeyIsText(p, a, s);
    KeyIsText(p, b, t);
    LengthOf(p, a, b);
    if Key(p, a) == Key(p, b) {
      TextInjective(Fields(p, a), Fields(p, b));
    }
  }

  /** Equal days are equal dates. */
  lemma DayIsDate(a: Tm, b: Tm)
    requires InRange(a) && InRange(b)
    ensures DayOf(a) == DayOf(b) <==> a.year == b.year && a.mon == b.mon && a.mday == b.mday
  {
    if DateBefore(a, b) {
      DateOrder(a, b);
    } else if DateBefore(b, a) {
      DateOrder(b, a);
    }
  }

  lemma Radix(a: int, b: int, a': int, b': int, n: int)
    requires 0 <= b < n && 0 <= b' < n
    ensures a * n + b == a' * n + b' <==> a == a' && b == b'
  {
    DivUnique(a * n + b, n, a, b);
    DivUnique(a' * n + b', n, a', b');
  }

  lemma SameBucket(p: Policy, d: int, h: int, m: int, d': int, h': int, m': int)
    requires Rank(p) <= 5 && 0 <= h < 24 && 0 <= h' < 24 && 0 <= m < 60 && 0 <= m' < 60
    ensures Bucket(p, d, h, m) == Bucket(p, d', h', m')
            <==> d == d' && (p.Day? || h == h') && (Rank(p) <= 3 ==> (m / Grain(p)) * Grain(p) == (m' / Grain(p)) * Grain(p))
  {
    Radix(d, h, d', h', 24);
    var g := Grain(p);
    Radix(d * 24 + h, m / g, d' * 24 + h', m' / g, 60 / g);
  }

  /** Down from days, two seconds have the same key exactly when they lie in the same span of time. */
  lemma KeyIsBucket(p: Policy, a: Tm, s: int, b: Tm, t: int)
    requires Printable(a, s) && Printable(b, t) && Rank(p) <= 5
    ensures Key(p, a) == Key(p, b) <==> s / Span(p) == t / Span(p)
  {
    var x, y := a.(mon := a.mon - 1), b.(mon := b.mon - 1);
    BucketIs(p, a, s);
    BucketIs(p, b, t);
    KeyIsFields(p, a, s, b, t);
    DayIsDate(x, y);
    SameBucket(p, DayOf(x), a.hour, a.min, DayOf(y), b.hour, b.min);
    SameFields(p, a, b);
  }

  lemma SameFields(p: Policy, a: Tm, b: Tm)
    requires Rank(p) <= 5
    ensures Fields(p, a) == Fields(p, b) <==>
              a.year == b.year && a.mon == b.mon && a.mday == b.mday && (p.Day? || a.hour == b.hour)
              && (Rank(p) <= 3 ==> (a.min / Grain(p)) * Grain(p) == (b.min / Grain(p)) * Grain(p))
  {
    FieldsAre(p, a);
    FieldsAre(p, b);
    var fs, gs := Fields(p, a), Fields(p, b);
    if fs == gs {
      assert fs[0] == gs[0] && fs[1] == gs[1] && fs[2] == gs[2];
      assert |fs| > 3 ==> fs[3] == gs[3];
      assert |fs| > 4 ==> fs[4] == gs[4];
    }
  }

  /** A run that rolls by time never comes back to an earlier key. */
  lemma NeverReturns(p: Policy, a: Tm, s: int, b: Tm, t: int, c: Tm, u: int)
    requires Printable(a, s) && Printable(b, t) && Printable(c, u) && s <= t <= u && Key(p, a) == Key(p, c)
    ensures Key(p, b) == Key(p, a)
  {
    KeysFollowTime(p, a, s, b, t);
    KeysFollowTime(p, b, t, c, u);
    if Key(p, b) != Key(p, a) {
      LexLtOneWay(Key(p, a), Key(p, b));
    }
  }

  /** The keys of one policy are all as long as one another. */
  lemma KeyWidth(p: Policy, a: Tm, s: int, b: Tm, t: int)
    requires Printable(a, s) && Printable(b, t)
    ensures |Key(p, a)| == |Key(p, b)| > 0
  {
    KeyIsText(p, a, s);
    KeyIsText(p, b, t);
    LengthOf(p, a, b);
    TextWidth(Fields(p, a), Fields(p, b));
    DecWidth(b.year, 4);
  }

  /** So the test whether a file's name starts with a key asks for the very key. */
  lemma PrefixIsKey(p: Policy, a: Tm, s: int, b: Tm, t: int, suffix: string)
    requires Printable(a, s) && Printable(b, t)
    ensures Key(p, b) <= Key(p, a) + suffix <==> Key(p, a) == Key(p, b)
    ensures Key(p, a) + suffix == Key(p, b) + suffix <==> Key(p, a) == Key(p, b)
  {
    KeyWidth(p, a, s, b, t);
    SamePrefix(Key(p, a), Key(p, b), suffix);
  }

  lemma SamePrefix(k: string, l: string, suffix: string)
    requires |k| == |l|
    ensures l <= k + suffix <==> k == l
    ensures k + suffix == l + suffix <==> k == l
  {
    assert (k + suffix)[..|k|] == k && (l + suffix)[..|l|] == l;
  }

  /** q's buckets are made of p's. */
  predicate Finer(p: Policy, q: Policy) {
    Rank(p) <= Rank(q)
  }

  function Rank(p: Policy): nat {
    match p
    case Min1 => 0
    case Min5 => 1
    case Min10 => 2
    case Min30 => 3
    case Hour => 4
    case Day => 5
    case Mon => 6
    case Year => 7
  }

  /** A finer policy's key determines every coarser one's. */
  lemma CoarserFollows(p: Policy, q: Policy, a: Tm, s: int, b: Tm, t: int)
    requires Printable(a, s) && Printable(b, t) && Finer(p, q) && Key(p, a) == Key(p, b)
    ensures Key(q, a) == Key(q, b)
  {
    KeyIsFields(p, a, s, b, t);
    FieldsCoarsen(p, q, a, b);
  }

  lemma LengthOf(p: Policy, a: Tm, b: Tm)
    ensures |Fields(p, a)| == |Fields(p, b)|
  {
  }

  lemma FieldsCoarsen(p: Policy, q: Policy, a: Tm, b: Tm)
    requires Finer(p, q) && Fields(p, a) == Fields(p, b)
    requires a.year >= 0 && a.mon >= 0 && a.mday >= 0 && a.hour >= 0 && a.min >= 0
    requires b.year >= 0 && b.mon >= 0 && b.mday >= 0 && b.hour >= 0 && b.min >= 0
    ensures Key(q, a) == Key(q, b)
  {
    var fs, gs := Fields(p, a), Fields(p, b);
    assert fs[0] == gs[0];
    assert |fs| > 1 ==> fs[1] == gs[1];
    assert |fs| > 2 ==> fs[2] == gs[2];
    assert |fs| > 3 ==> fs[3] == gs[3];
    assert |fs| > 4 ==> fs[4] == gs[4];
    RoundingNests(a.min);
    RoundingNests(b.min);
  }

  /** Rounding to a first and then to a multiple b of it is rounding to b. */
  lemma RoundingNestsIn(m: int, a: nat, b: nat)
    requires m >= 0 && ((a == 5 && (b == 10 || b == 30)) || (a == 10 && b == 30))
    ensures ((m / a) * a) / b == m / b
  {
    var q, r := m / b, m % b;
    if a == 5 && b == 10 {
      DivUnique(m, 5, 2 * q + r / 5, r % 5);
      DivUnique((m / 5) * 5, 10, q, (r / 5) * 5);
    } else if a == 5 {
      DivUnique(m, 5, 6 * q + r / 5, r % 5);
      DivUnique((m / 5) * 5, 30, q, (r / 5) * 5);
    } else {
      DivUnique(m, 10, 3 * q + r / 10, r % 10);
      DivUnique((m / 10) * 10, 30, q, (r / 10) * 10);
    }
  }

  lemma RoundingNests(m: int)
    requires m >= 0
    ensures ((m / 5) * 5) / 10 == m / 10 && ((m / 5) * 5) / 30 == m / 30 && ((m / 10) * 10) / 30 == m / 30
  {
    RoundingNestsIn(m, 5, 10);
    RoundingNestsIn(m, 5, 30);
    RoundingNestsIn(m, 10, 30);
  }

  /** The policy's keys are in order over all calendar seconds before T. */
  ghost predicate OrderedBefore(p: Policy, T: int) {
    forall a, s, b, t :: IsClock(a, s) && IsClock(b, t) && 0 <= s <= t < T ==> KeyLe(p, a, b)
  }

  /** strcmp of the two keys is at most 0. */
  predicate KeyLe(p: Policy, a: Tm, b: Tm) {
    a.year >= 0 && a.mon >= 0 && a.mday >= 0 && a.hour >= 0 && a.min >= 0
    && b.year >= 0 && b.mon >= 0 && b.mday >= 0 && b.hour >= 0 && b.min >= 0
    && (Key(p, a) == Key(p, b) || LexLt(Key(p, a), Key(p, b)))
  }

  /** The first second of the year 10000. */
  const YEAR10000: int := DaysToYear(10000) * DAY

  lemma InOrderBefore(p: Policy, a: Tm, s: int, b: Tm, t: int)
    requires IsClock(a, s) && IsClock(b, t) && s <= t < YEAR10000
    ensures KeyLe(p, a, b)
  {
    YearBefore(a, s);
    YearBefore(b, t);
    KeysFollowTime(p, a, s, b, t);
  }

  lemma OutOfOrderAt(p: Policy, a: Tm, s: int, b: Tm, t: int, T: int)
    requires IsClock(a, s) && IsClock(b, t) && a.year == 9999 && b.year == 10000 && 0 <= s <= t < T
    ensures !OrderedBefore(p, T)
  {
    FiveDigitsSortFirst(p, a, s, b, t);
    LexLtOneWay(Key(p, b), Key(p, a));
    assert !KeyLe(p, a, b);
  }

  lemma NotInOrder(p: Policy, T: int)
    requires T > YEAR10000
    ensures !OrderedBefore(p, T)
  {
    NewYear10000();
    NewYearFields();
    OutOfOrderAt(p, LastOf9999(), YEAR10000 - 1, FirstOf10000(), YEAR10000, T);
  }

  lemma AllInOrder(p: Policy, T: int)
    requires T <= YEAR10000
    ensures OrderedBefore(p, T)
  {
    forall a, s, b, t | IsClock(a, s) && IsClock(b, t) && 0 <= s <= t < T
      ensures KeyLe(p, a, b)
    {
      InOrderBefore(p, a, s, b, t);
    }
  }

  /** Under every policy, keys are in order over all seconds before T exactly when T is not past the year 9999. */
  lemma OrderedExactlyToYear9999(p: Policy, T: int)
    ensures OrderedBefore(p, T) <==> T <= YEAR10000
  {
    if T <= YEAR10000 {
      AllInOrder(p, T);
    } else {
      NotInOrder(p, T);
    }
  }

  lemma YearBefore(loc: Tm, t: int)
    requires IsClock(loc, t) && t < YEAR10000
    ensures Printable(loc, t)
  {
    var tm := loc.(mon := loc.mon - 1);
    if loc.year > 9999 {
      DayInYear(tm);
      YearsGrow(10000, loc.year);
    }
  }

  function LastOf9999(): Tm {
    Tm(59, 59, 23, 31, 12, 9999, CMod(DaysToYear(9999) + 364 + 4, 7), 364, 0)
  }

  function FirstOf10000(): Tm {
    Tm(0, 0, 0, 1, 1, 10000, CMod(DaysToYear(10000) + 4, 7), 0, 0)
  }

  lemma December()
    ensures Leap(9999) == 0 && Leap(10000) == 1 && DaysToMonth(0, 11) == 334 && MonthDays(0)[11] == 31
  {
    MonthStarts(0);
  }

  lemma LastSecond()
    ensures IsClock(LastOf9999(), YEAR10000 - 1)
  {
    December();
    assert DaysToYear(9999) == 2932532 && YEAR10000 == 2932897 * DAY;
  }

  lemma FirstSecond()
    ensures IsClock(FirstOf10000(), YEAR10000)
  {
    December();
    assert DaysToMonth(1, 0) == 0;
  }

  lemma NewYear10000()
    ensures IsClock(LastOf9999(), YEAR10000 - 1) && IsClock(FirstOf10000(), YEAR10000)
  {
    LastSecond();
    FirstSecond();
  }

  lemma NewYearFields()
    ensures LastOf9999().year == 9999 && FirstOf10000().year == 10000 && YEAR10000 >= 1
  {
  }

  /** A date of the year 10000 prints a key before every key of the year 9999. */
  lemma FiveDigitsSortFirst(p: Policy, a: Tm, s: int, b: Tm, t: int)
    requires IsClock(a, s) && IsClock(b, t) && a.year == 9999 && b.year == 10000
    ensures LexLt(Key(p, b), Key(p, a))
  {
    TenThousand();
    Nines();
    StartsWithYear(p, a);
    StartsWithYear(p, b);
  }

  lemma StartsWithYear(p: Policy, loc: Tm)
    requires loc.year >= 0 && loc.mon >= 0 && loc.mday >= 0 && loc.hour >= 0 && loc.min >= 0 && Dec(loc.year, 4) != ""
    ensures Key(p, loc) != "" && Key(p, loc)[0] == Dec(loc.year, 4)[0]
  {
  }

  lemma TenThousand()
    ensures Dec(10000, 4) != "" && Dec(10000, 4)[0] == '1'
  {
    LastDigit(10000, 4);
    LastDigit(1000, 3);
    LastDigit(100, 2);
    LastDigit(10, 1);
    LastDigit(1, 0);
  }

  lemma Nines()
    ensures Dec(9999, 4) != "" && Dec(9999, 4)[0] == '9'
  {
    LastDigit(9999, 4);
    LastDigit(999, 3);
    LastDigit(99, 2);
    LastDigit(9, 1);
  }
}
