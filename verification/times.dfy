/** `Time` of lib/utils.py: a duration in milliseconds with hour/minute/second accessors and a
    directive-driven formatter.

    The formatter's format string is parsed by a regular expression into directives
    `%<id><0?>[<suffix>]`; the model takes the parsed directive list. Python's `//` floors, which
    for the positive divisors used here is exactly Dafny's `/`. */
module Times {
  import opened Wrappers

  datatype Time = Time(millisecond: int)

  const MsPerHour: int := 3_600_000
  const MsPerMinute: int := 60_000
  const MsPerSecond: int := 1000

  /** `Time.__add__`: the sum of two durations. */
  function Add(a: Time, b: Time): (r: Time)
    ensures r.millisecond == a.millisecond + b.millisecond
  {
    Time(a.millisecond + b.millisecond)
  }

  /** Adding durations is associative and commutative, with zero as neutral element. */
  lemma AddIsCommutativeMonoid(a: Time, b: Time, c: Time)
    ensures Add(a, b) == Add(b, a)
    ensures Add(Add(a, b), c) == Add(a, Add(b, c))
    ensures Add(a, Time(0)) == a
  {
  }

  /** `Time.get(id)`: whole hours, whole minutes or whole seconds of the duration, each counted
      from zero (so minutes are total minutes, not minutes past the hour); `None` for any other
      id. */
  function Get(t: Time, id: char): (r: Option<int>)
    ensures id == 'h' ==> r.Some? && r.value * MsPerHour <= t.millisecond < (r.value + 1) * MsPerHour
    ensures id == 'm' ==> r.Some? && r.value * MsPerMinute <= t.millisecond < (r.value + 1) * MsPerMinute
    ensures id == 's' ==> r.Some? && r.value * MsPerSecond <= t.millisecond < (r.value + 1) * MsPerSecond
    ensures id !in "hms" <==> r.None?
  {
    if id == 'h' then Some(t.millisecond / MsPerHour)
    else if id == 'm' then Some(t.millisecond / MsPerMinute)
    else if id == 's' then Some(t.millisecond / MsPerSecond)
    else None
  }

  /** Floor division is superadditive: the whole units of a sum are at least the sum of the whole
      units, and at most one more. */
  lemma AddGetBounds(a: Time, b: Time, id: char)
    requires id in "hms"
    ensures Get(a, id).Some? && Get(b, id).Some? && Get(Add(a, b), id).Some?
    ensures Get(a, id).value + Get(b, id).value <= Get(Add(a, b), id).value
                                                <= Get(a, id).value + Get(b, id).value + 1
  {
  }

  /** A parsed `%<id><0?>[<suffix>]` directive: the accessor id, whether the `0` flag was given,
      and the literal text between the brackets. */
  datatype Directive = Directive(id: char, zeroFlag: bool, suffix: string)

  /** Decimal digits of a natural number, most significant first, as `str(n)` writes them. */
  function NatToString(n: nat): (s: string)
    ensures |s| > 0 && (forall k :: 0 <= k < |s| ==> '0' <= s[k] <= '9')
    ensures s[0] == '0' ==> n == 0
    decreases n
  {
    if n < 10 then [Digit(n)] else NatToString(n / 10) + [Digit(n % 10)]
  }

  function Digit(d: nat): (c: char)
    requires d < 10
    ensures '0' <= c <= '9' && c as int - '0' as int == d
  {
    ('0' as int + d) as char
  }

  /** `str(v)` of an integer: a minus sign before the digits of a negative value. */
  function IntToString(i: int): (s: string)
    ensures |s| > 0
    ensures i < 0 <==> s[0] == '-'
  {
    if i < 0 then "-" + NatToString(-i) else NatToString(i)
  }

  /** The value of a string of decimal digits; the reference reading `NatToString` is checked
      against. */
  function ParseNat(s: string): nat
    requires forall k :: 0 <= k < |s| ==> '0' <= s[k] <= '9'
    decreases |s|
  {
    if |s| == 0 then 0
    else ParseNat(s[..|s| - 1]) * 10 + (s[|s| - 1] as int - '0' as int)
  }

  function ParseInt(s: string): int
    requires |s| > 0 && forall k :: 0 <= k < |s| ==> '0' <= s[k] <= '9' || (k == 0 && s[k] == '-')
  {
    if s[0] == '-' then 0 - ParseNat(s[1..]) as int else ParseNat(s) as int
  }

  /** Reading back the digits `NatToString` writes gives the number. */
  lemma {:induction false} NatToStringRoundTrip(n: nat)
    ensures ParseNat(NatToString(n)) == n
    decreases n
  {
    var s := NatToString(n);
    if n >= 10 {
      NatToStringRoundTrip(n / 10);
      assert s[..|s| - 1] == NatToString(n / 10);
    }
  }

  /** Reading back `str(i)` gives `i`, negative values included. */
  lemma IntToStringRoundTrip(i: int)
    ensures ParseInt(IntToString(i)) == i
  {
    var s := IntToString(i);
    if i < 0 {
      assert s[1..] == NatToString(-i);
      NatToStringRoundTrip(-i);
    } else {
      NatToStringRoundTrip(i);
    }
  }

  /** Different numbers are written differently. */
  lemma IntToStringInjective(i: int, j: int)
    requires IntToString(i) == IntToString(j)
    ensures i == j
  {
    IntToStringRoundTrip(i);
    IntToStringRoundTrip(j);
  }

  /** `str(value)`: `None` prints as the word `None`. */
  function ValueString(v: Option<int>): string {
    match v
    case None => "None"
    case Some(i) => IntToString(i)
  }

  /** The text one directive contributes, given how `value` is looked up. */
  function Piece(t: Time, d: Directive, get: (Time, char) -> Option<int>): (s: string)
  {
    var value := get(t, d.id);
    if value == Some(0) && !d.zeroFlag then "" else ValueString(value) + d.suffix
  }

  /** A directive contributes nothing exactly when its value is zero and it has no `0` flag;
      otherwise it contributes the value followed by its suffix. */
  lemma PieceOmittedIff(t: Time, d: Directive, get: (Time, char) -> Option<int>)
    ensures Piece(t, d, get) == "" <==> get(t, d.id) == Some(0) && !d.zeroFlag
    ensures Piece(t, d, get) != "" ==> Piece(t, d, get) == ValueString(get(t, d.id)) + d.suffix
  {
    var v := get(t, d.id);
    if v.Some? {
      assert |IntToString(v.value)| > 0;
    }
  }

  /** The directives' pieces, in directive order. */
  function Render(t: Time, ds: seq<Directive>, get: (Time, char) -> Option<int>): (s: string)
    decreases |ds|
  {
    if |ds| == 0 then "" else Piece(t, ds[0], get) + Render(t, ds[1..], get)
  }

  /** Rendering distributes over concatenated directive lists. */
  lemma {:induction false} RenderAppend(t: Time, a: seq<Directive>, b: seq<Directive>,
                                        get: (Time, char) -> Option<int>)
    ensures Render(t, a + b, get) == Render(t, a, get) + Render(t, b, get)
    decreases |a|
  {
    if |a| > 0 {
      assert (a + b)[0] == a[0] && (a + b)[1..] == a[1..] + b;
      RenderAppend(t, a[1..], b, get);
    } else {
      assert a + b == b;
    }
  }

  lemma RenderSingle(t: Time, ds: seq<Directive>, get: (Time, char) -> Option<int>)
    ensures |ds| == 1 ==> Render(t, ds, get) == Piece(t, ds[0], get)
  {
    if |ds| == 1 {
      assert ds[1..] == [];
      assert Render(t, ds[1..], get) == "";
      assert Piece(t, ds[0], get) + "" == Piece(t, ds[0], get);
    }
  }

  /** `format(time, spec)` with the directives of `spec` already extracted. */
  function Format(t: Time, ds: seq<Directive>): (s: string)
    ensures |ds| == 1 ==> s == Piece(t, ds[0], Get)
  {
    RenderSingle(t, ds, Get);
    Render(t, ds, Get)
  }

  /** With one directive the output is empty exactly when the value is zero and the directive has
      no `0` flag; otherwise it is the value's decimal text followed by the suffix. */
  lemma FormatSingle(t: Time, d: Directive)
    ensures Format(t, [d]) == "" <==> Get(t, d.id) == Some(0) && !d.zeroFlag
    ensures Format(t, [d]) != "" ==> Format(t, [d]) == ValueString(Get(t, d.id)) + d.suffix
  {
    PieceOmittedIff(t, d, Get);
  }

  /** The hour-and-minute format the command-line front end uses for every leg and the total. */
  const HourMinute: seq<Directive> :=
    [Directive('h', false, " \U{C2DC}\U{AC04} "), Directive('m', false, " \U{BD84}")]

  /** As written, the minute field repeats the hours it has already shown: an hour and a half
      prints as "1 hours 90 minutes". */
  lemma HourMinuteRepeatsHours()
    ensures Format(Time(5_400_000), HourMinute) == "1 \U{C2DC}\U{AC04} 90 \U{BD84}"
  {
    assert Get(Time(5_400_000), 'h') == Some(1);
    assert Get(Time(5_400_000), 'm') == Some(90);
    assert NatToString(90) == "90" by {
      assert NatToString(9) == "9";
      assert NatToString(0) == "0";
    }
    calc {
      Format(Time(5_400_000), HourMinute);
      Piece(Time(5_400_000), HourMinute[0], Get) + Render(Time(5_400_000), HourMinute[1..], Get);
      { assert HourMinute[1..][1..] == []; }
      "1 \U{C2DC}\U{AC04} " + ("90 \U{BD84}" + "");
    }
  }

  /** The clock reading the format evidently means: whole hours, then the minutes and seconds
      left over within the hour and the minute. */
  function ClockGet(t: Time, id: char): (r: Option<int>)
    ensures id !in "hms" <==> r.None?
    ensures id in "ms" ==> r.Some? && 0 <= r.value < 60
  {
    if id == 'h' then Some(t.millisecond / MsPerHour)
    else if id == 'm' then Some(t.millisecond / MsPerMinute % 60)
    else if id == 's' then Some(t.millisecond / MsPerSecond % 60)
    else None
  }

  /** The clock fields put back together give the duration again: nothing is counted twice. */
  lemma ClockGetRecomposes(t: Time)
    ensures ClockGet(t, 'h').Some? && ClockGet(t, 'm').Some? && ClockGet(t, 's').Some?
    ensures ClockGet(t, 'h').value * MsPerHour + ClockGet(t, 'm').value * MsPerMinute
            + ClockGet(t, 's').value * MsPerSecond + t.millisecond % MsPerSecond
            == t.millisecond
  {
    var ms := t.millisecond;
    var secs := ms / 1000;
    var mins := secs / 60;
    assert ms / 60_000 == mins;
    assert ms / 3_600_000 == mins / 60;
    assert ms == secs * 1000 + ms % 1000;
    assert secs == mins * 60 + secs % 60;
    assert mins == mins / 60 * 60 + mins % 60;
  }

  /** `Format` with the clock reading. */
  function ClockFormat(t: Time, ds: seq<Directive>): (s: string)
    ensures |ds| == 1 ==> s == Piece(t, ds[0], ClockGet)
  {
    RenderSingle(t, ds, ClockGet);
    Render(t, ds, ClockGet)
  }

  /** With the clock reading an hour and a half prints as "1 hours 30 minutes". */
  lemma HourMinuteClock()
    ensures ClockFormat(Time(5_400_000), HourMinute) == "1 \U{C2DC}\U{AC04} 30 \U{BD84}"
  {
    assert ClockGet(Time(5_400_000), 'h') == Some(1);
    assert ClockGet(Time(5_400_000), 'm') == Some(30);
    assert NatToString(30) == "30" by {
      assert NatToString(3) == "3";
      assert NatToString(0) == "0";
    }
    calc {
      ClockFormat(Time(5_400_000), HourMinute);
      Piece(Time(5_400_000), HourMinute[0], ClockGet) + Render(Time(5_400_000), HourMinute[1..], ClockGet);
      { assert HourMinute[1..][1..] == []; }
      "1 \U{C2DC}\U{AC04} " + ("30 \U{BD84}" + "");
    }
  }
}
