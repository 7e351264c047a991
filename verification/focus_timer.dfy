/** The focus timer of App.tsx: a 25-minute countdown shown as MM:SS. */
module FocusTimer {
  import opened Wrappers
  import opened Text

  lemma {:induction false} AtMostTwoDigits(n: nat)
    ensures n < 100 ==> |NatToString(n)| <= 2
  {
    if 10 <= n < 100 {
      assert NatToString(n) == NatToString(n / 10) + [DigitChar(n % 10)];
    }
  }

  /** One field of the display: `n.toString().padStart(2, '0')`. */
  function Field(n: nat): (r: string)
    ensures |r| >= 2 && AllDigits(r) && ParseDigits(r) == n
    ensures n < 100 ==> |r| == 2
  {
    ParseZeroPadded(NatToString(n), 2);
    ParseNatToString(n);
    AtMostTwoDigits(n);
    PadStart(NatToString(n), 2, '0')
  }

  /** The two fields of an MM:SS display, taken apart again. */
  lemma Join(mm: string, ss: string)
    requires |ss| == 2
    ensures var r := mm + ":" + ss; |r| == |mm| + 3 && r[|r| - 3] == ':' && r[..|r| - 3] == mm && r[|r| - 2..] == ss
  {
    var r := mm + ":" + ss;
    assert r[..|r| - 3] == mm;
    assert r[|r| - 2..] == ss;
  }

  /** `formatTime`: whole minutes and leftover seconds, each zero-padded to two
      digits, joined by a colon. Both operands of `%` are non-negative, so
      JavaScript's remainder and Dafny's agree. */
  function FormatTime(seconds: nat): (r: string)
    ensures |r| >= 5 && r[|r| - 3] == ':'
    ensures seconds < 6000 ==> |r| == 5
  {
    var mm := Field(seconds / 60);
    var ss := Field(seconds % 60);
    Join(mm, ss);
    mm + ":" + ss
  }

  /** Reads an MM:SS display back into seconds; None for anything else. */
  function ParseTime(r: string): (t: Option<nat>)
    ensures t.Some? ==> |r| >= 4 && r[|r| - 3] == ':'
  {
    if |r| >= 4 && r[|r| - 3] == ':' && AllDigits(r[..|r| - 3]) && AllDigits(r[|r| - 2..])
    then Some(ParseDigits(r[..|r| - 3]) * 60 + ParseDigits(r[|r| - 2..]))
    else None
  }

  lemma ParseJoined(mm: string, ss: string)
    requires |mm| >= 2 && |ss| == 2 && AllDigits(mm) && AllDigits(ss)
    ensures ParseTime(mm + ":" + ss) == Some(ParseDigits(mm) * 60 + ParseDigits(ss))
  {
    Join(mm, ss);
  }

  /** The display names the time exactly, and its seconds field is below 60. */
  lemma FormatTimeRoundTrip(seconds: nat)
    ensures ParseTime(FormatTime(seconds)) == Some(seconds)
  {
    assert FormatTime(seconds) == Field(seconds / 60) + ":" + Field(seconds % 60);
    ParseFields(seconds, Field(seconds / 60), Field(seconds % 60));
  }

  lemma ParseFields(seconds: nat, mm: string, ss: string)
    requires |mm| >= 2 && |ss| == 2 && AllDigits(mm) && AllDigits(ss)
    requires ParseDigits(mm) == seconds / 60 && ParseDigits(ss) == seconds % 60
    ensures ParseTime(mm + ":" + ss) == Some(seconds)
  {
    ParseJoined(mm, ss);
    MinutesAndSeconds(seconds, ParseDigits(mm), ParseDigits(ss));
  }

  lemma MinutesAndSeconds(seconds: nat, m: nat, s: nat)
    requires m == seconds / 60 && s == seconds % 60
    ensures m * 60 + s == seconds
  {
  }

  /** The two digits after the colon always read as fewer than 60 seconds. */
  lemma SecondsFieldBelowSixty(seconds: nat)
    ensures var r := FormatTime(seconds); ParseDigits(r[|r| - 2..]) == seconds % 60 < 60
  {
    var mm, ss := Field(seconds / 60), Field(seconds % 60);
    var r := mm + ":" + ss;
    assert FormatTime(seconds) == r;
    Join(mm, ss);
  }

  /** A full focus session, 25 minutes. */
  const FocusSeconds := 1500

  datatype Timer = Timer(remaining: int, active: bool)

  predicate Valid(t: Timer) {
    0 <= t.remaining <= FocusSeconds
  }

  /** The timer when the app starts and after `resetTimer`: full and stopped. */
  function Reset(t: Timer): (r: Timer)
    ensures Valid(r) && r.remaining == FocusSeconds && !r.active
  {
    Timer(FocusSeconds, false)
  }

  /** The Focus/Stop button. */
  function Toggle(t: Timer): (r: Timer)
    ensures r.remaining == t.remaining && r.active != t.active
  {
    t.(active := !t.active)
  }

  /** One run of the countdown effect: while running and above zero, a second
      passes; at zero the timer stops; a stopped timer above zero waits. */
  function Tick(t: Timer): (r: Timer)
    requires Valid(t)
    ensures Valid(r) && r.remaining <= t.remaining
    ensures r.remaining < t.remaining <==> t.active && t.remaining > 0
    ensures r.remaining == t.remaining - 1 || r.remaining == t.remaining
    ensures t.remaining == 0 ==> !r.active
    ensures t.remaining > 0 ==> r.active == t.active
  {
    if t.active && t.remaining > 0 then t.(remaining := t.remaining - 1)
    else if t.remaining == 0 then t.(active := false)
    else t
  }

  function Ticks(t: Timer, k: nat): (r: Timer)
    requires Valid(t)
    ensures Valid(r)
  {
    if k == 0 then t else Tick(Ticks(t, k - 1))
  }

  /** A running timer counts down one second per tick and stops at zero. */
  lemma {:induction false} CountdownStopsAtZero(t: Timer, k: nat)
    requires Valid(t) && t.active
    ensures k <= t.remaining ==> Ticks(t, k) == Timer(t.remaining - k, true)
    ensures k > t.remaining ==> Ticks(t, k) == Timer(0, false)
  {
    if k > 0 {
      CountdownStopsAtZero(t, k - 1);
    }
  }
}
