/** The client-side `ExamTimer` of static/js/exam_timer.js. `localStorage` is a shared
    `LocalStorage` object whose items map keys to the integers the timer writes;
    `Date.now()` is the parameter `now`; the `setInterval` callback is the method `Tick`,
    which the scheduler calls once a second while the interval is active. */
module Timer {
  import opened Query
  import opened Decimal

  const StartKey := "examStartTime"
  const EndKey := "examEndTime"
  const LimitKey := "examTimeLimit"
  const TimerKeys: set<string> := {StartKey, EndKey, LimitKey}

  // ---------------------------------------------------------------------------------------
  // updateDisplay: `${pad(Math.floor(rs / 60))}:${pad(rs % 60)}`

  /** JavaScript's `%`: the remainder takes the sign of the dividend. */
  function JsRem(a: int, b: int): (r: int)
    requires b > 0
    ensures a >= 0 ==> 0 <= r < b && r == a % b
    ensures a < 0 ==> -b < r <= 0
  {
    if a >= 0 then a % b else -((-a) % b)
  }

  /** `%` is the remainder of the division truncated toward zero. */
  lemma JsRemTruncated(a: int, b: int)
    requires b > 0
    ensures a == (if a >= 0 then a / b else -((-a) / b)) * b + JsRem(a, b)
  {
  }

  /** `Number.prototype.toString()` on an integer, as JavaScript writes one below 2^53: an
      optional minus sign, then the decimal digits of the magnitude. */
  function IntToString(n: int): (s: string)
    ensures n >= 0 ==> AllDigits(s) && |s| >= 1 && Value(s) == n
    ensures n >= 0 ==> s[0] != '0' || s == "0"
    ensures n < 0 ==> |s| >= 2 && s[0] == '-' && AllDigits(s[1..]) && Value(s[1..]) == -n
    ensures n < 0 ==> s[1] != '0'
  {
    if n < 0 then
      ValueOfNatToString(-n);
      NatToStringNoLeadingZero(-n);
      var d := NatToString(-n);
      assert ("-" + d)[1..] == d;
      "-" + d
    else
      ValueOfNatToString(n);
      NatToStringNoLeadingZero(n);
      NatToString(n)
  }

  /** `String.prototype.padStart(width, fill)` with a one-character fill. */
  function PadStart(s: string, width: nat, fill: char): (r: string)
    ensures |r| == if |s| >= width then |s| else width
    decreases width - |s|
  {
    if |s| >= width then s else PadStart([fill] + s, width, fill)
  }

  /** `padStart` puts fill characters in front of `s` and nothing else. */
  lemma {:induction false} PadStartShape(s: string, width: nat, fill: char)
    ensures var r := PadStart(s, width, fill);
      r[|r| - |s|..] == s && forall i :: 0 <= i < |r| - |s| ==> r[i] == fill
    decreases width - |s|
  {
    if |s| < width {
      PadStartShape([fill] + s, width, fill);
      var r := PadStart(s, width, fill);
      assert r[|r| - |s|..] == ([fill] + s)[1..];
    }
  }

  /** The text `updateDisplay` writes for `remainingSeconds == rs`. `Math.floor(rs / 60)` is
      Dafny's `rs / 60`, which rounds down for a positive divisor. */
  function Display(rs: int): string {
    PadStart(IntToString(rs / 60), 2, '0') + ":" + PadStart(IntToString(JsRem(rs, 60)), 2, '0')
  }

  /** Reads an "M...M:SS" text back as a number of seconds. */
  function ReadDisplay(d: string): Option<int> {
    var k := |d| - 3;
    if k >= 0 && d[k] == ':' && AllDigits(d[..k]) && AllDigits(d[k + 1..])
    then Some(60 * Value(d[..k]) + Value(d[k + 1..]))
    else None
  }

  lemma {:induction false} PadStartDigits(s: string, width: nat)
    requires AllDigits(s)
    ensures AllDigits(PadStart(s, width, '0')) && Value(PadStart(s, width, '0')) == Value(s)
    decreases width - |s|
  {
    if |s| < width {
      ValueLeadingZero(s);
      PadStartDigits(['0'] + s, width);
    }
  }

  /** A non-negative number padded to two places reads back as itself. */
  lemma PaddedNumber(n: nat)
    ensures var p := PadStart(NatToString(n), 2, '0');
      |p| >= 2 && AllDigits(p) && Value(p) == n
    ensures n < 100 ==> |PadStart(NatToString(n), 2, '0')| == 2
  {
    if n < 10 {
      NatToStringLength(n, 1);
    } else if n < 100 {
      NatToStringLength(n, 2);
    }
    PadStartDigits(NatToString(n), 2);
    ValueOfNatToString(n);
  }

  lemma DisplayOfNonNegative(rs: int)
    requires rs >= 0
    ensures Display(rs) == PadStart(NatToString(rs / 60), 2, '0') + ":" + PadStart(NatToString(rs % 60), 2, '0')
  {
  }

  /** "minutes:seconds" with two second digits splits at its third-last character and
      reads back as 60 * minutes + seconds. */
  lemma ReadDisplayOf(rs: int, minutes: string, seconds: string)
    requires rs >= 0 && AllDigits(minutes) && AllDigits(seconds) && |minutes| >= 2 && |seconds| == 2
    requires Value(minutes) == rs / 60 && Value(seconds) == rs % 60
    ensures var d := minutes + ":" + seconds;
      && |d| >= 5 && d[|d| - 3] == ':'
      && AllDigits(d[..|d| - 3]) && Value(d[..|d| - 3]) == rs / 60
      && AllDigits(d[|d| - 2..]) && Value(d[|d| - 2..]) == rs % 60 < 60
      && ReadDisplay(d) == Some(rs)
  {
    var d := minutes + ":" + seconds;
    assert d[..|d| - 3] == minutes;
    assert d[|d| - 3 + 1..] == seconds;
    assert d[|d| - 2..] == seconds;
  }

  /** For a non-negative count the display reads back as the same count: the minutes and
      the seconds shown determine it. */
  lemma DisplayRoundTrip(rs: int)
    requires rs >= 0
    ensures ReadDisplay(Display(rs)) == Some(rs)
  {
    var m, sec := rs / 60, rs % 60;
    var mm, ss := PadStart(NatToString(m), 2, '0'), PadStart(NatToString(sec), 2, '0');
    PaddedNumber(m);
    PaddedNumber(sec);
    DisplayOfNonNegative(rs);
    ReadDisplayOf(rs, mm, ss);
  }

  /** For a non-negative count the display is two or more minute digits, a colon and exactly
      two second digits whose value is below 60; `60 * minutes + seconds` is the count. */
  lemma DisplayShape(rs: int)
    requires rs >= 0
    ensures var d := Display(rs);
      && |d| >= 5 && d[|d| - 3] == ':'
      && AllDigits(d[..|d| - 3]) && AllDigits(d[|d| - 2..])
      && Value(d[|d| - 2..]) < 60
      && 60 * Value(d[..|d| - 3]) + Value(d[|d| - 2..]) == rs
  {
    var m, sec := rs / 60, rs % 60;
    var mm, ss := PadStart(NatToString(m), 2, '0'), PadStart(NatToString(sec), 2, '0');
    PaddedNumber(m);
    PaddedNumber(sec);
    DisplayOfNonNegative(rs);
    ShapeOfParts(rs, Display(rs), mm, ss);
  }

  lemma ShapeOfParts(rs: int, d: string, minutes: string, seconds: string)
    requires rs >= 0 && AllDigits(minutes) && AllDigits(seconds) && |minutes| >= 2 && |seconds| == 2
    requires Value(minutes) == rs / 60 && Value(seconds) == rs % 60
    requires d == minutes + ":" + seconds
    ensures && |d| >= 5 && d[|d| - 3] == ':'
      && AllDigits(d[..|d| - 3]) && AllDigits(d[|d| - 2..])
      && Value(d[|d| - 2..]) < 60
      && 60 * Value(d[..|d| - 3]) + Value(d[|d| - 2..]) == rs
  {
    ReadDisplayOf(rs, minutes, seconds);
  }

  /** A resumed timer with less than a second left starts at 0, and its first tick shows
      the count -1 as "-1:-1" before the timer stops. */
  lemma DisplayBelowZero()
    ensures Display(-1) == "-1:-1"
  {
    assert NatToString(1) == "1";
  }

  // ---------------------------------------------------------------------------------------
  // start: the decision over the stored keys

  /** The branch `start` takes: no time limit, resume a running exam, a stored exam that
      expired or was started with another limit, or a first start. */
  datatype Decision = NoLimit | Resume(seconds: int) | Expire | Begin

  function Decide(totalMinutes: int, items: map<string, int>, now: int): (d: Decision)
    ensures d.NoLimit? <==> totalMinutes == 0
    ensures d.Begin? <==> totalMinutes != 0 && !(StartKey in items && EndKey in items && LimitKey in items)
    ensures d.Expire? <==>
      && totalMinutes != 0 && StartKey in items && EndKey in items && LimitKey in items
      && (items[EndKey] - now <= 0 || items[LimitKey] != totalMinutes)
    ensures d.Resume? ==>
      && StartKey in items && EndKey in items && LimitKey in items
      && items[LimitKey] == totalMinutes
      && 0 <= d.seconds && d.seconds * 1000 <= items[EndKey] - now < (d.seconds + 1) * 1000
  {
    if totalMinutes == 0 then NoLimit
    else if StartKey in items && EndKey in items && LimitKey in items then
      var remainingTime := items[EndKey] - now;
      if remainingTime > 0 && items[LimitKey] == totalMinutes then Resume(remainingTime / 1000)
      else Expire
    else Begin
  }

  /** The items a first start writes. */
  function BeginItems(items: map<string, int>, totalMinutes: int, now: int): (r: map<string, int>)
    ensures r.Keys == items.Keys + TimerKeys
    ensures r[StartKey] == now && r[EndKey] == now + totalMinutes * 60000 && r[LimitKey] == totalMinutes
    ensures forall k :: k in items && k !in TimerKeys ==> r[k] == items[k]
  {
    KeysDistinct();
    items[StartKey := now][EndKey := now + totalMinutes * 60 * 1000][LimitKey := totalMinutes]
  }

  lemma KeysDistinct()
    ensures StartKey != EndKey && StartKey != LimitKey && EndKey != LimitKey
  {
    assert StartKey[4] != EndKey[4];
    assert StartKey[4] != LimitKey[4];
    assert EndKey[4] != LimitKey[4];
  }

  /** A page reload after a first start at `t0` resumes with the time left, rounded down to
      whole seconds and never more than the limit, until the end time; from then on the
      stored exam is expired. */
  lemma ReloadAfterBegin(items: map<string, int>, totalMinutes: int, t0: int, t1: int)
    requires Decide(totalMinutes, items, t0) == Begin
    requires t0 <= t1
    ensures var end := t0 + totalMinutes * 60000;
      Decide(totalMinutes, BeginItems(items, totalMinutes, t0), t1)
      == if t1 < end then Resume((end - t1) / 1000) else Expire
    ensures Decide(totalMinutes, BeginItems(items, totalMinutes, t0), t1).Resume? ==>
      0 < totalMinutes && Decide(totalMinutes, BeginItems(items, totalMinutes, t0), t1).seconds <= totalMinutes * 60
  {
    KeysDistinct();
    var after := BeginItems(items, totalMinutes, t0);
    assert after[EndKey] == t0 + totalMinutes * 60000 && after[LimitKey] == totalMinutes;
  }

  /** A timer built with a different limit than the stored one treats the exam as over. */
  lemma OtherLimitExpires(items: map<string, int>, totalMinutes: int, t0: int, other: int, t1: int)
    requires Decide(totalMinutes, items, t0) == Begin
    requires other != 0 && other != totalMinutes
    ensures Decide(other, BeginItems(items, totalMinutes, t0), t1) == Expire
  {
    KeysDistinct();
  }

  /** Once the timer keys are cleared, the next start is a first start. */
  lemma ClearedStorageBegins(items: map<string, int>, totalMinutes: int, now: int)
    requires totalMinutes != 0
    ensures Decide(totalMinutes, items - TimerKeys, now) == Begin
  {
  }

  /** Clearing the timer keys keeps every other key, such as the page's `examInfo`, with its
      value. */
  lemma ClearKeepsOtherKeys(items: map<string, int>)
    ensures forall k :: k in TimerKeys ==> k !in items - TimerKeys
    ensures forall k :: k in items && k !in TimerKeys ==> k in items - TimerKeys && (items - TimerKeys)[k] == items[k]
    ensures "examInfo" in items ==> "examInfo" in items - TimerKeys && (items - TimerKeys)["examInfo"] == items["examInfo"]
  {
    assert "examInfo" !in TimerKeys by {
      assert |"examInfo"| == 8;
    }
  }

  // ---------------------------------------------------------------------------------------
  // The objects

  /** The browser's `localStorage`, shared by every timer of the page and kept across
      reloads. */
  class LocalStorage {
    var items: map<string, int>

    constructor (initial: map<string, int>)
      ensures items == initial
    {
      items := initial;
    }
  }

  class ExamTimer {
    const totalMinutes: int
    const storage: LocalStorage
    var remainingSeconds: int
    /** Whether `timerInterval` is scheduled. */
    var intervalActive: bool
    /** Whether `this.onTimerEnd` holds the callback. */
    var onTimerEndSet: bool
    /** `displayElement.textContent`. */
    var display: string

    ghost predicate Valid()
      reads this
    {
      intervalActive ==> onTimerEndSet
    }

    constructor (examTimeLimit: int, storage: LocalStorage)
      ensures Valid()
      ensures totalMinutes == examTimeLimit && this.storage == storage
      ensures !intervalActive && !onTimerEndSet && remainingSeconds == 0 && display == ""
    {
      totalMinutes := examTimeLimit;
      this.storage := storage;
      remainingSeconds := 0;
      intervalActive := false;
      onTimerEndSet := false;
      display := "";
    }

    /** `start`. The result is whether the `onTimerEnd` callback was called. */
    method Start(now: int) returns (timerEnded: bool)
      requires Valid()
      modifies this, storage
      ensures Valid()
      ensures var d := Decide(totalMinutes, old(storage.items), now);
        && timerEnded == (d.NoLimit? || d.Expire?)
        && storage.items == (if d.Begin? then BeginItems(old(storage.items), totalMinutes, now)
                             else old(storage.items))
        && remainingSeconds == (match d
                                case NoLimit => old(remainingSeconds)
                                case Resume(s) => s
                                case Expire => 0
                                case Begin => totalMinutes * 60)
        && intervalActive == (old(intervalActive) || d.Resume? || d.Begin?)
        && onTimerEndSet == (old(onTimerEndSet) || d.Resume? || d.Begin?)
      ensures display == old(display)
    {
      if totalMinutes == 0 {
        timerEnded := true;
        return;
      }
      var items := storage.items;
      if StartKey in items && EndKey in items && LimitKey in items {
        var remainingTime := items[EndKey] - now;
        var originalTimeLimit := items[LimitKey];
        if remainingTime > 0 && originalTimeLimit == totalMinutes {
          remainingSeconds := remainingTime / 1000;
        } else {
          remainingSeconds := 0;
          timerEnded := true;
          return;
        }
      } else {
        remainingSeconds := totalMinutes * 60;
        storage.items := storage.items[StartKey := now];
        storage.items := storage.items[EndKey := now + totalMinutes * 60 * 1000];
        storage.items := storage.items[LimitKey := totalMinutes];
      }
      onTimerEndSet := true;
      intervalActive := true;
      timerEnded := false;
    }

    /** The interval callback: count down one second, redraw, and at zero stop, clear the
        stored keys and call `onTimerEnd`. */
    method Tick() returns (timerEnded: bool)
      requires Valid() && intervalActive
      modifies this`remainingSeconds, this`intervalActive, this`display, storage
      ensures Valid() && onTimerEndSet == old(onTimerEndSet)
      ensures remainingSeconds == old(remainingSeconds) - 1
      ensures display == Display(remainingSeconds)
      ensures remainingSeconds <= 0 ==>
        !intervalActive && timerEnded && storage.items == old(storage.items) - TimerKeys
      ensures remainingSeconds > 0 ==>
        intervalActive && !timerEnded && storage.items == old(storage.items)
    {
      remainingSeconds := remainingSeconds - 1;
      UpdateDisplay();
      timerEnded := false;
      if remainingSeconds <= 0 {
        Stop();
        ClearTimerStorage();
        if onTimerEndSet {
          timerEnded := true;
        }
      }
    }

    /** `stop`: cancels the interval. */
    method Stop()
      modifies this`intervalActive
      ensures !intervalActive
    {
      intervalActive := false;
    }

    /** `clearTimerStorage`: removes the three timer keys and nothing else. */
    method ClearTimerStorage()
      modifies storage
      ensures storage.items == old(storage.items) - TimerKeys
    {
      storage.items := storage.items - TimerKeys;
    }

    /** `updateDisplay`. */
    method UpdateDisplay()
      modifies this`display
      ensures display == Display(remainingSeconds)
    {
      display := Display(remainingSeconds);
    }
  }
}
