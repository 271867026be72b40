/** The urgency ribbon: formatting of the time left before a deadline, the
    rule that makes a task urgent, and the banner built from the urgent
    tasks. Every reading of the clock is a parameter. */
module Urgency {
  import opened Wrappers
  import opened Seqs
  import opened JsString
  import opened Tasks

  const MinuteMs: nat := 60 * 1000
  const HourMs: nat := 60 * MinuteMs
  /** `twoHoursMs` in `getUrgentTasks`. */
  const TwoHoursMs: nat := 2 * 60 * 60 * 1000

  // ---------------------------------------------------------------- time left

  /** `getTimeLeft(ms)`: whole minutes are counted down (never rounded up),
      split into hours and the minutes left over, and printed as "Hh Mm",
      or as "Mm" when there is less than an hour. Both callers pass a
      positive difference. */
  function TimeLeft(ms: nat): (r: string)
    ensures r == if ms >= HourMs
      then NatToString(ms / HourMs) + "h " + NatToString((ms % HourMs) / MinuteMs) + "m"
      else NatToString((ms % HourMs) / MinuteMs) + "m"
    ensures |r| >= 2 && r[|r| - 1] == 'm'
  {
    var totalMinutes := ms / MinuteMs;
    MinutesSplit(ms);
    HoursAndMinutes(totalMinutes / 60, totalMinutes % 60)
  }

  /** The two template literals of `getTimeLeft`. */
  function HoursAndMinutes(hours: nat, minutes: nat): (r: string)
    ensures |r| >= 2 && r[|r| - 1] == 'm'
    ensures 'h' in r <==> hours > 0
  {
    if hours > 0 then NatToString(hours) + "h " + NatToString(minutes) + "m"
    else NatToString(minutes) + "m"
  }

  /** Reads "Hh Mm" or "Mm" back into hours and minutes. */
  function DecodeTimeLeft(s: string): Option<(nat, nat)>
  {
    if |s| == 0 || s[|s| - 1] != 'm' then None
    else
      var body := s[..|s| - 1];
      match IndexOf(body, 'h')
      case None =>
        if IsDecimal(body) then Some((0, DecimalValue(body))) else None
      case Some(k) =>
        var hours := body[..k];
        var rest := body[k + 1..];
        if |rest| >= 1 && rest[0] == ' ' && IsDecimal(hours) && IsDecimal(rest[1..])
        then Some((DecimalValue(hours), DecimalValue(rest[1..])))
        else None
  }

  /** Splitting the whole minutes of `ms` into hours and leftover minutes is
      the same as dividing `ms` by an hour and taking the remaining minutes. */
  lemma MinutesSplit(ms: nat)
    ensures ms / MinuteMs / 60 == ms / HourMs
    ensures ms / MinuteMs % 60 == (ms % HourMs) / MinuteMs
  {
    var q := ms / HourMs;
    var r := ms % HourMs;
    assert ms == q * HourMs + r;
    assert q * HourMs == (q * 60) * MinuteMs;
    assert ms / MinuteMs == q * 60 + r / MinuteMs by {
      assert ms == (q * 60 + r / MinuteMs) * MinuteMs + r % MinuteMs;
    }
  }

  /** Decoding "Hh Mm" gives back both numbers. */
  lemma DecodeHoursAndMinutes(h: string, m: string)
    requires IsDecimal(h) && IsDecimal(m)
    ensures DecodeTimeLeft(h + "h " + m + "m") == Some((DecimalValue(h), DecimalValue(m)))
  {
    var s := h + "h " + m + "m";
    var body := h + "h " + m;
    assert s[..|s| - 1] == body;
    assert body[|h|] == 'h';
    assert forall j :: 0 <= j < |h| ==> body[j] == h[j];
    assert IndexOf(body, 'h') == Some(|h|);
    assert body[..|h|] == h;
    assert body[|h| + 1..] == " " + m;
    assert (" " + m)[1..] == m;
  }

  /** Decoding "Mm" gives no hours and the minutes. */
  lemma DecodeMinutesOnly(m: string)
    requires IsDecimal(m)
    ensures DecodeTimeLeft(m + "m") == Some((0, DecimalValue(m)))
  {
    var s := m + "m";
    assert s[..|s| - 1] == m;
    assert IndexOf(m, 'h') == None;
  }

  /** Whatever the hours and minutes, the printed string reads back as
      them. */
  lemma HoursAndMinutesRoundTrip(hours: nat, minutes: nat)
    ensures DecodeTimeLeft(HoursAndMinutes(hours, minutes)) == Some((hours, minutes))
  {
    NatToStringRoundTrip(minutes);
    if hours > 0 {
      NatToStringRoundTrip(hours);
      DecodeHoursAndMinutes(NatToString(hours), NatToString(minutes));
    } else {
      DecodeMinutesOnly(NatToString(minutes));
    }
  }

  /** The printed time left reads back as the whole hours of `ms` and the
      whole minutes of what remains after them: the format loses nothing but
      the seconds, and never rounds up. */
  lemma TimeLeftRoundTrip(ms: nat)
    ensures DecodeTimeLeft(TimeLeft(ms)) == Some((ms / HourMs, (ms % HourMs) / MinuteMs))
  {
    MinutesSplit(ms);
    HoursAndMinutesRoundTrip(ms / MinuteMs / 60, ms / MinuteMs % 60);
  }

  /** Worked case: ninety minutes print as "1h 30m". */
  lemma TimeLeftNinetyMinutes()
    ensures TimeLeft(90 * MinuteMs) == "1h 30m"
  {
    var ms := 90 * MinuteMs;
    assert ms / MinuteMs == 90;
    assert NatToString(1) == "1";
    assert NatToString(3) == "3" && NatToString(0) == "0";
    assert NatToString(30) == NatToString(3) + [DigitChar(0)] == "30";
  }

  /** Worked case: forty-five minutes print as "45m". */
  lemma TimeLeftFortyFiveMinutes()
    ensures TimeLeft(45 * MinuteMs) == "45m"
  {
    var ms := 45 * MinuteMs;
    assert ms / MinuteMs == 45;
    assert NatToString(4) == "4" && NatToString(5) == "5";
    assert NatToString(45) == NatToString(4) + [DigitChar(5)] == "45";
  }

  /** Worked case: less than a minute prints as "0m". */
  lemma TimeLeftUnderAMinute(ms: nat)
    requires ms < MinuteMs
    ensures TimeLeft(ms) == "0m"
  {
    assert ms / MinuteMs == 0;
    assert NatToString(0) == "0";
  }

  // ---------------------------------------------------------------- urgency

  /** `t.deadline` is truthy: present and not 0. */
  predicate HasDeadline(t: Task)
  {
    t.deadline.Some? && t.deadline.value != 0
  }

  /** The filter predicate of `getUrgentTasks`, with `now` the clock
      reading taken there. */
  predicate IsUrgent(t: Task, now: int)
    ensures IsUrgent(t, now) ==> HasDeadline(t) && !t.completed && t.deadline.value - now > 0
  {
    if !HasDeadline(t) || t.completed then false
    else
      var diff := t.deadline.value - now;
      if t.priority == High && diff > 0 then true
      else if diff > 0 && diff <= TwoHoursMs then true
      else false
  }

  /** The rule in one line: an open task with a deadline strictly in the
      future that is high priority or at most two hours away. */
  lemma IsUrgentIff(t: Task, now: int)
    ensures IsUrgent(t, now) <==>
      HasDeadline(t) && !t.completed && t.deadline.value > now &&
      (t.priority == High || t.deadline.value - now <= TwoHoursMs)
  {
  }

  /** A high-priority task whose deadline has passed is not urgent; ten
      minutes ahead, it is. */
  lemma HighPriorityOverdueNotUrgent(t: Task, now: int)
    requires t.priority == High && !t.completed && now >= 0
    ensures t.deadline == Some(now + 10 * MinuteMs) ==> IsUrgent(t, now)
    ensures t.deadline == Some(now - 10 * MinuteMs) ==> !IsUrgent(t, now)
  {
  }

  function UrgentAt(now: int): Task -> bool
  {
    (t: Task) => IsUrgent(t, now)
  }

  /** `getUrgentTasks()`: the urgent tasks, in list order. */
  function UrgentTasks(tasks: seq<Task>, now: int): (r: seq<Task>)
    ensures IsSubsequence(r, tasks)
    ensures forall t :: t in r <==> t in tasks && IsUrgent(t, now)
    ensures forall i :: 0 <= i < |r| ==> HasDeadline(r[i]) && r[i].deadline.value - now > 0
  {
    Filter(tasks, UrgentAt(now))
  }

  // ---------------------------------------------------------------- ribbon

  const Flame := "\U{1F525} "
  const Dash := " \U{2014} "
  const Bullet := " \U{2022} "
  const Overdue := "Overdue!"
  /** How many copies of the line the scrolling banner holds. */
  const Copies: nat := 10

  /** The JavaScript value of `item.deadline - now`: a `null` deadline
      counts as 0. */
  function DeadlineMs(d: Option<int>): int
  {
    d.GetOr(0)
  }

  /** One entry of the banner, with `clock` the reading taken while the
      entry is built. */
  function RibbonItem(t: Task, clock: int): (r: string)
    ensures |r| > |Flame| + |t.text| + |Dash|
    ensures r[..|Flame| + |t.text|] == Flame + t.text
    ensures DeadlineMs(t.deadline) - clock > 0 ==>
      r == Flame + t.text + Dash + TimeLeft(DeadlineMs(t.deadline) - clock)
    ensures DeadlineMs(t.deadline) - clock <= 0 ==> r == Flame + t.text + Dash + Overdue
  {
    Flame + t.text + Dash + Left(DeadlineMs(t.deadline) - clock)
  }

  /** The time left in an entry, or "Overdue!" once the deadline is
      reached. */
  function Left(diff: int): (r: string)
    ensures r == Overdue <==> diff <= 0
    ensures diff > 0 ==> r == TimeLeft(diff)
  {
    if diff > 0 then TimeLeft(diff) else Overdue
  }

  function RibbonItems(urgent: seq<Task>, clock: int): (r: seq<string>)
    ensures |r| == |urgent|
    ensures forall i :: 0 <= i < |urgent| ==> r[i] == RibbonItem(urgent[i], clock)
  {
    seq(|urgent|, i requires 0 <= i < |urgent| => RibbonItem(urgent[i], clock))
  }

  /** What `updateRibbon` leaves on screen: the banner hidden, or shown
      with or without the `high-scroll` style and with its text. */
  datatype RibbonView = Hidden | Shown(highScroll: bool, text: string)

  /** `urgentList.some(t => t.priority === "high")`. */
  predicate SomeHigh(urgent: seq<Task>)
    ensures SomeHigh(urgent) <==> exists t :: t in urgent && t.priority == High
  {
    exists i :: 0 <= i < |urgent| && urgent[i].priority == High
  }

  /** The banner text: the entries joined by bullets into one line, and ten
      copies of that line joined by bullets. */
  function RibbonText(urgent: seq<Task>, clock: int): (r: string)
    ensures urgent != [] ==> |r| > |Flame| && r[..|Flame|] == Flame
  {
    var items := RibbonItems(urgent, clock);
    var line := Join(items, Bullet);
    var copies := Repeat(line, Copies);
    if urgent != [] then
      assert |items[0]| > |Flame| && items[0][..|Flame|] == Flame;
      assert |line| >= |items[0]| && line[..|items[0]|] == items[0];
      assert line[..|Flame|] == Flame;
      assert copies[0] == line;
      Join(copies, Bullet)
    else
      Join(copies, Bullet)
  }

  /** `updateRibbon()`, with `now` the reading used to pick the urgent
      tasks and `clock` the one used to format them. */
  function Ribbon(tasks: seq<Task>, now: int, clock: int): (r: RibbonView)
    ensures r.Hidden? <==> UrgentTasks(tasks, now) == []
    ensures r.Shown? ==> |r.text| > |Flame| && r.text[..|Flame|] == Flame
  {
    var urgent := UrgentTasks(tasks, now);
    if |urgent| == 0 then Hidden else Shown(SomeHigh(urgent), RibbonText(urgent, clock))
  }

  /** The banner is hidden exactly when no task is urgent. */
  lemma RibbonHiddenIff(tasks: seq<Task>, now: int, clock: int)
    ensures Ribbon(tasks, now, clock).Hidden? <==> forall t :: t in tasks ==> !IsUrgent(t, now)
  {
    var urgent := UrgentTasks(tasks, now);
    if |urgent| > 0 {
      assert urgent[0] in urgent;
    }
  }

  /** A shown banner scrolls in the high-alert style exactly when some
      urgent task is high priority. */
  lemma RibbonHighScrollIff(tasks: seq<Task>, now: int, clock: int)
    requires UrgentTasks(tasks, now) != []
    ensures Ribbon(tasks, now, clock).highScroll <==>
      exists t :: t in tasks && IsUrgent(t, now) && t.priority == High
  {
    SomeHighIff(tasks, now);
  }

  lemma SomeHighIff(tasks: seq<Task>, now: int)
    ensures SomeHigh(UrgentTasks(tasks, now)) <==>
      exists t :: t in tasks && IsUrgent(t, now) && t.priority == High
  {
    var urgent := UrgentTasks(tasks, now);
    if SomeHigh(urgent) {
      var i :| 0 <= i < |urgent| && urgent[i].priority == High;
      assert urgent[i] in urgent;
    }
    if exists t :: t in tasks && IsUrgent(t, now) && t.priority == High {
      var t :| t in tasks && IsUrgent(t, now) && t.priority == High;
      assert t in urgent;
      var i :| 0 <= i < |urgent| && urgent[i] == t;
    }
  }

  /** A shown banner's text is the entries of all urgent tasks, ten rounds
      of them one after another, separated by bullets. */
  lemma RibbonTextIsTenRounds(tasks: seq<Task>, now: int, clock: int)
    requires UrgentTasks(tasks, now) != []
    ensures Ribbon(tasks, now, clock).text ==
      Join(Cycle(RibbonItems(UrgentTasks(tasks, now), clock), Copies), Bullet)
  {
    var urgent := UrgentTasks(tasks, now);
    assert Ribbon(tasks, now, clock).text == RibbonText(urgent, clock);
    JoinRepeatedLine(RibbonItems(urgent, clock), Copies, Bullet);
  }

  /** When both readings of the clock agree, no entry says "Overdue!":
      every urgent task's entry shows the time left before its deadline. */
  lemma NoOverdueAtOneInstant(tasks: seq<Task>, now: int)
    ensures var urgent := UrgentTasks(tasks, now);
      forall i :: 0 <= i < |urgent| ==>
        RibbonItems(urgent, now)[i] ==
          Flame + urgent[i].text + Dash + TimeLeft(urgent[i].deadline.value - now)
  {
    EntriesBeforeDeadline(UrgentTasks(tasks, now), now);
  }

  lemma EntriesBeforeDeadline(u: seq<Task>, clock: int)
    requires forall i :: 0 <= i < |u| ==> u[i].deadline.Some? && u[i].deadline.value - clock > 0
    ensures forall i :: 0 <= i < |u| ==>
      RibbonItems(u, clock)[i] == Flame + u[i].text + Dash + TimeLeft(u[i].deadline.value - clock)
  {
    forall i | 0 <= i < |u|
      ensures RibbonItems(u, clock)[i] == Flame + u[i].text + Dash + TimeLeft(u[i].deadline.value - clock)
    {
      EntryBeforeDeadline(u[i], clock);
    }
  }

  /** One entry built before its task's deadline shows the time left. */
  lemma EntryBeforeDeadline(t: Task, clock: int)
    requires t.deadline.Some? && t.deadline.value - clock > 0
    ensures RibbonItem(t, clock) == Flame + t.text + Dash + TimeLeft(t.deadline.value - clock)
  {
    assert DeadlineMs(t.deadline) - clock == t.deadline.value - clock;
  }
}
