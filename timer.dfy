/**
 * The Pomodoro timer of the dashboard (js/modules/timer.js): a work/break
 * countdown driven by a one-second ticker, with its duration inputs, its
 * auto-start checkbox and the settings it keeps in local storage.
 *
 * The browser's timer table becomes explicit state: `intervals` holds the
 * handles of the live setInterval tickers, `nextHandle` the next handle
 * setInterval hands out, and `pending` the setTimeout follow-ups that have
 * been scheduled but have not run yet. A tick is the callback of a live
 * ticker (Tick), a follow-up runs when RunFollowUp is called.
 */
module Timer {
  import opened Wrappers
  import opened JsStrings

  const DefaultWork := 25
  const DefaultBreak := 5

  // ---------------------------------------------------------------------------
  // getValidTime
  // ---------------------------------------------------------------------------

  /**
   * Math.max(1, parseInt(value) || 1): the minutes an input's value stands
   * for. They are at least one; they are the parsed number when that is
   * positive, and one when there is no number or it is zero or negative.
   */
  function ValidTime(value: string): (minutes: int)
    ensures minutes >= 1
    ensures ParseInt(value).Some? && ParseInt(value).value >= 1 ==> minutes == ParseInt(value).value
    ensures ParseInt(value).None? || ParseInt(value).value < 1 ==> minutes == 1
  {
    var parsedOrOne := match ParseInt(value) case Some(n) => if n != 0 then n else 1 case None => 1;
    if parsedOrOne < 1 then 1 else parsedOrOne
  }

  /** Writing the minutes back into the input is stable: reading it again gives the same minutes. */
  lemma ValidTimeWriteBack(value: string)
    ensures ValidTime(IntString(ValidTime(value))) == ValidTime(value)
  {
    ParseIntString(ValidTime(value));
  }

  // ---------------------------------------------------------------------------
  // updateDisplay: the mm:ss text
  // ---------------------------------------------------------------------------

  /**
   * JavaScript's t % 60: the remainder takes the sign of the dividend, and
   * agrees with the Euclidean remainder on non-negative t.
   */
  function JsRem60(t: int): (r: int)
    ensures t >= 0 ==> r == t % 60
    ensures t < 0 ==> -60 < r <= 0
  {
    if t >= 0 then t % 60 else -((-t) % 60)
  }

  /**
   * The display text for t seconds: Math.floor(t / 60) and t % 60, each as a
   * decimal numeral padded to two characters with '0', joined by ':'.
   */
  function Format(t: int): string {
    PadStart(IntString(t / 60), 2, '0') + ":" + PadStart(IntString(JsRem60(t)), 2, '0')
  }

  /** Read a display text back into seconds: minutes before the last three characters, two digits of seconds after the ':'. */
  function DisplaySeconds(s: string): Option<int> {
    if |s| < 4 || s[|s| - 3] != ':' then None
    else
      match (ParseInt(s[..|s| - 3]), ParseInt(s[|s| - 2..]))
      case (Some(m), Some(sec)) => Some(m * 60 + sec)
      case _ => None
  }

  /** A two-digit-padded numeral of n reads back as n, and is two characters long below 100. */
  lemma PaddedNumeral(n: nat)
    ensures ParseInt(PadStart(IntString(n), 2, '0')) == Some(n)
    ensures |PadStart(IntString(n), 2, '0')| >= 2
    ensures n < 100 ==> |PadStart(IntString(n), 2, '0')| == 2
  {
    var s := IntString(n);
    assert s == NatString(n);
    NatStringDigits(n);
    if n >= 10 {
      ParseIntString(n);
      assert PadStart(s, 2, '0') == s;
      if n < 100 {
        NatStringDigits(n / 10);
        assert s == NatString(n / 10) + [DigitChar(n % 10)];
      }
    } else {
      var p := PadStart(s, 2, '0');
      assert Repeat('0', 1) == ['0'];
      assert s == [DigitChar(n)];
      assert p == ['0', DigitChar(n)];
      ParseIntDigits(p);
      assert p[..1] == ['0'] && p[..1][..0] == [];
      assert DigitsNumber(p[..1], 10) == 0;
    }
  }

  /** Two padded numerals joined by ':' decode to minutes times 60 plus seconds. */
  lemma DecodeJoin(mm: string, ss: string, minutes: int, seconds: int)
    requires |mm| >= 2 && |ss| == 2
    requires ParseInt(mm) == Some(minutes) && ParseInt(ss) == Some(seconds)
    ensures DisplaySeconds(mm + ":" + ss) == Some(minutes * 60 + seconds)
  {
    var s := mm + ":" + ss;
    assert s[..|s| - 3] == mm;
    assert s[|s| - 2..] == ss;
  }

  /** For a non-negative count of seconds, the display text is decodable and gives the count back. */
  lemma FormatDecodes(t: nat)
    ensures DisplaySeconds(Format(t)) == Some(t)
  {
    var mm := PadStart(IntString(t / 60), 2, '0');
    var ss := PadStart(IntString(t % 60), 2, '0');
    PaddedNumeral(t / 60);
    PaddedNumeral(t % 60);
    assert Format(t) == mm + ":" + ss;
    DecodeJoin(mm, ss, t / 60, t % 60);
  }

  /** Different remaining times show different texts. */
  lemma FormatInjective(a: nat, b: nat)
    requires Format(a) == Format(b)
    ensures a == b
  {
    FormatDecodes(a);
    FormatDecodes(b);
  }

  /** The full work session and one second into it. */
  lemma FormatExamples()
    ensures Format(1500) == "25:00"
    ensures Format(1499) == "24:59"
    ensures Format(300) == "05:00"
  {
    assert NatString(25) == "25" by {
      assert NatString(2) == "2";
    }
    assert NatString(24) == "24" by {
      assert NatString(2) == "2";
    }
    assert NatString(59) == "59" by {
      assert NatString(5) == "5";
    }
    assert NatString(0) == "0";
    assert NatString(5) == "5";
  }

  // ---------------------------------------------------------------------------
  // Saved settings
  // ---------------------------------------------------------------------------

  /**
   * The localStorage entry zenFocusTimerSettings: missing or empty, not
   * readable (JSON.parse throws, or the JSON is null), or an object whose
   * work, break and autoStart members may each be absent (null or undefined).
   */
  datatype SettingsSlot =
    | Missing
    | Unreadable
    | Saved(work: Option<string>, brk: Option<string>, autoStart: Option<bool>)

  /** The three settings inputs: work minutes, break minutes, auto-start checkbox. */
  datatype Inputs = Inputs(work: string, brk: string, autoStart: bool)

  /** What saveSettings stores; without a checkbox, autoStart is stored as false. */
  function Stored(i: Inputs, hasAutoStart: bool): (slot: SettingsSlot)
    ensures slot.Saved? && slot.work.Some? && slot.brk.Some? && slot.autoStart.Some?
    ensures !hasAutoStart ==> slot.autoStart == Some(false)
  {
    Saved(Some(i.work), Some(i.brk), Some(hasAutoStart && i.autoStart))
  }

  /**
   * The inputs after loadSettings copies the entry's present members into
   * them. A missing or unreadable entry leaves the inputs at their page
   * values, and without a checkbox its state is never touched.
   */
  function Restored(slot: SettingsSlot, i: Inputs, hasAutoStart: bool): (r: Inputs)
    ensures !slot.Saved? ==> r == i
    ensures !hasAutoStart ==> r.autoStart == i.autoStart
  {
    match slot
    case Saved(w, b, a) =>
      Inputs(w.GetOr(i.work), b.GetOr(i.brk), if a.Some? && hasAutoStart then a.value else i.autoStart)
    case _ => i
  }

  /**
   * The inputs after loadSettings: the restored values, with the work input
   * rewritten by getValidTime when an entry was read.
   */
  function Loaded(slot: SettingsSlot, i: Inputs, hasAutoStart: bool): (r: Inputs)
    ensures r.brk == Restored(slot, i, hasAutoStart).brk
    ensures r.autoStart == Restored(slot, i, hasAutoStart).autoStart
    ensures !slot.Saved? ==> r == i
  {
    var restored := Restored(slot, i, hasAutoStart);
    if slot.Saved? then restored.(work := IntString(ValidTime(restored.work))) else restored
  }

  /** The remaining seconds after loadSettings: the restored work minutes when an entry was read, else unchanged. */
  function LoadedSeconds(slot: SettingsSlot, i: Inputs, hasAutoStart: bool, seconds: int): (r: int)
    ensures slot.Saved? ==> r >= 60 && r % 60 == 0
    ensures !slot.Saved? ==> r == seconds
  {
    if slot.Saved? then ValidTime(Restored(slot, i, hasAutoStart).work) * 60 else seconds
  }

  /**
   * After a saved entry is loaded, the work input and the remaining time
   * agree: the input shows the whole minutes of the time, and re-reading the
   * input gives the time back.
   */
  lemma LoadedAgree(slot: SettingsSlot, i: Inputs, hasAutoStart: bool, seconds: int)
    requires slot.Saved?
    ensures var r := LoadedSeconds(slot, i, hasAutoStart, seconds);
      var work := Loaded(slot, i, hasAutoStart).work;
      work == IntString(r / 60) && ValidTime(work) * 60 == r
  {
    ValidTimeWriteBack(Restored(slot, i, hasAutoStart).work);
  }

  /** Loading what was saved restores the inputs, whatever they held before. */
  lemma RestoreStored(i: Inputs, j: Inputs, hasAutoStart: bool)
    ensures Restored(Stored(i, hasAutoStart), j, hasAutoStart)
      == if hasAutoStart then i else i.(autoStart := j.autoStart)
  {
  }

  // ---------------------------------------------------------------------------
  // Session end
  // ---------------------------------------------------------------------------

  /** The two notices completeSession can hand to the notifier. */
  datatype Notice = WorkComplete | BreakOver {
    /** The message text. */
    function Message(): string {
      match this
      case WorkComplete => "Work session complete! Take a break."
      case BreakOver => "Break is over! Time to work."
    }

    /** The notification type. */
    function Kind(): string {
      match this
      case WorkComplete => "success"
      case BreakOver => "info"
    }
  }

  /** The notice completeSession schedules, given the session that has just begun. */
  function SessionEndNotice(nowWork: bool): (n: Notice)
    ensures nowWork <==> n.Kind() == "info"
    ensures !nowWork <==> n.Kind() == "success"
  {
    if nowWork then BreakOver else WorkComplete
  }

  /** The label updateSessionIndicator writes. */
  function SessionLabel(isWork: bool): string {
    if isWork then "Work" else "Break"
  }

  // ---------------------------------------------------------------------------
  // The timer
  // ---------------------------------------------------------------------------

  /**
   * What the timer writes into the page: the display text, the document
   * title, the break-mode class of #timer-section, the text of
   * .session-label and the disabled flags of the start and pause buttons.
   */
  datatype Page = Page(display: string, title: string, breakMode: bool, sessionLabel: string,
                       startDisabled: bool, pauseDisabled: bool)

  /** The text that updateDisplay shows, and the document title after it. */
  function Title(display: string): string {
    display + " - ZenFocus"
  }

  class PomodoroTimer {
    var timeLeft: int
    var timerId: Option<nat>
    var isWorkSession: bool
    var isRunning: bool

    /** The value strings of the work and break inputs and the checkbox state. */
    var inputs: Inputs
    /** Whether the auto-start checkbox exists (it may be passed as null). */
    const hasAutoStart: bool
    /** Whether a notifier function was given (it may be passed as null). */
    const hasNotifier: bool
    /** Whether #timer-section and .session-label exist in the page. */
    const hasTimerSection: bool
    const hasSessionLabel: bool

    var page: Page
    var settings: SettingsSlot

    /** The handles of the live setInterval tickers, and the next handle setInterval hands out. */
    var intervals: set<nat>
    var nextHandle: nat
    /** The setTimeout follow-ups that have been scheduled and have not run yet, oldest first. */
    var pending: seq<Notice>
    /** The notices handed to the notifier so far. */
    var notifications: seq<Notice>

    /** The live tickers: exactly timerId while running, none while stopped. */
    ghost predicate TickerValid()
      reads this`isRunning, this`timerId, this`intervals, this`nextHandle
    {
      && (isRunning ==> timerId.Some? && intervals == {timerId.value})
      && (!isRunning ==> intervals == {})
      && (forall h :: h in intervals ==> h < nextHandle)
    }

    /** What the page shows agrees with the state. */
    ghost predicate ViewValid()
      reads this`page, this`timeLeft, this`isWorkSession, this`isRunning
    {
      && page.display == Format(timeLeft)
      && page.title == Title(page.display)
      && (hasTimerSection ==> page.breakMode == !isWorkSession)
      && (hasSessionLabel ==> page.sessionLabel == SessionLabel(isWorkSession))
      && (isRunning ==> page.startDisabled && !page.pauseDisabled)
    }

    ghost predicate Valid()
      reads this`timeLeft, this`isRunning, this`timerId, this`intervals, this`nextHandle
      reads this`page, this`isWorkSession
    {
      && timeLeft >= 1
      && TickerValid()
      && ViewValid()
    }

    /**
     * The constructor: 25 minutes of a stopped work session, then the saved
     * settings are loaded, the display and the session indicator are drawn.
     * `inputs` and `page` are what the page holds before the timer touches it.
     */
    constructor (inputs: Inputs, hasAutoStart: bool, hasNotifier: bool,
                 hasTimerSection: bool, hasSessionLabel: bool, page: Page, settings: SettingsSlot)
      ensures Valid()
      ensures isWorkSession && !isRunning && timerId == None && intervals == {}
      ensures this.inputs == Loaded(settings, inputs, hasAutoStart)
      ensures timeLeft == LoadedSeconds(settings, inputs, hasAutoStart, DefaultWork * 60)
      ensures this.settings == settings && pending == [] && notifications == []
      ensures this.page.startDisabled == page.startDisabled && this.page.pauseDisabled == page.pauseDisabled
    {
      this.inputs := inputs;
      this.hasAutoStart := hasAutoStart;
      this.hasNotifier := hasNotifier;
      this.hasTimerSection := hasTimerSection;
      this.hasSessionLabel := hasSessionLabel;
      this.page := page;
      this.settings := settings;
      timeLeft := DefaultWork * 60;
      timerId := None;
      isWorkSession := true;
      isRunning := false;
      intervals := {};
      nextHandle := 1;
      pending := [];
      notifications := [];
      new;
      LoadSettings();
      assert pending == [] && notifications == [];
      UpdateDisplay();
      UpdateSessionIndicator();
    }

    /**
     * loadSettings: a saved entry's present members overwrite the inputs and
     * the remaining time is re-read from the work input; a missing or
     * unreadable entry changes nothing.
     */
    method LoadSettings()
      requires timeLeft >= 1
      modifies this`inputs, this`timeLeft
      ensures timeLeft >= 1
      ensures inputs == Loaded(settings, old(inputs), hasAutoStart)
      ensures timeLeft == LoadedSeconds(settings, old(inputs), hasAutoStart, old(timeLeft))
    {
      match settings
      case Saved(w, b, a) =>
        if w.Some? {
          inputs := inputs.(work := w.value);
        }
        if b.Some? {
          inputs := inputs.(brk := b.value);
        }
        if a.Some? && hasAutoStart {
          inputs := inputs.(autoStart := a.value);
        }
        var minutes := GetValidTime(true);
        timeLeft := minutes * 60;
      case _ =>
    }

    /** saveSettings: the inputs' current values go to local storage. */
    method SaveSettings()
      modifies this`settings
      ensures settings == Stored(inputs, hasAutoStart)
    {
      settings := Saved(Some(inputs.work), Some(inputs.brk), Some(if hasAutoStart then inputs.autoStart else false));
    }

    /** getValidTime on the work input (work) or the break input: the minutes, also written back into the input. */
    method GetValidTime(work: bool) returns (minutes: int)
      modifies this`inputs
      ensures work ==> minutes == ValidTime(old(inputs.work)) && inputs == old(inputs).(work := IntString(minutes))
      ensures !work ==> minutes == ValidTime(old(inputs.brk)) && inputs == old(inputs).(brk := IntString(minutes))
      ensures minutes >= 1
    {
      if work {
        minutes := ValidTime(inputs.work);
        inputs := inputs.(work := IntString(minutes));
      } else {
        minutes := ValidTime(inputs.brk);
        inputs := inputs.(brk := IntString(minutes));
      }
    }

    /** resetDefaults: 25 and 5 minutes, no auto-start; the time follows only when idle in a work session. */
    method ResetDefaults()
      requires Valid()
      modifies this`inputs, this`timeLeft, this`page, this`settings
      ensures Valid()
      ensures inputs.work == "25" && inputs.brk == "5"
      ensures inputs.autoStart == (if hasAutoStart then false else old(inputs.autoStart))
      ensures timeLeft == if !isRunning && isWorkSession then DefaultWork * 60 else old(timeLeft)
      ensures settings == Stored(inputs, hasAutoStart)
      ensures page.startDisabled == old(page.startDisabled) && page.pauseDisabled == old(page.pauseDisabled)
    {
      assert IntString(DefaultWork) == "25" by {
        assert NatString(2) == "2";
      }
      inputs := inputs.(work := IntString(DefaultWork), brk := IntString(DefaultBreak));
      if hasAutoStart {
        inputs := inputs.(autoStart := false);
      }
      if !isRunning && isWorkSession {
        timeLeft := DefaultWork * 60;
        UpdateDisplay();
      }
      SaveSettings();
    }

    /** The work input's change handler, after the user has typed value into it. */
    method ChangeWorkInput(value: string)
      requires Valid()
      modifies this`inputs, this`timeLeft, this`page, this`settings
      ensures Valid()
      ensures !isRunning && isWorkSession ==> var m := ValidTime(value);
        inputs == old(inputs).(work := IntString(m)) && timeLeft == m * 60
      ensures isRunning || !isWorkSession ==> inputs == old(inputs).(work := value) && timeLeft == old(timeLeft)
      ensures settings == Stored(inputs, hasAutoStart)
      ensures page.startDisabled == old(page.startDisabled) && page.pauseDisabled == old(page.pauseDisabled)
    {
      inputs := inputs.(work := value);
      if !isRunning && isWorkSession {
        var minutes := GetValidTime(true);
        timeLeft := minutes * 60;
        UpdateDisplay();
      }
      SaveSettings();
    }

    /** The break input's change handler, after the user has typed value into it. */
    method ChangeBreakInput(value: string)
      requires Valid()
      modifies this`inputs, this`timeLeft, this`page, this`settings
      ensures Valid()
      ensures !isRunning && !isWorkSession ==> var m := ValidTime(value);
        inputs == old(inputs).(brk := IntString(m)) && timeLeft == m * 60
      ensures isRunning || isWorkSession ==> inputs == old(inputs).(brk := value) && timeLeft == old(timeLeft)
      ensures settings == Stored(inputs, hasAutoStart)
      ensures page.startDisabled == old(page.startDisabled) && page.pauseDisabled == old(page.pauseDisabled)
    {
      inputs := inputs.(brk := value);
      if !isRunning && !isWorkSession {
        var minutes := GetValidTime(false);
        timeLeft := minutes * 60;
        UpdateDisplay();
      }
      SaveSettings();
    }

    /** The checkbox's change handler (bound only when the checkbox exists). */
    method ChangeAutoStart(checked: bool)
      requires Valid() && hasAutoStart
      modifies this`inputs, this`settings
      ensures Valid()
      ensures inputs == old(inputs).(autoStart := checked)
      ensures settings == Stored(inputs, hasAutoStart)
    {
      inputs := inputs.(autoStart := checked);
      SaveSettings();
    }

    /**
     * start: when stopped, a new ticker is set up and becomes timerId, and the
     * controls switch to running; when already running, nothing changes.
     */
    method Start()
      requires Valid()
      modifies this`isRunning, this`timerId, this`intervals, this`nextHandle, this`page
      ensures Valid()
      ensures isRunning && |intervals| == 1
      ensures old(isRunning) ==> timerId == old(timerId) && intervals == old(intervals)
      ensures old(isRunning) ==> nextHandle == old(nextHandle) && page == old(page)
      ensures !old(isRunning) ==> timerId == Some(old(nextHandle)) && intervals == {old(nextHandle)}
      ensures !old(isRunning) ==> nextHandle == old(nextHandle) + 1
      ensures !old(isRunning) ==> page == old(page).(startDisabled := true, pauseDisabled := false)
    {
      if !isRunning {
        isRunning := true;
        var handle := nextHandle;
        intervals := intervals + {handle};
        nextHandle := nextHandle + 1;
        timerId := Some(handle);
        ToggleControls(true);
      }
    }

    /**
     * pause: when running, the ticker is cleared and the controls switch to
     * stopped; when stopped, nothing changes. timerId keeps the old handle.
     */
    method Pause()
      requires TickerValid()
      modifies this`isRunning, this`intervals, this`page
      ensures TickerValid()
      ensures !isRunning && intervals == {}
      ensures old(isRunning) ==> page == old(page).(startDisabled := false, pauseDisabled := true)
      ensures !old(isRunning) ==> page == old(page)
    {
      if isRunning {
        isRunning := false;
        intervals := intervals - {timerId.value};
        ToggleControls(false);
      }
    }

    /** reset: stopped, in a work session, with the validated work minutes. */
    method Reset()
      requires Valid()
      modifies this`isRunning, this`intervals, this`isWorkSession, this`inputs, this`timeLeft, this`page
      ensures Valid()
      ensures !isRunning && intervals == {} && isWorkSession
      ensures var m := ValidTime(old(inputs.work)); timeLeft == m * 60 && inputs == old(inputs).(work := IntString(m))
      ensures old(isRunning) ==> !page.startDisabled && page.pauseDisabled
      ensures !old(isRunning) ==> page.startDisabled == old(page.startDisabled) && page.pauseDisabled == old(page.pauseDisabled)
    {
      Pause();
      isWorkSession := true;
      var minutes := GetValidTime(true);
      timeLeft := minutes * 60;
      UpdateDisplay();
      UpdateSessionIndicator();
    }

    /**
     * The ticker's callback: one second less; at zero the session completes.
     * Only a live ticker fires, and it is timerId.
     */
    method Tick(handle: nat)
      requires Valid() && handle in intervals
      modifies this`isRunning, this`intervals, this`isWorkSession, this`inputs, this`timeLeft, this`page, this`pending
      ensures Valid()
      ensures old(timeLeft) > 1 ==> timeLeft == old(timeLeft) - 1 && isRunning && intervals == old(intervals)
      ensures old(timeLeft) > 1 ==> isWorkSession == old(isWorkSession) && pending == old(pending) && inputs == old(inputs)
      ensures old(timeLeft) == 1 ==> !isRunning && intervals == {} && isWorkSession == !old(isWorkSession)
      ensures old(timeLeft) == 1 ==> var m := ValidTime(if isWorkSession then old(inputs.work) else old(inputs.brk));
        timeLeft == m * 60 && pending == old(pending) + [SessionEndNotice(isWorkSession)]
        && inputs == if isWorkSession then old(inputs).(work := IntString(m)) else old(inputs).(brk := IntString(m))
      ensures old(timeLeft) == 1 ==> !page.startDisabled && page.pauseDisabled
      ensures old(timeLeft) > 1 ==> page.startDisabled == old(page.startDisabled) && page.pauseDisabled == old(page.pauseDisabled)
    {
      timeLeft := timeLeft - 1;
      UpdateDisplay();
      if timeLeft == 0 {
        CompleteSession();
      }
    }

    /**
     * completeSession: stop, switch to the other session with its validated
     * minutes, and schedule the notice (and the auto-start check) as a follow-up.
     */
    method CompleteSession()
      requires TickerValid() && ViewValid()
      modifies this`isRunning, this`intervals, this`isWorkSession, this`inputs, this`timeLeft, this`page, this`pending
      ensures Valid()
      ensures !isRunning && intervals == {} && isWorkSession == !old(isWorkSession)
      ensures isWorkSession ==> var m := ValidTime(old(inputs.work));
        timeLeft == m * 60 && inputs == old(inputs).(work := IntString(m))
      ensures !isWorkSession ==> var m := ValidTime(old(inputs.brk));
        timeLeft == m * 60 && inputs == old(inputs).(brk := IntString(m))
      ensures pending == old(pending) + [SessionEndNotice(isWorkSession)]
      ensures old(isRunning) ==> !page.startDisabled && page.pauseDisabled
      ensures !old(isRunning) ==> page.startDisabled == old(page.startDisabled) && page.pauseDisabled == old(page.pauseDisabled)
    {
      Pause();
      isWorkSession := !isWorkSession;
      UpdateSessionIndicator();
      var notice;
      if isWorkSession {
        var minutes := GetValidTime(true);
        timeLeft := minutes * 60;
        notice := BreakOver;
      } else {
        var minutes := GetValidTime(false);
        timeLeft := minutes * 60;
        notice := WorkComplete;
      }
      UpdateDisplay();
      pending := pending + [notice];
    }

    /** The setTimeout follow-up of completeSession: notify, then start again if auto-start is on. */
    method RunFollowUp()
      requires Valid() && pending != []
      modifies this`pending, this`notifications, this`isRunning, this`timerId, this`intervals, this`nextHandle, this`page
      ensures Valid()
      ensures pending == old(pending[1..])
      ensures notifications == old(notifications) + if hasNotifier then [old(pending[0])] else []
      ensures hasAutoStart && inputs.autoStart ==> isRunning
      ensures !(hasAutoStart && inputs.autoStart) ==> isRunning == old(isRunning) && intervals == old(intervals)
      ensures !(hasAutoStart && inputs.autoStart) ==> timerId == old(timerId) && nextHandle == old(nextHandle) && page == old(page)
      ensures hasAutoStart && inputs.autoStart && old(isRunning) ==>
        timerId == old(timerId) && intervals == old(intervals) && nextHandle == old(nextHandle) && page == old(page)
      ensures hasAutoStart && inputs.autoStart && !old(isRunning) ==>
        timerId == Some(old(nextHandle)) && intervals == {old(nextHandle)} && nextHandle == old(nextHandle) + 1
        && page == old(page).(startDisabled := true, pauseDisabled := false)
    {
      var notice := pending[0];
      pending := pending[1..];
      if hasNotifier {
        notifications := notifications + [notice];
      }
      if hasAutoStart && inputs.autoStart {
        Start();
      }
    }

    /** updateDisplay: the mm:ss text, and the document title after it. */
    method UpdateDisplay()
      modifies this`page
      ensures page == old(page).(display := Format(timeLeft), title := Title(Format(timeLeft)))
    {
      var text := Format(timeLeft);
      page := page.(display := text, title := Title(text));
    }

    /** updateSessionIndicator: the break-mode class and the label, where those elements exist. */
    method UpdateSessionIndicator()
      modifies this`page
      ensures page == old(page).(breakMode := if hasTimerSection then !isWorkSession else old(page.breakMode),
                                 sessionLabel := if hasSessionLabel then SessionLabel(isWorkSession) else old(page.sessionLabel))
    {
      if hasTimerSection {
        page := page.(breakMode := !isWorkSession);
      }
      if hasSessionLabel {
        page := page.(sessionLabel := SessionLabel(isWorkSession));
      }
    }

    /** toggleControls: start is disabled exactly while running, pause exactly while stopped. */
    method ToggleControls(running: bool)
      modifies this`page
      ensures page == old(page).(startDisabled := running, pauseDisabled := !running)
    {
      page := page.(startDisabled := running, pauseDisabled := !running);
    }
  }
}
