/** The menu's user interface logic (ui_manager.py): the player-name entry
    field, and the choice and wording of the "Last 3 games" lines. Drawing
    itself is not modelled. */
module UiManagement {
  import opened Geometry
  import opened Config

  /** The longest name the entry field accepts. */
  const NAME_LIMIT: int := 15

  /** `input_rect`: 200 x 30 pixels, centred horizontally, below the middle. */
  const INPUT_RECT: Rect := Rect(SCREEN_WIDTH / 2 - 100, SCREEN_HEIGHT / 2 + 50, 200, 30)

  /** The keys the entry field tells apart; every other key is `OtherKey`. */
  datatype KeyCode = Return | Backspace | Tab | OtherKey

  /** A pygame event as the entry field sees it. `text` is the event's
      `unicode` attribute: the characters the keystroke types. */
  datatype Event =
    | KeyDown(key: KeyCode, text: string)
    | MouseDown(x: int, y: int)
    | OtherEvent

  /** An ASCII letter or digit. */
  predicate IsAlnumChar(c: char) {
    'a' <= c <= 'z' || 'A' <= c <= 'Z' || '0' <= c <= '9'
  }

  /** `str.isalnum()`: at least one character, and every one alphanumeric. */
  predicate IsAlnum(s: string) {
    |s| > 0 && forall i :: 0 <= i < |s| ==> IsAlnumChar(s[i])
  }

  /** A name the entry field can hold: short enough, letters and digits only. */
  predicate NameOk(name: string) {
    |name| <= NAME_LIMIT && forall i :: 0 <= i < |name| ==> IsAlnumChar(name[i])
  }

  /** The state of the entry field. */
  datatype NameField = NameField(name: string, active: bool)

  /** What `handle_input_events` does with one event: the new field state,
      and whether the game should start. */
  function EntryStep(f: NameField, rect: Rect, e: Event): (r: (NameField, bool))
    // Only RETURN while the field is active starts the game, and it deactivates the field.
    ensures r.1 <==> f.active && e.KeyDown? && e.key == Return
    ensures r.1 ==> r.0 == NameField(f.name, false)
    // A click activates the field exactly when it lands inside it.
    ensures e.MouseDown? ==> r.0 == NameField(f.name, rect.ContainsPoint(e.x, e.y))
    ensures e.OtherEvent? ==> r.0 == f
    // While inactive, a key only matters if it is TAB, which activates the field.
    ensures e.KeyDown? && !f.active ==> r.0 == NameField(f.name, e.key == Tab)
    // BACKSPACE removes the last character, if there is one.
    ensures e.KeyDown? && f.active && e.key == Backspace ==>
              r.0.active && r.0.name == if f.name == [] then [] else f.name[..|f.name| - 1]
    // Any other key appends what it types, when that is alphanumeric and the name has room.
    ensures e.KeyDown? && f.active && e.key != Return && e.key != Backspace ==>
              && r.0.active
              && (if |f.name| < NAME_LIMIT && IsAlnum(e.text) then r.0.name == f.name + e.text
                  else r.0.name == f.name)
    // A valid name stays valid when keystrokes type at most one character.
    ensures NameOk(f.name) && (e.KeyDown? ==> |e.text| <= 1) ==> NameOk(r.0.name)
  {
    match e
    case KeyDown(key, text) =>
      if f.active then
        if key == Return then (NameField(f.name, false), true)
        else if key == Backspace then
          (NameField(if f.name == [] then [] else f.name[..|f.name| - 1], true), false)
        else if |f.name| < NAME_LIMIT && IsAlnum(text) then (NameField(f.name + text, true), false)
        else (f, false)
      else if key == Tab then (NameField(f.name, true), false)
      else (f, false)
    case MouseDown(x, y) => (NameField(f.name, rect.ContainsPoint(x, y)), false)
    case OtherEvent => (f, false)
  }

  /** The field after a whole sequence of events. */
  function EntryRun(f: NameField, rect: Rect, events: seq<Event>): NameField
    decreases |events|
  {
    if events == [] then f else EntryRun(EntryStep(f, rect, events[0]).0, rect, events[1..])
  }

  /** Every key event types at most one character, as pygame 2 delivers them. */
  predicate SingleKeystrokes(events: seq<Event>) {
    forall i :: 0 <= i < |events| && events[i].KeyDown? ==> |events[i].text| <= 1
  }

  /** However the player types, clicks or deletes, the name stays at most 15
      letters and digits. */
  lemma {:induction false} NameStaysValid(f: NameField, rect: Rect, events: seq<Event>)
    requires NameOk(f.name) && SingleKeystrokes(events)
    ensures NameOk(EntryRun(f, rect, events).name)
    decreases |events|
  {
    if events != [] {
      var g := EntryStep(f, rect, events[0]).0;
      assert SingleKeystrokes(events[1..]) by {
        forall i | 0 <= i < |events| - 1 && events[1..][i].KeyDown? ensures |events[1..][i].text| <= 1 {
          assert events[1..][i] == events[i + 1];
        }
      }
      NameStaysValid(g, rect, events[1..]);
    }
  }

  /** A name only grows by typing into the active field: while the field is
      inactive and no click or TAB reaches it, key events leave it alone. */
  lemma {:induction false} InactiveFieldIgnoresTyping(f: NameField, rect: Rect, events: seq<Event>)
    requires !f.active
    requires forall i :: 0 <= i < |events| ==> events[i].KeyDown? && events[i].key != Tab
    ensures EntryRun(f, rect, events) == f
    decreases |events|
  {
    if events != [] {
      assert EntryStep(f, rect, events[0]).0 == f;
      InactiveFieldIgnoresTyping(f, rect, events[1..]);
    }
  }

  /** The part of `UIManager` that changes: the name being typed and whether
      the entry field has the focus. */
  class UiManager {
    var playerName: string
    var inputActive: bool
    const inputRect: Rect

    constructor ()
      ensures playerName == "" && !inputActive && inputRect == INPUT_RECT
    {
      playerName := "";
      inputActive := false;
      inputRect := INPUT_RECT;
    }

    function Field(): NameField
      reads this
    {
      NameField(playerName, inputActive)
    }

    /** `handle_input_events`: returns true when the player asks to start. */
    method HandleInputEvents(e: Event) returns (start: bool)
      modifies this
      ensures (Field(), start) == EntryStep(old(Field()), inputRect, e)
    {
      start := false;
      if e.KeyDown? {
        if inputActive {
          if e.key == Return {
            inputActive := false;
            return true;
          } else if e.key == Backspace {
            playerName := if playerName == [] then [] else playerName[..|playerName| - 1];
          } else {
            if |playerName| < NAME_LIMIT && IsAlnum(e.text) {
              playerName := playerName + e.text;
            }
          }
        } else if e.key == Tab {
          inputActive := true;
        }
      } else if e.MouseDown? {
        if inputRect.ContainsPoint(e.x, e.y) {
          inputActive := true;
        } else {
          inputActive := false;
        }
      }
      return false;
    }
  }

  // ---------------------------------------------------------------------
  // Recent history on the menu

  datatype Option<T> = None | Some(value: T)

  /** One history record as a dictionary: any field may be missing. */
  datatype HistoryEntry = HistoryEntry(
    name: Option<string>, score: Option<int>, result: Option<string>, durationMs: Option<int>)

  function Reverse<T>(s: seq<T>): (r: seq<T>)
    ensures |r| == |s|
    ensures forall i :: 0 <= i < |s| ==> r[i] == s[|s| - 1 - i]
  {
    if s == [] then [] else Reverse(s[1..]) + [s[0]]
  }

  /** `last_history[-3:][::-1]`: the last three entries, newest first. */
  function RecentFirst(history: seq<HistoryEntry>): (r: seq<HistoryEntry>)
    ensures |r| == if |history| < MAX_HISTORY then |history| else MAX_HISTORY
    ensures forall i :: 0 <= i < |r| ==> r[i] == history[|history| - 1 - i]
  {
    var start := if |history| < MAX_HISTORY then 0 else |history| - MAX_HISTORY;
    Reverse(history[start..])
  }

  /** `max(0, int(duration_ms // 1000))`: whole seconds, never negative. */
  function Seconds(ms: int): (s: nat)
    ensures ms < 1000 ==> s == 0
    ensures ms >= 0 ==> s * 1000 <= ms < s * 1000 + 1000
  {
    if ms / 1000 > 0 then ms / 1000 else 0
  }

  /** The values one history line shows, missing fields replaced by their
      defaults. */
  datatype ShownEntry = ShownEntry(name: string, result: string, score: int, seconds: nat)

  function Shown(h: HistoryEntry): (v: ShownEntry)
    ensures v.name == (if h.name.Some? then h.name.value else "Unknown")
    ensures v.result == (if h.result.Some? then h.result.value else "n/a")
    ensures v.score == (if h.score.Some? then h.score.value else 0)
    ensures v.seconds == Seconds(if h.durationMs.Some? then h.durationMs.value else 0)
    ensures h.durationMs.None? ==> v.seconds == 0
  {
    ShownEntry(
      match h.name case Some(n) => n case None => "Unknown",
      match h.result case Some(r) => r case None => "n/a",
      match h.score case Some(p) => p case None => 0,
      Seconds(match h.durationMs case Some(d) => d case None => 0))
  }

  predicate IsDigit(c: char) { '0' <= c <= '9' }

  /** A numeral as `str` writes a natural number: decimal digits only, with
      no leading zero unless the number is zero itself. */
  predicate Numeral(s: string) {
    |s| >= 1 && (forall i :: 0 <= i < |s| ==> IsDigit(s[i])) && (|s| > 1 ==> s[0] != '0')
  }

  /** A numeral as `str` writes any integer: a `Numeral`, or a minus sign
      before a `Numeral` of a number that is not zero. */
  predicate SignedNumeral(s: string) {
    Numeral(s) || (|s| >= 2 && s[0] == '-' && Numeral(s[1..]) && s[1] != '0')
  }

  /** Decimal digits of `n`, no leading zero: Python's `str(n)`. */
  function NatText(n: nat): (s: string)
    ensures Numeral(s)
    ensures s[0] == '0' <==> n == 0
    decreases n
  {
    var d := [(n % 10) as char + '0'];
    if n < 10 then d else NatText(n / 10) + d
  }

  /** The value of a string of decimal digits. */
  function DigitsValue(s: string): nat
    decreases |s|
  {
    if s == [] then 0
    else DigitsValue(s[..|s| - 1]) * 10 + (if IsDigit(s[|s| - 1]) then (s[|s| - 1] - '0') as int else 0)
  }

  /** Reading the digits back gives the number. */
  lemma {:induction false} NatTextValue(n: nat)
    ensures DigitsValue(NatText(n)) == n
    decreases n
  {
    var s := NatText(n);
    if n >= 10 {
      NatTextValue(n / 10);
      assert s[..|s| - 1] == NatText(n / 10);
    }
  }

  /** Digits led by anything but a zero are worth at least one. */
  lemma {:induction false} LeadingDigitValue(s: string)
    requires |s| >= 1 && (forall i :: 0 <= i < |s| ==> IsDigit(s[i])) && s[0] != '0'
    ensures DigitsValue(s) >= 1
    decreases |s|
  {
    if |s| > 1 {
      LeadingDigitValue(s[..|s| - 1]);
    }
  }

  /** A numeral is the only one for its value: it is what `str` writes. */
  lemma {:induction false} NumeralIsNatText(s: string)
    requires Numeral(s)
    ensures NatText(DigitsValue(s)) == s
    decreases |s|
  {
    var n := DigitsValue(s);
    var last := s[|s| - 1];
    assert n % 10 == (last - '0') as int;
    if |s| > 1 {
      var front := s[..|s| - 1];
      LeadingDigitValue(front);
      NumeralIsNatText(front);
      assert n / 10 == DigitsValue(front);
      assert s == front + [last];
    }
  }

  /** The value of a decimal numeral with an optional leading minus sign. */
  function SignedValue(s: string): int {
    if |s| > 0 && s[0] == '-' then -(DigitsValue(s[1..]) as int) else DigitsValue(s)
  }

  /** `str(i)` for any integer: reading it back gives `i`, it is written the
      way `str` writes numbers, and it starts with a minus sign exactly when
      `i` is negative. */
  function IntText(i: int): (s: string)
    ensures (i < 0) == (|s| > 0 && s[0] == '-')
    ensures SignedNumeral(s)
    ensures SignedValue(s) == i
  {
    if i < 0 then
      var digits := NatText(-i);
      NatTextValue(-i);
      assert ("-" + digits)[1..] == digits;
      "-" + digits
    else
      NatTextValue(i);
      NatText(i)
  }

  /** Any integer numeral written the way `str` writes them is `IntText` of
      its value, so the contract of `IntText` fixes its text. */
  lemma SignedNumeralIsIntText(s: string)
    requires SignedNumeral(s)
    ensures IntText(SignedValue(s)) == s
  {
    if s[0] == '-' {
      var digits := s[1..];
      NumeralIsNatText(digits);
      LeadingDigitValue(digits);
      assert s == "-" + digits;
    } else {
      NumeralIsNatText(s);
    }
  }

  /** f"{name} - {result} - score {score} - {duration_s}s": the name and the
      result verbatim, then the score and the seconds as `str` writes them. */
  function LineText(v: ShownEntry): (line: string)
    ensures exists score, secs ::
              && line == v.name + " - " + v.result + " - score " + score + " - " + secs + "s"
              && SignedNumeral(score) && SignedValue(score) == v.score
              && Numeral(secs) && DigitsValue(secs) == v.seconds
  {
    var score := IntText(v.score);
    var secs := NatText(v.seconds);
    NatTextValue(v.seconds);
    v.name + " - " + v.result + " - score " + score + " - " + secs + "s"
  }

  /** The history lines under "Last 3 games:", top to bottom; none at all
      when there is no history. */
  function MenuHistory(history: seq<HistoryEntry>): (lines: seq<string>)
    ensures |lines| == if |history| < MAX_HISTORY then |history| else MAX_HISTORY
    ensures history == [] <==> lines == []
    ensures forall i :: 0 <= i < |lines| ==> lines[i] == LineText(Shown(history[|history| - 1 - i]))
  {
    var recent := RecentFirst(history);
    seq(|recent|, i requires 0 <= i < |recent| => LineText(Shown(recent[i])))
  }
}
