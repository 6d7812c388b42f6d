// A screen that shows one line of text: centred when it fits the display,
// otherwise scrolled from right to left, one column every 8 ms. It is shown a
// fixed number of times and then asks to be removed.
//
// Times are milliseconds. The fields the source updates in place are kept in
// the value `TextScreen`; the class `TextScreenObject` below performs the same
// updates in place and is proved to agree with the value form, which the
// scheduler keeps in its queue.

module TextScreens {
  import opened Wrappers
  import opened Graphics
  import Utf8

  /** Milliseconds between two scroll steps. */
  const OFFSET_INC_INTERVAL: nat := 8

  /** Extra scroll steps after the text has left the display: 250 ms / 8 ms,
      truncated. */
  const LEAD_IN: nat := 250 / OFFSET_INC_INTERVAL

  /** How long a text that fits is shown. */
  const STILL_DURATION: nat := 5000

  /** How many times a text is shown when the caller does not say. */
  const DEFAULT_SHOW_COUNT: u8 := 3

  /** A monospaced font's character width and the text colour. */
  datatype TextStyle = TextStyle(charWidth: nat, colour: Colour)

  /** `FONT_10X20` in white. */
  const DEFAULT_STYLE: TextStyle := TextStyle(10, WHITE)

  datatype TextScreen = TextScreen(
    text: string,
    style: TextStyle,
    offset: nat,
    offsetLastIncremented: Option<nat>,
    showCount: u8)

  /** `text.replace("\n", "")`. */
  function StripNewlines(s: string): (r: string)
    ensures |r| <= |s|
  {
    if s == [] then []
    else if s[0] == '\n' then StripNewlines(s[1..])
    else [s[0]] + StripNewlines(s[1..])
  }

  /** The stripped text has no newline left and keeps every other character
      as often as it occurred. */
  lemma {:induction false} StripNewlinesRemovesOnlyNewlines(s: string)
    ensures '\n' !in StripNewlines(s)
    ensures forall c :: c != '\n' ==> multiset(StripNewlines(s))[c] == multiset(s)[c]
  {
    if s != [] {
      StripNewlinesRemovesOnlyNewlines(s[1..]);
      assert s == [s[0]] + s[1..];
    }
  }

  /** A text without newlines is kept as it is, in particular a stripped text:
      stripping twice is stripping once. */
  lemma {:induction false} StripNewlinesKeepsCleanText(s: string)
    requires '\n' !in s
    ensures StripNewlines(s) == s
  {
    if s != [] {
      assert s[1..] == s[1..];
      assert '\n' !in s[1..] by {
        forall k | 0 <= k < |s[1..]| ensures s[1..][k] != '\n' {
          assert s[1..][k] == s[k + 1];
        }
      }
      StripNewlinesKeepsCleanText(s[1..]);
    }
  }

  /** Stripping works piece by piece: the kept characters stay in order. */
  lemma {:induction false} StripNewlinesConcat(a: string, b: string)
    ensures StripNewlines(a + b) == StripNewlines(a) + StripNewlines(b)
  {
    if a == [] {
      assert a + b == b;
    } else {
      assert (a + b)[0] == a[0];
      assert (a + b)[1..] == a[1..] + b;
      StripNewlinesConcat(a[1..], b);
    }
  }

  /** `show_count.unwrap_or(3) + 1` as written: on `u8` the sum overflows
      for `Some(255)`, which is a panic (`None` here). */
  function InitialShowCountAsWritten(showCount: Option<u8>): (r: Option<u8>)
  {
    var n := showCount.GetOr(DEFAULT_SHOW_COUNT) as int + 1;
    if n < 256 then Some(n) else None
  }

  /** The panic is reachable: asking for 255 showings overflows. */
  lemma InitialShowCountOverflows()
    ensures InitialShowCountAsWritten(Some(255)) == None
  {
  }

  /** The initial count, one more than the requested number of showings,
      saturating at the top of `u8` instead of overflowing. */
  function InitialShowCount(showCount: Option<u8>): (r: u8)
    ensures showCount == None ==> r == DEFAULT_SHOW_COUNT + 1
    ensures showCount.Some? && showCount.value < 255 ==> r == showCount.value + 1
    ensures r > 0
  {
    var n := showCount.GetOr(DEFAULT_SHOW_COUNT);
    if n < 255 then n + 1 else 255
  }

  /** The saturating count agrees with the expression as written wherever
      that does not overflow. */
  lemma InitialShowCountAgrees(showCount: Option<u8>)
    ensures InitialShowCountAsWritten(showCount).Some? <==> showCount != Some(255)
    ensures InitialShowCountAsWritten(showCount).Some? ==>
              InitialShowCountAsWritten(showCount).value == InitialShowCount(showCount)
  {
  }

  /** `TextScreen::new`. */
  function New(text: string, style: TextStyle, showCount: Option<u8>): (r: TextScreen)
    ensures r.text == StripNewlines(text) && '\n' !in r.text
    ensures r.style == style
    ensures r.offset == 0 && r.offsetLastIncremented == None
    ensures r.showCount == InitialShowCount(showCount) && r.showCount > 0
    ensures showCount == None ==> r.showCount == 4
  {
    StripNewlinesRemovesOnlyNewlines(text);
    TextScreen(StripNewlines(text), style, 0, None, InitialShowCount(showCount))
  }

  /** `TextScreen::with_text`: white `FONT_10X20`. */
  function WithText(text: string, showCount: Option<u8>): (r: TextScreen)
    ensures r.style == DEFAULT_STYLE
  {
    New(text, DEFAULT_STYLE, showCount)
  }

  /** `text_total_width`: character width times the length in BYTES, so at
      least one character width per character. */
  function TotalWidth(s: TextScreen): (r: nat)
    ensures r == s.style.charWidth * Utf8.ByteLen(s.text)
    ensures r >= s.style.charWidth * |s.text|
  {
    Utf8.ByteLenAtLeastLength(s.text);
    MulMonotone(|s.text|, Utf8.ByteLen(s.text), s.style.charWidth);
    s.style.charWidth * Utf8.ByteLen(s.text)
  }


  /** For ASCII text the byte length is the character count. */
  lemma AsciiTotalWidth(s: TextScreen)
    requires forall k :: 0 <= k < |s.text| ==> s.text[k] < 128 as char
    ensures TotalWidth(s) == s.style.charWidth * |s.text|
  {
    AsciiByteLen(s.text);
  }

  lemma {:induction false} AsciiByteLen(t: string)
    requires forall k :: 0 <= k < |t| ==> t[k] < 128 as char
    ensures Utf8.ByteLen(t) == |t|
  {
    if t != [] {
      AsciiByteLen(t[1..]);
    }
  }

  /** Whether the text is wider than the display and so scrolls. */
  predicate Scrolls(s: TextScreen, displayWidth: nat)
  {
    TotalWidth(s) > displayWidth
  }

  /** `max_offset_for`: the number of scroll steps in one pass, or `None`
      when the text fits. */
  function MaxOffsetFor(s: TextScreen, displayWidth: nat): (r: Option<nat>)
    ensures r.Some? <==> Scrolls(s, displayWidth)
    ensures r.Some? ==> r.value == displayWidth + TotalWidth(s) + 31
    ensures r.Some? ==> r.value > 2 * displayWidth
  {
    if TotalWidth(s) <= displayWidth then None
    else Some(displayWidth + TotalWidth(s) + LEAD_IN)
  }

  /** `single_display_duration`: 5 s for text that fits, otherwise one whole
      pass of the scroll. */
  function SingleDisplayDuration(s: TextScreen, displayWidth: nat): (r: nat)
    ensures !Scrolls(s, displayWidth) ==> r == 5000
    ensures Scrolls(s, displayWidth) ==>
              r == MaxOffsetFor(s, displayWidth).value * OFFSET_INC_INTERVAL
  {
    match MaxOffsetFor(s, displayWidth)
    case Some(o) => o * OFFSET_INC_INTERVAL
    case None => STILL_DURATION
  }

  /** The scroll-offset update at the start of a scrolling `draw`. The first
      update only starts the clock; later ones advance by the number of whole
      intervals elapsed, wrapping at the maximum offset, and move the clock on
      by exactly those intervals so that the remainder is not lost. */
  function AdvanceScroll(s: TextScreen, displayWidth: nat, now: nat): (r: TextScreen)
    requires Scrolls(s, displayWidth)
    ensures r.text == s.text && r.style == s.style && r.showCount == s.showCount
    ensures r.offsetLastIncremented.Some?
  {
    match s.offsetLastIncremented
    case None => s.(offsetLastIncremented := Some(now))
    case Some(lastInc) =>
      var since := SatSub(now, lastInc);
      if since >= OFFSET_INC_INTERVAL then
        var n := since / OFFSET_INC_INTERVAL;
        s.(offset := (s.offset + n) % MaxOffsetFor(s, displayWidth).value,
           offsetLastIncremented := Some(now - (since - OFFSET_INC_INTERVAL * n)))
      else s
  }

  /** The update in closed form: the offset moves by the whole intervals
      elapsed since the last step, the clock by exactly that many intervals. */
  lemma AdvanceScrollSteps(s: TextScreen, displayWidth: nat, lastInc: nat, now: nat)
    requires Scrolls(s, displayWidth) && s.offsetLastIncremented == Some(lastInc)
    requires lastInc <= now
    ensures var n := (now - lastInc) / 8;
            var m := MaxOffsetFor(s, displayWidth).value;
            AdvanceScroll(s, displayWidth, now) ==
              s.(offset := if n == 0 then s.offset else (s.offset + n) % m,
                 offsetLastIncremented := Some(lastInc + 8 * n))
  {
  }

  /** The invariant of a text screen on a display of the given width: while
      it scrolls, its offset is a valid scroll position. */
  ghost predicate OffsetInRange(s: TextScreen, displayWidth: nat)
  {
    Scrolls(s, displayWidth) ==> s.offset < MaxOffsetFor(s, displayWidth).value
  }

  lemma NewOffsetInRange(text: string, style: TextStyle, showCount: Option<u8>, displayWidth: nat)
    ensures OffsetInRange(New(text, style, showCount), displayWidth)
  {
  }

  /** The offset stays in `[0, max_offset)` across scroll updates. */
  lemma AdvanceScrollInRange(s: TextScreen, displayWidth: nat, now: nat)
    requires Scrolls(s, displayWidth) && OffsetInRange(s, displayWidth)
    ensures AdvanceScroll(s, displayWidth, now).offset < MaxOffsetFor(s, displayWidth).value
  {
  }

  lemma ModAddLeft(a: nat, b: nat, m: nat)
    requires m > 0
    ensures ((a % m) + b) % m == (a + b) % m
  {
    var q := a / m;
    assert a == q * m + a % m;
    ModShift(q, a % m + b, m);
  }

  lemma {:induction false} ModShift(q: nat, x: nat, m: nat)
    requires m > 0
    ensures (q * m + x) % m == x % m
  {
    if q > 0 {
      ModShift(q - 1, x, m);
      var y := (q - 1) * m + x;
      assert q * m + x == y + m;
      ModAddModulus(y, m);
    }
  }

  lemma ModAddModulus(y: nat, m: nat)
    requires m > 0
    ensures (y + m) % m == y % m
  {
    var k := (y + m) / m - y / m - 1;
    assert k * m == y % m - (y + m) % m;
  }

  /** Catching up: updating at t1 and again at t2 ends in the same state as a
      single update at t2, because the clock only moves by whole intervals. */
  lemma AdvanceScrollCatchUp(s: TextScreen, displayWidth: nat, lastInc: nat, t1: nat, t2: nat)
    requires Scrolls(s, displayWidth) && s.offsetLastIncremented == Some(lastInc)
    requires lastInc <= t1 <= t2
    ensures AdvanceScroll(AdvanceScroll(s, displayWidth, t1), displayWidth, t2) ==
            AdvanceScroll(s, displayWidth, t2)
  {
    var m := MaxOffsetFor(s, displayWidth).value;
    var n1 := (t1 - lastInc) / 8;
    var s1 := AdvanceScroll(s, displayWidth, t1);
    AdvanceScrollSteps(s, displayWidth, lastInc, t1);
    var last1 := lastInc + 8 * n1;
    assert s1.offsetLastIncremented == Some(last1);
    assert MaxOffsetFor(s1, displayWidth) == MaxOffsetFor(s, displayWidth);
    AdvanceScrollSteps(s1, displayWidth, last1, t2);
    AdvanceScrollSteps(s, displayWidth, lastInc, t2);
    var n2 := (t2 - last1) / 8;
    assert (t2 - lastInc) / 8 == n1 + n2;
    if n1 > 0 && n2 > 0 {
      ModAddLeft(s.offset + n1, n2, m);
    }
  }

  /** One whole pass: a single display duration after the last step, the
      offset is back where it was. */
  lemma ScrollPassReturns(s: TextScreen, displayWidth: nat, lastInc: nat)
    requires Scrolls(s, displayWidth) && OffsetInRange(s, displayWidth)
    requires s.offsetLastIncremented == Some(lastInc)
    ensures var r := AdvanceScroll(s, displayWidth, lastInc + SingleDisplayDuration(s, displayWidth));
            r.offset == s.offset &&
            r.offsetLastIncremented == Some(lastInc + SingleDisplayDuration(s, displayWidth))
  {
    var m := MaxOffsetFor(s, displayWidth).value;
    AdvanceScrollSteps(s, displayWidth, lastInc, lastInc + m * 8);
    WholePass(m, s.offset);
  }

  lemma WholePass(m: nat, offset: nat)
    requires offset < m
    ensures (m * 8) / 8 == m
    ensures (offset + m) % m == offset
  {
    ModAddModulus(offset, m);
  }

  /** `draw`: update the scroll state when scrolling, clear the display, then
      draw the text centred or at `bottom_right.x - offset`. The updated screen
      is returned with the sink, whether or not a draw call fails. */
  function Draw(s: TextScreen, t: Target, now: nat): (r: (TextScreen, Issued))
    ensures r.0.text == s.text && r.0.style == s.style && r.0.showCount == s.showCount
    ensures !Scrolls(s, t.width) ==> r.0 == s
    ensures Scrolls(s, t.width) ==> r.0 == AdvanceScroll(s, t.width, now)
    ensures r.1.status == Ok <==> t.accepts >= 2
    ensures r.1.status == Ok ==>
              r.1.target.drawn == t.drawn + [Clear(BLACK),
                if Scrolls(s, t.width) then TextAt(s.text, t.width - 1 - r.0.offset, s.style.colour)
                else TextCentered(s.text, s.style.colour)]
    ensures r.1.status == Err ==>
              r.1.target.drawn == t.drawn + (if t.accepts == 1 then [Clear(BLACK)] else [])
  {
    var s' := if Scrolls(s, t.width) then AdvanceScroll(s, t.width, now) else s;
    var cleared := ClearBlack(t);
    if cleared.status == Err then (s', cleared)
    else
      var text := if Scrolls(s, t.width) then TextAt(s'.text, t.width - 1 - s'.offset, s'.style.colour)
                  else TextCentered(s'.text, s'.style.colour);
      (s', Issue(cleared.target, text))
  }

  /** `paused`: stop the scroll clock and count one showing down. */
  function Paused(s: TextScreen): (r: TextScreen)
    ensures r.text == s.text && r.style == s.style && r.offset == s.offset
    ensures r.offsetLastIncremented == None
    ensures s.showCount > 0 ==> r.showCount == s.showCount - 1
    ensures s.showCount == 0 ==> r.showCount == 0
  {
    s.(offsetLastIncremented := None, showCount := SatSub(s.showCount, 1))
  }

  function ShouldRemove(s: TextScreen): bool
  {
    s.showCount == 0
  }

  function Id(s: TextScreen): string
  {
    "text"
  }

  /** The screen after `k` pauses. */
  function PausedTimes(s: TextScreen, k: nat): TextScreen
  {
    if k == 0 then s else Paused(PausedTimes(s, k - 1))
  }

  lemma {:induction false} PausedTimesCount(s: TextScreen, k: nat)
    ensures PausedTimes(s, k).showCount == SatSub(s.showCount, k)
    ensures PausedTimes(s, k).text == s.text && PausedTimes(s, k).offset == s.offset
  {
    if k > 0 {
      PausedTimesCount(s, k - 1);
    }
  }

  /** Pausing after each showing and then asking whether to remove, a screen
      built with the default count asks for removal for the first time after
      its fourth showing. */
  lemma DefaultShownFourTimes(text: string, style: TextStyle, k: nat)
    ensures ShouldRemove(PausedTimes(New(text, style, None), k)) <==> k >= 4
  {
    PausedTimesCount(New(text, style, None), k);
  }

  /** In general a screen built for `n` showings (`n < 255`) is removed after
      exactly `n + 1` pauses. */
  lemma ShownCountPlusOneTimes(text: string, style: TextStyle, n: u8, k: nat)
    requires n < 255
    ensures ShouldRemove(PausedTimes(New(text, style, Some(n)), k)) <==> k >= n + 1
  {
    PausedTimesCount(New(text, style, Some(n)), k);
  }
}

// The same screen as an object whose `draw` and `paused` update its fields in
// place, as the source does.
module TextScreenObjects {
  import opened Wrappers
  import opened Graphics
  import TS = TextScreens

  class TextScreenObject {
    var text: string
    var style: TS.TextStyle
    var offset: nat
    var offsetLastIncremented: Option<nat>
    var showCount: u8

    function Value(): TS.TextScreen
      reads this
    {
      TS.TextScreen(text, style, offset, offsetLastIncremented, showCount)
    }

    constructor(text: string, style: TS.TextStyle, showCount: Option<u8>)
      ensures Value() == TS.New(text, style, showCount)
    {
      this.text := TS.StripNewlines(text);
      this.style := style;
      this.offset := 0;
      this.offsetLastIncremented := None;
      this.showCount := TS.InitialShowCount(showCount);
    }

    method Draw(t: Target, now: nat) returns (r: Issued)
      modifies this
      ensures (Value(), r) == TS.Draw(old(Value()), t, now)
    {
      var position: Option<int>;
      if TS.TotalWidth(Value()) <= t.width {
        position := None;
      } else {
        match offsetLastIncremented {
          case Some(lastInc) =>
            var since := SatSub(now, lastInc);
            if since >= TS.OFFSET_INC_INTERVAL {
              var n := since / TS.OFFSET_INC_INTERVAL;
              offset := (offset + n) % TS.MaxOffsetFor(Value(), t.width).value;
              offsetLastIncremented := Some(now - (since - TS.OFFSET_INC_INTERVAL * n));
            }
          case None =>
            offsetLastIncremented := Some(now);
        }
        position := Some(t.width - 1 - offset);
      }
      r := ClearBlack(t);
      if r.status == Err {
        return;
      }
      match position {
        case None => r := Issue(r.target, TextCentered(text, style.colour));
        case Some(x) => r := Issue(r.target, TextAt(text, x, style.colour));
      }
    }

    method Paused(forDur: nat)
      modifies this
      ensures Value() == TS.Paused(old(Value()))
    {
      offsetLastIncremented := None;
      showCount := SatSub(showCount, 1);
    }
  }
}
