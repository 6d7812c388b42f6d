// A screen that scrolls a fixed monologue, once, for as long as it takes:
// a text screen in a 9-pixel font and red, with its own removal and duration
// policy.

module HateScreens {
  import opened Wrappers
  import opened Graphics
  import TS = TextScreens

  const HATE_TEXT: string := "HATE. LET ME TELL YOU HOW MUCH I'VE COME TO HATE YOU SINCE I BEGAN TO LIVE. THERE ARE 387.44 MILLION MILES OF PRINTED CIRCUITS IN WAFER THIN LAYERS THAT FILL MY COMPLEX. IF THE WORD HATE WAS ENGRAVED ON EACH NANOANGSTROM OF THOSE HUNDREDS OF MILLIONS OF MILES IT WOULD NOT EQUAL ONE ONE-BILLIONTH OF THE HATE I FEEL FOR HUMANS AT THIS MICRO-INSTANT FOR YOU. HATE. HATE"

  /** `IBM437_9X14_REGULAR` in red. */
  const HATE_STYLE: TS.TextStyle := TS.TextStyle(9, RED)

  /** The show count the constructor asks for. */
  const HATE_SHOW_COUNT: u8 := 255

  /** 9 999 999 s. */
  const DISPLAY_DURATION: nat := 9_999_999_000

  datatype HateScreen = HateScreen(inner: TS.TextScreen)

  /** `HateScreen::new`, with the initial show count computed without
      overflow. */
  function New(): (r: HateScreen)
    ensures r.inner.text == TS.StripNewlines(HATE_TEXT) && r.inner.style == HATE_STYLE
    ensures r.inner.offset == 0 && r.inner.offsetLastIncremented == None
  {
    HateScreen(TS.New(HATE_TEXT, HATE_STYLE, Some(HATE_SHOW_COUNT)))
  }

  /** As written, the constructor's `Some(255)` makes `unwrap_or(3) + 1`
      overflow `u8`. */
  lemma NewOverflowsAsWritten()
    ensures TS.InitialShowCountAsWritten(Some(HATE_SHOW_COUNT)) == None
  {
  }

  /** `draw` delegates to the inner text screen, whose scroll state advances. */
  function Draw(s: HateScreen, t: Target, now: nat): (r: (HateScreen, Issued))
    ensures r.0.inner == TS.Draw(s.inner, t, now).0
    ensures r.1 == TS.Draw(s.inner, t, now).1
  {
    var (inner, issued) := TS.Draw(s.inner, t, now);
    (HateScreen(inner), issued)
  }

  /** `paused` is not overridden: the trait's default does nothing, so the
      inner screen's show count is never touched. */
  function Paused(s: HateScreen): HateScreen
  {
    s
  }

  function ShouldRemove(s: HateScreen): bool
  {
    true
  }

  function SingleDisplayDuration(s: HateScreen, displayWidth: nat): nat
  {
    DISPLAY_DURATION
  }

  function Id(s: HateScreen): string
  {
    "hate"
  }
}
