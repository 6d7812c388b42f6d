// The screens the scheduler rotates through, and the colour-band test pattern.
//
// A screen answers the scheduler's questions: how long it wants to be shown
// on a display of a given width, what happens when it is paused, whether it
// then wants to be removed, its id, and how it draws a frame.

module Screens {
  import opened Wrappers
  import opened Graphics
  import TS = TextScreens
  import ES = EnvironmentScreens
  import HS = HateScreens

  datatype Screen =
    | Text(text: TS.TextScreen)
    | Environment(env: ES.EnvironmentScreen)
    | Hate(hate: HS.HateScreen)

  function Id(s: Screen): (r: string)
    ensures s.Text? <==> r == "text"
    ensures s.Environment? <==> r == "environment"
    ensures s.Hate? <==> r == "hate"
  {
    match s
    case Text(t) => TS.Id(t)
    case Environment(e) => ES.Id(e)
    case Hate(h) => HS.Id(h)
  }

  /** How long the screen is shown each time, in milliseconds. */
  function SingleDisplayDuration(s: Screen, displayWidth: nat): (r: nat)
    ensures s.Environment? ==> r == 5000
    ensures s.Hate? ==> r == 9_999_999_000
    ensures s.Text? ==> r == TS.SingleDisplayDuration(s.text, displayWidth)
  {
    match s
    case Text(t) => TS.SingleDisplayDuration(t, displayWidth)
    case Environment(e) => ES.SingleDisplayDuration(e, displayWidth)
    case Hate(h) => HS.SingleDisplayDuration(h, displayWidth)
  }

  /** `paused(for_dur)`: no screen looks at how long it was shown. */
  function Paused(s: Screen, forDur: nat): (r: Screen)
    ensures Id(r) == Id(s)
    ensures !s.Text? ==> r == s
    ensures s.Text? ==> r == Text(TS.Paused(s.text))
  {
    match s
    case Text(t) => Text(TS.Paused(t))
    case Environment(e) => Environment(ES.Paused(e))
    case Hate(h) => Hate(HS.Paused(h))
  }

  function ShouldRemove(s: Screen): (r: bool)
    ensures s.Environment? ==> !r
    ensures s.Hate? ==> r
    ensures s.Text? ==> (r <==> s.text.showCount == 0)
  {
    match s
    case Text(t) => TS.ShouldRemove(t)
    case Environment(e) => ES.ShouldRemove(e)
    case Hate(h) => HS.ShouldRemove(h)
  }

  /** Draw one frame; a text screen's scroll state moves on. */
  function Draw(s: Screen, t: Target, now: nat): (r: (Screen, Issued))
    ensures Id(r.0) == Id(s)
    ensures r.1.target.width == t.width && r.1.target.height == t.height
    ensures r.1.status == Ok <==> t.accepts >= 2
    ensures |r.1.target.drawn| >= |t.drawn| && r.1.target.drawn[..|t.drawn|] == t.drawn
    ensures s.Text? ==> r == (Text(TS.Draw(s.text, t, now).0), TS.Draw(s.text, t, now).1)
    ensures s.Environment? ==> r == (s, ES.Draw(s.env, t))
    ensures s.Hate? ==> r == (Hate(HS.Draw(s.hate, t, now).0), HS.Draw(s.hate, t, now).1)
  {
    match s
    case Text(ts) =>
      var (ts', issued) := TS.Draw(ts, t, now);
      (Text(ts'), issued)
    case Environment(e) => (s, ES.Draw(e, t))
    case Hate(h) =>
      var (h', issued) := HS.Draw(h, t, now);
      (Hate(h'), issued)
  }

  /** An environment screen is rotated forever: pausing it changes nothing
      and it never asks to be removed. */
  lemma EnvironmentNeverRemoved(e: ES.EnvironmentScreen, forDur: nat)
    ensures Paused(Environment(e), forDur) == Environment(e)
    ensures !ShouldRemove(Paused(Environment(e), forDur))
  {
  }

  /** A hate screen is removed after its first showing and its inner text
      screen's count is never used. */
  lemma HateRemovedAfterOneShowing(h: HS.HateScreen, forDur: nat)
    ensures Paused(Hate(h), forDur) == Hate(h)
    ensures ShouldRemove(Paused(Hate(h), forDur))
  {
  }

  // The test pattern: six vertical bands, one per colour, across the display.

  const COLOURS: seq<Colour> := [RED, CSS_ORANGE, YELLOW, GREEN, BLUE, CSS_VIOLET]

  /** Width of one band: the display's column count over the number of
      colours, rounded down. */
  function SquareSize(width: nat): (r: nat)
    ensures r * |COLOURS| <= width < (r + 1) * |COLOURS|
  {
    width / |COLOURS|
  }

  /** Band `k`: starting at column `k * square_size`, spanning every row.
      The bands tile the left `6 * square_size` columns without overlap:
      band k ends where band k + 1 starts, and the last ends inside the
      display. */
  function Band(k: nat, t: Target): (r: Command)
    requires k < |COLOURS|
    ensures r.FillRect? && r.colour == COLOURS[k]
    ensures r.area == Rect(k * SquareSize(t.width), 0, SquareSize(t.width), t.height)
    ensures r.area.x + r.area.width == (k + 1) * SquareSize(t.width) <= t.width
  {
    var sq := SquareSize(t.width);
    assert (k + 1) * sq <= 6 * sq by {
      MulMonotone(k + 1, 6, sq);
    }
    FillRect(Rect(k * sq, 0, sq, t.height), COLOURS[k])
  }


  /** The six commands of the test pattern. */
  function Bands(t: Target, n: nat): (r: seq<Command>)
    requires n <= |COLOURS|
    ensures |r| == n
    ensures forall k :: 0 <= k < n ==> r[k] == Band(k, t)
  {
    if n == 0 then [] else Bands(t, n - 1) + [Band(n - 1, t)]
  }

  /** `TestScreen::draw`: walk the columns in steps of `square_size`, zipped
      with the colours, drawing one band per step and stopping at the first
      failing draw. A display narrower than six columns makes the step zero,
      which panics, hence the precondition. Every colour gets its band. */
  method DrawTestScreen(t: Target) returns (r: Issued)
    requires t.width >= |COLOURS|
    ensures r.target.width == t.width && r.target.height == t.height
    ensures r.status == Ok <==> t.accepts >= |COLOURS|
    ensures r.target.drawn == t.drawn + Bands(t, Min(t.accepts, |COLOURS|))
  {
    var squareSize := SquareSize(t.width);
    var startCol := 0;
    var k := 0;
    r := Issued(t, Ok);
    while startCol < t.width && k < |COLOURS|
      invariant 0 <= k <= |COLOURS| && startCol == k * squareSize
      invariant k <= t.accepts
      invariant r == Issued(t.(drawn := t.drawn + Bands(t, k), accepts := t.accepts - k), Ok)
      invariant k < |COLOURS| ==> startCol < t.width
    {
      var cmd := FillRect(Rect(startCol, 0, squareSize, t.height), COLOURS[k]);
      assert cmd == Band(k, t);
      r := Issue(r.target, cmd);
      if r.status == Err {
        return;
      }
      startCol := startCol + squareSize;
      k := k + 1;
      if k < |COLOURS| {
        assert startCol < t.width by {
          MulMonotone(k, 5, squareSize);
        }
      }
    }
  }
}
