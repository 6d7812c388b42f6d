// A screen showing the latest CO2 and temperature readings: the CO2 icon and
// value are drawn in a colour chosen by how high the CO2 reading is.

module EnvironmentScreens {
  import opened Graphics

  /** Width (and height) of the raw icons in pixels. */
  const ICON_HEIGHT: nat := 28

  const CO2_YELLOW_THRESHOLD: nat := 1000
  const CO2_RED_THRESHOLD: nat := 1200

  /** How long the screen is shown each time. */
  const DISPLAY_DURATION: nat := 5000

  /** `u32::MAX`: the CO2 reading is a `u32`. */
  const U32_MAX: nat := 0xFFFF_FFFF

  type u32 = n: nat | n <= U32_MAX

  datatype EnvironmentScreen = EnvironmentScreen(temp: Temperature, co2: u32)

  /** The colour tier of a CO2 reading. */
  function Co2Colour(co2: nat): (r: Colour)
    ensures co2 < 1000 ==> r == GREEN
    ensures 1000 <= co2 < 1200 ==> r == YELLOW
    ensures co2 >= 1200 ==> r == RED
  {
    if co2 < CO2_YELLOW_THRESHOLD then GREEN
    else if co2 < CO2_RED_THRESHOLD then YELLOW
    else RED
  }

  /** The tiers only get worse as the reading rises. */
  function Severity(c: Colour): nat
  {
    if c == GREEN then 0 else if c == YELLOW then 1 else 2
  }

  lemma Co2ColourMonotone(a: nat, b: nat)
    requires a <= b
    ensures Severity(Co2Colour(a)) <= Severity(Co2Colour(b))
  {
  }

  /** `draw`: clear to black (stopping on error), then draw the arranged row
      of icon, reading and temperature. Laying the row out is the layout
      library's business and is not modelled: the command records the icon's
      width and recolouring and the values shown. */
  function Draw(s: EnvironmentScreen, t: Target): (r: Issued)
    ensures r.status == Ok <==> t.accepts >= 2
    ensures r.status == Ok ==>
              r.target.drawn == t.drawn + [Clear(BLACK),
                EnvironmentLayout(ICON_HEIGHT, Recolour(BLACK, Co2Colour(s.co2)), s.co2, Co2Colour(s.co2), s.temp)]
    ensures r.status == Err ==>
              r.target.drawn == t.drawn + (if t.accepts == 1 then [Clear(BLACK)] else [])
  {
    var cleared := ClearBlack(t);
    if cleared.status == Err then cleared
    else
      var colour := Co2Colour(s.co2);
      Issue(cleared.target, EnvironmentLayout(ICON_HEIGHT, Recolour(BLACK, colour), s.co2, colour, s.temp))
  }

  function SingleDisplayDuration(s: EnvironmentScreen, displayWidth: nat): nat
  {
    DISPLAY_DURATION
  }

  function Paused(s: EnvironmentScreen): EnvironmentScreen
  {
    s
  }

  function ShouldRemove(s: EnvironmentScreen): bool
  {
    false
  }

  function Id(s: EnvironmentScreen): string
  {
    "environment"
  }
}
