// The boundary the core draws on: colours, the draw commands a screen issues
// and the pixel sink (`DrawTarget`) that records them or reports an error.

module Graphics {

  /** An unsigned byte (`u8`). */
  type u8 = x: int | 0 <= x < 256

  /** A display dimension; a real panel is never zero-sized. */
  type Dim = n: nat | n > 0 witness 1

  /** `Rgb888`. */
  datatype Colour = Rgb(r: u8, g: u8, b: u8)

  const BLACK: Colour := Rgb(0, 0, 0)
  const WHITE: Colour := Rgb(255, 255, 255)
  const RED: Colour := Rgb(255, 0, 0)
  const GREEN: Colour := Rgb(0, 255, 0)
  const BLUE: Colour := Rgb(0, 0, 255)
  const YELLOW: Colour := Rgb(255, 255, 0)
  const MAGENTA: Colour := Rgb(255, 0, 255)
  const CSS_ORANGE: Colour := Rgb(255, 165, 0)
  const CSS_VIOLET: Colour := Rgb(238, 130, 238)

  /** An axis-aligned rectangle: top-left corner and size. */
  datatype Rect = Rect(x: int, y: int, width: nat, height: nat)
  {
    predicate IsZeroSized() { width == 0 || height == 0 }
  }

  /** An f32 temperature reading; its value and formatting are not modelled. */
  datatype Temperature = Temperature(raw: int)

  /** The two colours a monochrome raster is recoloured to: (for zero, for nonzero). */
  datatype Recolour = Recolour(zero: Colour, nonzero: Colour)

  /** One draw call made on the sink. Font rasterisation and layout are the
      sink's business: a text command records what is drawn and where. */
  datatype Command =
    | Clear(colour: Colour)
    | FillRect(area: Rect, colour: Colour)
    | FillContiguous(area: Rect, pixels: seq<Colour>)
    | TextCentered(text: string, colour: Colour)
    | TextAt(text: string, x: int, colour: Colour)
    | EnvironmentLayout(iconWidth: nat, iconColours: Recolour, co2: nat, co2Colour: Colour, temp: Temperature)

  datatype Status = Ok | Err

  /** The pixel sink: its size, the commands it has accepted so far, and how
      many more commands it accepts before it reports an error. */
  datatype Target = Target(width: Dim, height: Dim, drawn: seq<Command>, accepts: nat)

  datatype Issued = Issued(target: Target, status: Status)

  /** Issue one command: it is recorded if the sink still accepts commands,
      otherwise the sink is left as it was and the call fails. */
  function Issue(t: Target, c: Command): (r: Issued)
    ensures r.target.width == t.width && r.target.height == t.height
    ensures r.status == Ok <==> t.accepts > 0
    ensures r.status == Ok ==> r.target.drawn == t.drawn + [c] && r.target.accepts == t.accepts - 1
    ensures r.status == Err ==> r.target == t
  {
    if t.accepts > 0 then Issued(t.(drawn := t.drawn + [c], accepts := t.accepts - 1), Ok)
    else Issued(t, Err)
  }

  /** `display.clear(Rgb888::BLACK)`. */
  function ClearBlack(t: Target): (r: Issued)
    ensures r.status == Ok ==> r.target.drawn == t.drawn + [Clear(BLACK)]
    ensures r.status == Err ==> r.target == t
  {
    Issue(t, Clear(BLACK))
  }
}
