// The message handler: each message received on the bus may change the text
// colour, the latest CO2 and temperature readings or the sleep flag, and may
// send screens and screen deletions to the display multiplexer.
//
// The network connection and its event loop are not part of this model: a
// message arrives as a topic and a payload of bytes. Parsing an `f32`
// temperature is left to the caller, which passes the parsed value (or
// `None` when the payload is not a number).

module MqttListeners {
  import opened Wrappers
  import opened Graphics
  import Utf8
  import TS = TextScreens
  import ES = EnvironmentScreens
  import opened Screens
  import DisplayLogics

  const TEXT_COLOUR_TOPIC: string := "display/g1/windowled/colour"
  const TEXT_TOPIC: string := "display/g1/windowled/text"
  const TEMP_TOPIC: string := "sensor/g1/temperature"
  const CO2_TOPIC: string := "environment/g1/elsys/co2"
  const GLOBAL_PRESENCE_TOPIC: string := "sensor/global/presence"

  /** The presence payload that puts the display to sleep. */
  const EMPTY: string := "empty"

  /** The text topic's font: `FONT_10X20`, 10 pixels per character. */
  const TEXT_CHAR_WIDTH: nat := 10

  // Decimal numbers, as `u8::from_str` and `u32::from_str` read them.

  predicate IsDigit(c: char) { '0' <= c <= '9' }

  predicate AllDigits(s: string)
  {
    forall k :: 0 <= k < |s| ==> IsDigit(s[k])
  }

  /** The value of a string of decimal digits. */
  function DigitsValue(s: string): nat
    requires AllDigits(s)
  {
    if s == [] then 0
    else DigitsValue(s[..|s| - 1]) * 10 + (s[|s| - 1] as int - '0' as int)
  }

  /** Parse an unsigned integer no greater than `max`: an optional `+`, then
      one or more decimal digits. A sign alone, any other character, or a
      value above `max` is an error. */
  function ParseUnsigned(s: string, max: nat): (r: Option<nat>)
    ensures r.Some? ==> r.value <= max
    ensures r.Some? ==> |s| > 0 && (IsDigit(s[0]) || (s[0] == '+' && |s| > 1))
    ensures r.Some? ==> forall k :: (if s[0] == '+' then 1 else 0) <= k < |s| ==> IsDigit(s[k])
    ensures s == [] || s == "+" ==> r == None
  {
    var digits := if |s| > 0 && s[0] == '+' then s[1..] else s;
    if digits == [] || !AllDigits(digits) then None
    else if DigitsValue(digits) <= max then Some(DigitsValue(digits))
    else None
  }

  /** The shortest decimal representation of `n`. */
  function Decimal(n: nat): (r: string)
    ensures |r| > 0 && AllDigits(r)
  {
    var d := [('0' as int + n % 10) as char];
    if n < 10 then d else Decimal(n / 10) + d
  }

  lemma {:induction false} DecimalValue(n: nat)
    ensures DigitsValue(Decimal(n)) == n
  {
    var d := [('0' as int + n % 10) as char];
    if n >= 10 {
      DecimalValue(n / 10);
      assert Decimal(n)[..|Decimal(n)| - 1] == Decimal(n / 10);
    }
  }

  /** Round trip: a number's decimal digits, with or without a leading `+`,
      parse back to it exactly when it is in range. */
  lemma ParseDecimal(n: nat, max: nat)
    ensures ParseUnsigned(Decimal(n), max) == (if n <= max then Some(n) else None)
    ensures ParseUnsigned("+" + Decimal(n), max) == (if n <= max then Some(n) else None)
  {
    DecimalValue(n);
    assert ("+" + Decimal(n))[1..] == Decimal(n);
  }

  /** Leading zeros do not change the value. */
  lemma LeadingZero(s: string, max: nat)
    requires AllDigits(s) && s != []
    ensures ParseUnsigned("0" + s, max) == ParseUnsigned(s, max)
  {
    LeadingZeroValue(s);
  }

  lemma {:induction false} LeadingZeroValue(s: string)
    requires AllDigits(s)
    ensures AllDigits("0" + s) && DigitsValue("0" + s) == DigitsValue(s)
  {
    if s != [] {
      LeadingZeroValue(s[..|s| - 1]);
      assert ("0" + s)[..|"0" + s| - 1] == "0" + s[..|s| - 1];
    }
  }

  /** `n` zeros. */
  function Zeros(n: nat): (r: string)
    ensures |r| == n && AllDigits(r)
  {
    seq(n, _ => '0')
  }

  /** Every accepted string is a number's decimal digits after an optional
      `+` and any number of leading zeros: together with `ParseDecimal` and
      `LeadingZero`, the parser accepts exactly these strings. */
  lemma ParseUnsignedCanonical(s: string, max: nat)
    requires ParseUnsigned(s, max).Some?
    ensures var n := ParseUnsigned(s, max).value;
            exists z: nat :: s == Zeros(z) + Decimal(n) || s == "+" + Zeros(z) + Decimal(n)
  {
    var n := ParseUnsigned(s, max).value;
    if s[0] == '+' {
      var z := DigitsCanonical(s[1..]);
      assert s == "+" + s[1..];
      assert s == "+" + Zeros(z) + Decimal(n);
    } else {
      var z := DigitsCanonical(s);
      assert s == Zeros(z) + Decimal(n);
    }
  }

  /** A non-empty string of digits is its value's decimal digits after `z`
      leading zeros. */
  lemma {:induction false} DigitsCanonical(d: string) returns (z: nat)
    requires AllDigits(d) && d != []
    ensures d == Zeros(z) + Decimal(DigitsValue(d))
    decreases |d|
  {
    var p, c := d[..|d| - 1], d[|d| - 1];
    var v := DigitsValue(d);
    assert d == p + [c];
    var digit := c as int - '0' as int;
    assert v == DigitsValue(p) * 10 + digit;
    if p == [] {
      z := 0;
      assert DigitsValue(p) == 0;
      assert v == digit && v % 10 == digit;
      assert ('0' as int + v % 10) as char == c;
      assert Decimal(v) == [c];
      assert d == Zeros(0) + [c];
    } else {
      var zp := DigitsCanonical(p);
      var vp := DigitsValue(p);
      assert v == vp * 10 + digit;
      if vp == 0 {
        z := zp + 1;
        assert Decimal(0) == "0";
        assert p == Zeros(zp) + "0" == Zeros(z);
        assert Decimal(v) == [c];
      } else {
        z := zp;
        assert v / 10 == vp && v % 10 == digit;
        assert Decimal(v) == Decimal(vp) + [c];
      }
    }
  }

  /** A minus sign is not accepted. */
  lemma MinusRejected(s: string, max: nat)
    ensures ParseUnsigned("-" + s, max) == None
  {
    assert ("-" + s)[0] == '-';
  }

  // Splitting on a separator, as `str::split` does.

  /** The pieces between separators; there is always at least one. */
  function Split(s: string, sep: char): (r: seq<string>)
    ensures |r| >= 1
  {
    if s == [] then [[]]
    else
      var rest := Split(s[1..], sep);
      if s[0] == sep then [[]] + rest
      else [[s[0]] + rest[0]] + rest[1..]
  }

  /** The pieces joined back with the separator. */
  function Join(pieces: seq<string>, sep: char): string
    requires |pieces| >= 1
  {
    if |pieces| == 1 then pieces[0]
    else pieces[0] + [sep] + Join(pieces[1..], sep)
  }

  /** Splitting loses nothing: joining the pieces gives the string back, and
      no piece contains the separator. */
  lemma {:induction false} SplitJoin(s: string, sep: char)
    ensures Join(Split(s, sep), sep) == s
    ensures forall k :: 0 <= k < |Split(s, sep)| ==> sep !in Split(s, sep)[k]
  {
    if s != [] {
      SplitJoin(s[1..], sep);
      var rest := Split(s[1..], sep);
      if s[0] == sep {
        assert Split(s, sep)[1..] == rest;
      } else {
        var r := Split(s, sep);
        assert r[1..] == rest[1..];
        if |rest| > 1 {
          assert rest == [rest[0]] + rest[1..];
          assert rest[1..] == rest[1..][..];
        }
        assert s == [s[0]] + s[1..];
        forall k | 0 <= k < |r|
          ensures sep !in r[k]
        {
          if k > 0 {
            assert r[k] == rest[k];
          }
        }
      }
    }
  }

  /** A piece without the separator, then the separator, starts a split. */
  lemma {:induction false} SplitFirst(a: string, b: string, sep: char)
    requires sep !in a
    ensures Split(a + [sep] + b, sep) == [a] + Split(b, sep)
  {
    if a == [] {
      assert a + [sep] + b == [sep] + b;
      assert ([sep] + b)[1..] == b;
    } else {
      var s := a + [sep] + b;
      assert s[0] == a[0];
      assert s[1..] == a[1..] + [sep] + b;
      SplitFirst(a[1..], b, sep);
      assert [a[0]] + a[1..] == a;
    }
  }

  lemma {:induction false} SplitNoSeparator(a: string, sep: char)
    requires sep !in a
    ensures Split(a, sep) == [a]
  {
    if a != [] {
      SplitNoSeparator(a[1..], sep);
      assert [a[0]] + a[1..] == a;
    }
  }

  /** The colour topic's payload: the first three comma-separated fields
      must each be a `u8`; any further fields are ignored. */
  function ParseColour(payload: string): (r: Option<Colour>)
    ensures r.Some? ==> |Split(payload, ',')| >= 3
  {
    var fields := Split(payload, ',');
    if |fields| < 3 then None
    else
      match (ParseUnsigned(fields[0], 255), ParseUnsigned(fields[1], 255), ParseUnsigned(fields[2], 255))
      case (Some(r), Some(g), Some(b)) => Some(Rgb(r, g, b))
      case _ => None
  }

  lemma DecimalHasNoComma(n: nat)
    ensures ',' !in Decimal(n)
  {
  }

  /** Two separator-free pieces followed by a tail split into those pieces
      and the tail's pieces. */
  lemma SplitTwoFields(a: string, b: string, tail: string, sep: char)
    requires sep !in a && sep !in b
    ensures Split(a + [sep] + b + [sep] + tail, sep) == [a, b] + Split(tail, sep)
  {
    SplitFirst(b, tail, sep);
    assert a + [sep] + b + [sep] + tail == a + [sep] + (b + [sep] + tail);
    SplitFirst(a, b + [sep] + tail, sep);
  }

  /** The three fields of a colour, each in range, give that colour. */
  lemma ParseColourOfFields(payload: string, c: Colour)
    requires |Split(payload, ',')| >= 3
    requires Split(payload, ',')[..3] == [Decimal(c.r), Decimal(c.g), Decimal(c.b)]
    ensures ParseColour(payload) == Some(c)
  {
    var fields := Split(payload, ',');
    assert fields[0] == Decimal(c.r) && fields[1] == Decimal(c.g) && fields[2] == Decimal(c.b);
    ParseDecimal(c.r, 255);
    ParseDecimal(c.g, 255);
    ParseDecimal(c.b, 255);
  }

  /** Round trip: "r,g,b" for a colour parses back to that colour. */
  lemma ColourRoundTrip(c: Colour)
    ensures ParseColour(Decimal(c.r) + "," + Decimal(c.g) + "," + Decimal(c.b)) == Some(c)
  {
    var r, g, b := Decimal(c.r), Decimal(c.g), Decimal(c.b);
    DecimalHasNoComma(c.r);
    DecimalHasNoComma(c.g);
    DecimalHasNoComma(c.b);
    SplitNoSeparator(b, ',');
    SplitTwoFields(r, g, b, ',');
    ParseColourOfFields(r + "," + g + "," + b, c);
  }

  /** Whatever follows a third comma is ignored. */
  lemma ColourExtraFieldsIgnored(c: Colour, rest: string)
    ensures ParseColour(Decimal(c.r) + "," + Decimal(c.g) + "," + Decimal(c.b) + "," + rest) == Some(c)
  {
    var r, g, b := Decimal(c.r), Decimal(c.g), Decimal(c.b);
    DecimalHasNoComma(c.r);
    DecimalHasNoComma(c.g);
    DecimalHasNoComma(c.b);
    SplitFirst(b, rest, ',');
    SplitTwoFields(r, g, b + "," + rest, ',');
    assert r + "," + g + "," + b + "," + rest == r + [','] + g + [','] + (b + [','] + rest);
    ParseColourOfFields(r + "," + g + "," + b + "," + rest, c);
  }

  /** Fewer than three fields leave the colour unparsed. */
  lemma ColourNeedsThreeFields(a: string, b: string)
    requires ',' !in a && ',' !in b
    ensures ParseColour(a) == None
    ensures ParseColour(a + "," + b) == None
  {
    SplitNoSeparator(a, ',');
    SplitNoSeparator(b, ',');
    SplitFirst(a, b, ',');
    assert a + "," + b == a + [','] + b;
  }

  // The handler's state and what one message does to it.

  /** The listener's fields and the shared sleep flag. */
  datatype Listener = Listener(nextColour: Colour, lastCo2: ES.u32, lastTemp: Temperature, sleep: bool)

  /** What handling one message did: the new state, what was sent for
      deletion and as new screens (in sending order), and whether the
      message was handled. */
  datatype Outcome = Outcome(state: Listener, dels: seq<string>, adds: seq<Screen>, handled: bool)

  /** `refresh_environment_screen`: delete the environment screen, then send
      one with the latest readings. */
  function Refresh(l: Listener): (r: Outcome)
    ensures r.dels == ["environment"] && |r.adds| == 1 && Id(r.adds[0]) == r.dels[0]
  {
    Outcome(l, ["environment"], [Environment(ES.EnvironmentScreen(l.lastTemp, l.lastCo2))], true)
  }

  /** `attempt_handle_message`. */
  function Handle(l: Listener, topic: string, payload: seq<u8>, parsedTemp: Option<Temperature>): Outcome
  {
    match Utf8.Decode(payload)
    case None => Outcome(l, [], [], false)
    case Some(text) =>
      var l1 := if topic == GLOBAL_PRESENCE_TOPIC then l.(sleep := text == EMPTY) else l;
      if l1.sleep then Outcome(l1, [], [], false)
      else if topic == TEXT_COLOUR_TOPIC then
        match ParseColour(text)
        case None => Outcome(l1, [], [], false)
        case Some(c) => Outcome(l1.(nextColour := c), [], [], true)
      else if topic == TEXT_TOPIC then
        Outcome(l1, [], [Text(TS.New(text, TS.TextStyle(TEXT_CHAR_WIDTH, l1.nextColour), None))], true)
      else if topic == TEMP_TOPIC then
        match parsedTemp
        case None => Outcome(l1, [], [], false)
        case Some(v) => Refresh(l1.(lastTemp := v))
      else if topic == CO2_TOPIC then
        match ParseUnsigned(text, ES.U32_MAX)
        case None => Outcome(l1, [], [], false)
        case Some(n) => Refresh(l1.(lastCo2 := n))
      else Outcome(l1, [], [], false)
  }

  /** The state of a listener just built. */
  function Initial(sleep: bool): (r: Listener)
    ensures r.nextColour == MAGENTA && r.lastCo2 == 0 && r.lastTemp == Temperature(0)
  {
    Listener(MAGENTA, 0, Temperature(0), sleep)
  }

  /** A payload that is not UTF-8 changes nothing and sends nothing. */
  lemma InvalidUtf8Ignored(l: Listener, topic: string, payload: seq<u8>, parsedTemp: Option<Temperature>)
    requires Utf8.Decode(payload).None?
    ensures Handle(l, topic, payload, parsedTemp) == Outcome(l, [], [], false)
  {
  }

  /** The presence topic sets the sleep flag to whether the payload is
      "empty", and nothing else is done with the message. */
  lemma PresenceSetsSleep(l: Listener, text: string, parsedTemp: Option<Temperature>)
    ensures var out := Handle(l, GLOBAL_PRESENCE_TOPIC, Utf8.Encode(text), parsedTemp);
            out == Outcome(l.(sleep := text == EMPTY), [], [], false)
  {
    Utf8.DecodeEncode(text);
  }

  /** While asleep, no other topic changes the state or sends anything. */
  lemma AsleepIgnoresMessages(l: Listener, topic: string, payload: seq<u8>, parsedTemp: Option<Temperature>)
    requires l.sleep && topic != GLOBAL_PRESENCE_TOPIC
    ensures Handle(l, topic, payload, parsedTemp) == Outcome(l, [], [], false)
  {
  }

  /** A colour message sets the next text colour when it parses and leaves
      everything as it was otherwise; it never sends. */
  lemma ColourMessage(l: Listener, text: string, parsedTemp: Option<Temperature>)
    requires !l.sleep
    ensures var out := Handle(l, TEXT_COLOUR_TOPIC, Utf8.Encode(text), parsedTemp);
            out.dels == [] && out.adds == [] &&
            out.handled == ParseColour(text).Some? &&
            out.state == (if out.handled then l.(nextColour := ParseColour(text).value) else l)
  {
    Utf8.DecodeEncode(text);
  }

  /** A text message sends exactly one text screen, in the current colour
      and with the default show count, and changes no state. */
  lemma TextMessage(l: Listener, text: string, parsedTemp: Option<Temperature>)
    requires !l.sleep
    ensures var out := Handle(l, TEXT_TOPIC, Utf8.Encode(text), parsedTemp);
            out.state == l && out.dels == [] && out.handled && |out.adds| == 1 &&
            out.adds[0].Text? && out.adds[0].text.style.colour == l.nextColour &&
            out.adds[0].text.showCount == 4 &&
            out.adds[0].text.text == TS.StripNewlines(text)
  {
    Utf8.DecodeEncode(text);
  }

  /** A CO2 reading that parses replaces the environment screen: the old one
      is deleted by id, then one with both latest readings is sent. One that
      does not parse changes nothing. */
  lemma Co2Message(l: Listener, text: string, parsedTemp: Option<Temperature>)
    requires !l.sleep
    ensures var out := Handle(l, CO2_TOPIC, Utf8.Encode(text), parsedTemp);
            match ParseUnsigned(text, ES.U32_MAX)
            case None => out == Outcome(l, [], [], false)
            case Some(n) =>
              out.state == l.(lastCo2 := n) && out.handled &&
              out.dels == ["environment"] &&
              out.adds == [Environment(ES.EnvironmentScreen(l.lastTemp, n))]
  {
    Utf8.DecodeEncode(text);
  }

  /** The same for a temperature reading. */
  lemma TempMessage(l: Listener, text: string, parsedTemp: Option<Temperature>)
    requires !l.sleep
    ensures var out := Handle(l, TEMP_TOPIC, Utf8.Encode(text), parsedTemp);
            match parsedTemp
            case None => out == Outcome(l, [], [], false)
            case Some(v) =>
              out.state == l.(lastTemp := v) && out.handled &&
              out.dels == ["environment"] &&
              out.adds == [Environment(ES.EnvironmentScreen(v, l.lastCo2))]
  {
    Utf8.DecodeEncode(text);
  }

  /** Any other topic is not handled and changes nothing. */
  lemma UnknownTopicIgnored(l: Listener, topic: string, payload: seq<u8>, parsedTemp: Option<Temperature>)
    requires topic !in {TEXT_COLOUR_TOPIC, TEXT_TOPIC, TEMP_TOPIC, CO2_TOPIC, GLOBAL_PRESENCE_TOPIC}
    ensures var out := Handle(l, topic, payload, parsedTemp);
            out.state == l && out.dels == [] && out.adds == [] && !out.handled
  {
  }

  /** End to end: after a CO2 reading is handled, the display's next frame
      holds exactly one environment screen, the one with the new reading. */
  lemma Co2ReplacesEnvironmentScreen(l: Listener, text: string, parsedTemp: Option<Temperature>,
                                     queue: seq<Screen>)
    requires !l.sleep && ParseUnsigned(text, ES.U32_MAX).Some?
    ensures var out := Handle(l, CO2_TOPIC, Utf8.Encode(text), parsedTemp);
            var e := Environment(ES.EnvironmentScreen(l.lastTemp, ParseUnsigned(text, ES.U32_MAX).value));
            var q := DisplayLogics.Drained(queue, out.dels, out.adds);
            e in q && forall s :: s in q && s.Environment? ==> s == e
  {
    Co2Message(l, text, parsedTemp);
    var out := Handle(l, CO2_TOPIC, Utf8.Encode(text), parsedTemp);
    DisplayLogics.EnvironmentReplaced(queue, out.dels, ES.EnvironmentScreen(l.lastTemp, ParseUnsigned(text, ES.U32_MAX).value));
  }

  class MQTTListener {
    const screenChannel: DisplayLogics.ScreenChannel
    const screenDelChannel: DisplayLogics.IdChannel
    var nextColour: Colour
    var lastCo2: ES.u32
    var lastTemp: Temperature
    const sleep: DisplayLogics.SleepFlag

    function State(): Listener
      reads this, sleep
    {
      Listener(nextColour, lastCo2, lastTemp, sleep.value)
    }

    /** The initial field values; connecting to the broker is not modelled. */
    constructor(screenChannel: DisplayLogics.ScreenChannel, screenDelChannel: DisplayLogics.IdChannel,
                sleep: DisplayLogics.SleepFlag)
      ensures State() == Initial(sleep.value)
      ensures this.screenChannel == screenChannel && this.screenDelChannel == screenDelChannel
      ensures this.sleep == sleep
    {
      this.screenChannel := screenChannel;
      this.screenDelChannel := screenDelChannel;
      this.nextColour := MAGENTA;
      this.lastCo2 := 0;
      this.lastTemp := Temperature(0);
      this.sleep := sleep;
    }

    /** Handle one message; the result says whether it was handled. */
    method AttemptHandleMessage(topic: string, payload: seq<u8>, parsedTemp: Option<Temperature>)
      returns (handled: bool)
      modifies this, sleep, screenChannel, screenDelChannel
      ensures var out := Handle(old(State()), topic, payload, parsedTemp);
              State() == out.state && handled == out.handled &&
              screenDelChannel.queue == old(screenDelChannel.queue) + out.dels &&
              screenChannel.queue == old(screenChannel.queue) + out.adds
    {
      var decoded := Utf8.Decode(payload);
      if decoded.None? {
        return false;
      }
      var text := decoded.value;

      if topic == GLOBAL_PRESENCE_TOPIC {
        sleep.value := text == EMPTY;
      }
      if sleep.value {
        return false;
      }

      if topic == TEXT_COLOUR_TOPIC {
        var fields := Split(text, ',');
        if |fields| < 3 {
          return false;
        }
        var r := ParseUnsigned(fields[0], 255);
        var g := ParseUnsigned(fields[1], 255);
        var b := ParseUnsigned(fields[2], 255);
        if r.None? || g.None? || b.None? {
          return false;
        }
        nextColour := Rgb(r.value, g.value, b.value);
        return true;
      } else if topic == TEXT_TOPIC {
        screenChannel.Send(Text(TS.New(text, TS.TextStyle(TEXT_CHAR_WIDTH, nextColour), None)));
        return true;
      } else if topic == TEMP_TOPIC {
        if parsedTemp.None? {
          return false;
        }
        lastTemp := parsedTemp.value;
        RefreshEnvironmentScreen();
        return true;
      } else if topic == CO2_TOPIC {
        var co2 := ParseUnsigned(text, ES.U32_MAX);
        if co2.None? {
          return false;
        }
        lastCo2 := co2.value;
        RefreshEnvironmentScreen();
        return true;
      } else {
        return false;
      }
    }

    /** Delete the environment screen, then send a fresh one. */
    method RefreshEnvironmentScreen()
      modifies screenChannel, screenDelChannel
      ensures screenDelChannel.queue == old(screenDelChannel.queue) + ["environment"]
      ensures screenChannel.queue == old(screenChannel.queue) + [Environment(ES.EnvironmentScreen(lastTemp, lastCo2))]
    {
      screenDelChannel.Send("environment");
      screenChannel.Send(Environment(ES.EnvironmentScreen(lastTemp, lastCo2)));
    }
  }
}
