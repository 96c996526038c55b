// Value types of the navigation logger: the numeric event and scenario
// codes, one logged event, one logged parameter, the fixed-width integer
// conversions the logger performs when it stores them, and the text of the
// report a flush produces.

module NavLogTypes {

  import opened ImageTypes

  /** A signed 16-bit item index, as events store it. */
  newtype int16 = x: int | -0x8000 <= x < 0x8000

  /** A signed 32-bit parameter value, as the integer overload receives it. */
  newtype int32 = x: int | -0x8000_0000 <= x < 0x8000_0000

  const Uint32Modulus: int := 0x1_0000_0000

  /** Storing a wider or signed integer in an unsigned 32-bit field keeps its low 32 bits. */
  function Uint32(x: int): (r: int)
    ensures 0 <= r < Uint32Modulus
    ensures 0 <= x < Uint32Modulus ==> r == x
    ensures (r - x) % Uint32Modulus == 0
  {
    x % Uint32Modulus
  }

  /** The parameter type byte derived from the 16-bit checksum of a parameter name. */
  function ParamTypeOf(checksum: nat): (r: int)
    ensures 0 <= r < 255
    ensures checksum < 255 ==> r == checksum
  {
    checksum % 255
  }

  datatype NavEventType =
    | ScenarioStart | RightStart | RightEnd | LeftStart | LeftEnd
    | UpStart | UpEnd | DownStart | DownEnd
    | AnimStart | AnimComplete | AnimAborted
    | IndexChanged | BoundsCheck | CalcPos | CalcComplete

  datatype NavScenarioType = ScenarioNone | NavRight | NavLeft | NavUp | NavDown | ItemSelected

  /** The numeric code of an event type: consecutive from 1. */
  function EventCode(t: NavEventType): (c: int)
    ensures 1 <= c <= 16
  {
    match t
    case ScenarioStart => 1
    case RightStart => 2
    case RightEnd => 3
    case LeftStart => 4
    case LeftEnd => 5
    case UpStart => 6
    case UpEnd => 7
    case DownStart => 8
    case DownEnd => 9
    case AnimStart => 10
    case AnimComplete => 11
    case AnimAborted => 12
    case IndexChanged => 13
    case BoundsCheck => 14
    case CalcPos => 15
    case CalcComplete => 16
  }

  /** The event type a code stands for, if any. */
  function EventOfCode(c: int): (r: Option<NavEventType>)
  {
    if c == 1 then Some(ScenarioStart)
    else if c == 2 then Some(RightStart)
    else if c == 3 then Some(RightEnd)
    else if c == 4 then Some(LeftStart)
    else if c == 5 then Some(LeftEnd)
    else if c == 6 then Some(UpStart)
    else if c == 7 then Some(UpEnd)
    else if c == 8 then Some(DownStart)
    else if c == 9 then Some(DownEnd)
    else if c == 10 then Some(AnimStart)
    else if c == 11 then Some(AnimComplete)
    else if c == 12 then Some(AnimAborted)
    else if c == 13 then Some(IndexChanged)
    else if c == 14 then Some(BoundsCheck)
    else if c == 15 then Some(CalcPos)
    else if c == 16 then Some(CalcComplete)
    else None
  }

  /** Decoding the code of an event type gives that type back, so codes are distinct. */
  lemma EventCodeRoundTrip(t: NavEventType)
    ensures EventOfCode(EventCode(t)) == Some(t)
  {
  }

  /** Exactly the codes 1 to 16 name an event type, and each names the type that encodes to it. */
  lemma EventCodesConsecutive(c: int)
    ensures EventOfCode(c).Some? <==> 1 <= c <= 16
    ensures EventOfCode(c).Some? ==> EventCode(EventOfCode(c).value) == c
  {
  }

  /** The numeric code of a scenario type: no scenario is 0, the others follow. */
  function ScenarioCode(s: NavScenarioType): (c: int)
    ensures 0 <= c <= 5
    ensures c == 0 <==> s == ScenarioNone
  {
    match s
    case ScenarioNone => 0
    case NavRight => 1
    case NavLeft => 2
    case NavUp => 3
    case NavDown => 4
    case ItemSelected => 5
  }

  /** The scenario type a code stands for, if any. */
  function ScenarioOfCode(c: int): (r: Option<NavScenarioType>)
  {
    if c == 0 then Some(ScenarioNone)
    else if c == 1 then Some(NavRight)
    else if c == 2 then Some(NavLeft)
    else if c == 3 then Some(NavUp)
    else if c == 4 then Some(NavDown)
    else if c == 5 then Some(ItemSelected)
    else None
  }

  /** Scenario codes decode to the scenario they encode, and only 0 to 5 are codes. */
  lemma ScenarioCodeRoundTrip(s: NavScenarioType, c: int)
    ensures ScenarioOfCode(ScenarioCode(s)) == Some(s)
    ensures ScenarioOfCode(c).Some? <==> 0 <= c <= 5
    ensures ScenarioOfCode(c).Some? ==> ScenarioCode(ScenarioOfCode(c).value) == c
  {
  }

  /** One timeline entry: type, scenario, item index (-1 when none) and milliseconds since the scenario began. */
  datatype NavEvent = NavEvent(eventType: NavEventType, scenario: NavScenarioType, index: int16, timestamp: int)

  /** One numeric parameter: a type byte, an unsigned integer value and a floating-point value. */
  datatype NavParam = NavParam(paramType: int, value: int, floatValue: real)

  /** The name a report gives a scenario; no scenario reports as unknown. */
  function ScenarioName(s: NavScenarioType): (r: string)
    ensures r == "UNKNOWN" <==> s == ScenarioNone
  {
    match s
    case NavRight => "RIGHT"
    case NavLeft => "LEFT"
    case NavUp => "UP"
    case NavDown => "DOWN"
    case ItemSelected => "SELECT"
    case ScenarioNone => "UNKNOWN"
  }

  /** The name a timeline line gives an event type. */
  function EventName(t: NavEventType): string
  {
    match t
    case ScenarioStart => "START"
    case RightStart => "RIGHT_START"
    case RightEnd => "RIGHT_END"
    case LeftStart => "LEFT_START"
    case LeftEnd => "LEFT_END"
    case UpStart => "UP_START"
    case UpEnd => "UP_END"
    case DownStart => "DOWN_START"
    case DownEnd => "DOWN_END"
    case AnimStart => "ANIM_START"
    case AnimComplete => "ANIM_COMPLETE"
    case AnimAborted => "ANIM_ABORTED"
    case IndexChanged => "INDEX_CHANGED"
    case BoundsCheck => "BOUNDS_CHECK"
    case CalcPos => "CALC_POS"
    case CalcComplete => "COMPLETE"
  }

  /** One printed timeline line: timestamp, event name and the index, absent when negative. */
  datatype TimelineLine = TimelineLine(timestamp: int, eventName: string, index: Option<int>)

  function LineOf(e: NavEvent): TimelineLine
  {
    TimelineLine(e.timestamp, EventName(e.eventType), if e.index >= 0 then Some(e.index as int) else None)
  }

  /** The timeline of a sequence of events: one line per event, in order. */
  function Timeline(events: seq<NavEvent>): (r: seq<TimelineLine>)
    ensures |r| == |events|
    ensures forall k :: 0 <= k < |events| ==> r[k].timestamp == events[k].timestamp && r[k].eventName == EventName(events[k].eventType)
    ensures forall k :: 0 <= k < |events| ==> (r[k].index.Some? <==> events[k].index >= 0)
    decreases |events|
  {
    if events == [] then [] else Timeline(events[..|events| - 1]) + [LineOf(events[|events| - 1])]
  }

  /** The summary a flush prints: scenario, duration, counters, and the timeline. */
  datatype Report = Report(
    scenarioName: string,
    totalDuration: int,
    eventCount: int,
    nodeCount: int,
    textureCount: int,
    timeline: seq<TimelineLine>)
}
