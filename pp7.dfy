/** The data the presentation application's REST interface returns, after
    JSON decoding, and the key-binding rows of the binding table. */
module Pp7 {
  import opened Wrappers

  /** Identity of a global group or of a presentation. */
  datatype PP7Id = PP7Id(uuid: string, name: string, index: u32)

  /** Colour of a group: channels documented as lying in 0.0..1.0, alpha unused for lighting. */
  datatype PP7Color = PP7Color(red: real, green: real, blue: real, alpha: real)

  /** The documented range of every channel. */
  predicate InUnitRange(c: PP7Color)
  {
    0.0 <= c.red <= 1.0 && 0.0 <= c.green <= 1.0 && 0.0 <= c.blue <= 1.0 && 0.0 <= c.alpha <= 1.0
  }

  /** A globally defined group (only fetched and logged by the program). */
  datatype GlobalGroup = GlobalGroup(id: PP7Id, color: PP7Color)

  datatype PresentationSlide = PresentationSlide(enabled: bool, notes: string, text: string, slideLabel: string)

  /** A slide group of the active presentation, its colour already defaulted. */
  datatype PresentationGroup = PresentationGroup(name: string, color: PP7Color, slides: seq<PresentationSlide>)

  /** A slide group as it arrives on the wire: the `color` key must be present,
      but its value may be null (`None`). */
  datatype RawPresentationGroup = RawPresentationGroup(name: string, color: Option<PP7Color>, slides: seq<PresentationSlide>)

  datatype Presentation = Presentation(
    id: PP7Id,
    groups: seq<PresentationGroup>,
    hasTimeline: bool,
    presentationPath: string,
    destination: string)

  datatype PresentationRequest = PresentationRequest(presentation: Presentation)

  /** One row of the binding table: group name, key label, LED index (`usize`). */
  datatype PP7KeyBind = PP7KeyBind(bind: string, key: string, num: nat)

  /** The neutral gray a group gets when its colour is null. */
  const NullColor: PP7Color := PP7Color(0.5, 0.5, 0.5, 1.0)

  /** REST path of the active presentation. */
  const ActivePresentationPath: string := "/v1/presentation/active"

  /** REST path of the global group list. */
  const GroupsPath: string := "/v1/groups"

  /** Colour defaulting applied while decoding a slide group. */
  function ParseColorDef(raw: Option<PP7Color>): (c: PP7Color)
    ensures raw.Some? ==> c == raw.value
    ensures raw.None? ==> c.red == c.green == c.blue == 0.5 && c.alpha == 1.0
    ensures (raw.None? || InUnitRange(raw.value)) ==> InUnitRange(c)
  {
    match raw
    case Some(x) => x
    case None => NullColor
  }

  /** Decoding of one slide group: only the colour is transformed. */
  function ParseGroup(raw: RawPresentationGroup): (g: PresentationGroup)
    ensures g.name == raw.name && g.slides == raw.slides
    ensures g.color == ParseColorDef(raw.color)
  {
    PresentationGroup(raw.name, ParseColorDef(raw.color), raw.slides)
  }

  /** The REST paths of the two requests. */
  lemma EndpointPaths()
    ensures ActivePresentationPath == "/v1/presentation/active" && GroupsPath == "/v1/groups"
  {
  }
}
