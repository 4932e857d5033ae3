/** Outcomes of the dictionary routes: a value or one of the failure kinds. */
module Outcomes {

  datatype Option<T> = None | Some(value: T)

  /** `MissingParameter` and `ValidationFailed` are the routes' 400 replies,
      `NotFound` their 404 reply. */
  datatype Failure = MissingParameter | ValidationFailed | NotFound

  datatype Result<T> = Ok(value: T) | Err(failure: Failure)

  /** JavaScript's `!x` for an optional string: true when the value is
      absent or is the empty string. */
  predicate Blank(x: Option<string>)
  {
    x.None? || x.value == ""
  }

  /** `x || fallback` for an optional string. */
  function OrElse(x: Option<string>, fallback: string): string
  {
    if Blank(x) then fallback else x.value
  }
}

/** The dictionary entry record and the direction of a translation. */
module DictionaryModel {
  import opened Outcomes

  /** The identifier the store assigns to an entry. */
  type Id = nat

  /** One stored entry. Both phrases are required; the audio references
      default to `None` (null), `category` to "general" and `notes` to "".
      An optional field may still hold null (`None`) after an update. */
  datatype Entry = Entry(
    id: Id,
    englishPhrase: string,
    arabiJubaPhrase: string,
    englishAudio: Option<string>,
    arabiJubaAudio: Option<string>,
    category: Option<string>,
    notes: Option<string>)

  const DefaultCategory: string := "general"

  /** The declared language of the phrase to translate. */
  datatype Direction = English | ArabiJuba

  /** The `source` query parameter: "english" selects English, and every
      other value falls into the Arabi Juba branch. */
  function DirectionOf(source: string): (d: Direction)
    ensures d == ArabiJuba <==> source != "english"
  {
    if source == "english" then English else ArabiJuba
  }

  /** The side of an entry a phrase in direction `d` is matched against. */
  function SourceSide(e: Entry, d: Direction): string
  {
    match d
    case English => e.englishPhrase
    case ArabiJuba => e.arabiJubaPhrase
  }

  /** The side of an entry that translates a phrase in direction `d`. */
  function TargetSide(e: Entry, d: Direction): string
  {
    match d
    case English => e.arabiJubaPhrase
    case ArabiJuba => e.englishPhrase
  }
}
