# Arabi Juba dictionary routes, modelled in Dafny

This project models the dictionary routes of an English / Arabi Juba phrase
dictionary (`server/routes/dictionary.js`). The routes run over a store of
entries kept in store order. Each entry has an identifier, an English phrase, an
Arabi Juba phrase, two optional audio references, a category and notes, as
the schema in `server/models/dictionary.js` declares them.

- `GET /translate` (`Resolver.Resolve`) answers a phrase in two steps:
  - It refuses a request with no phrase or no source.
  - It trims and lower-cases the phrase.
  - It returns the first entry, in store order, whose source side equals the phrase up to case.
  - Otherwise it splits the phrase on white space and looks each token up in a term index. The index is built from every entry, and a later entry overrides an earlier one. A token with no entry passes through unchanged. The tokens are joined with single spaces.
- `POST /` (`DictionaryRoutes.NewEntry`) refuses a missing or empty phrase. It stores both phrases trimmed and lower-cased. The category defaults to "general" and the notes default to "".
- `PUT /:id` applies the given fields verbatim. `DELETE /:id` removes one entry. Both answer NotFound for an unknown identifier.
- `GET /` lists the entries.

Files:

- `text.dfy` (module `Text`): the JavaScript string operations the routes use. These are `trim`, `toLowerCase`, `split(/\s+/)` and `join(' ')`, with their properties. Splitting undoes joining, and cleaning is idempotent.
- `schema.dfy`:
  - Module `Outcomes` holds the failure kinds and the optional values. Optional values cover the request fields, which may be absent.
  - Module `DictionaryModel` holds the entry record and the translation direction.
- `resolver.dfy` (module `Resolver`):
  - the translation resolver as functions;
  - the term-index build as a loop that updates two maps (`BuildTermMaps`);
  - the lemmas about the resolver.
- `store.dfy` (module `DictionaryRoutes`): the validation and normalization of a new entry, and the `$set` update. The class `DictionaryStore` holds the entries and the next identifier, with one method per route. The normal form of stored phrases is defined here too, together with the corrected update described under Findings.
- `scenarios.dfy` (module `Scenarios`): translations against small dictionaries of single words, and sessions against the store.

Points where the design description and the code differ. The model follows the code:

- The design lists `source` as one of "english" or "arabiJuba". The code checks only for "english", and any other non-empty value takes the Arabi Juba branch (`DictionaryModel.DirectionOf`, `Resolver.ResolveOtherSourceIsArabiJuba`).
- The design says a phrase that is only white space is refused. The code's emptiness check at line 82 runs before trimming, so such a phrase is refused only later, when saving. By then the phrase has been trimmed to "", and the schema's `required` rejects it. The model folds both refusals into one `ValidationFailed` outcome (`DictionaryRoutes.NewEntryRefusesBlank`).
- The design says updates are validated and normalized like creates. The code writes them verbatim (see Findings).
- The fallback reply carries no `notes` field. The exact-match reply always carries one, "" when the entry has none.

## Model

| member | source | states |
|---|---|---|
| `Text.Lower` | server/routes/dictionary.js:29 | `toLowerCase` keeps the length and leaves every character lower-case |
| `Text.Trim` | server/routes/dictionary.js:29 | `trim` leaves no white space at either end and never lengthens the string |
| `Text.TrimIsSliceBetweenSpaces` | server/routes/dictionary.js:29 | what `trim` keeps is one contiguous slice of the phrase, with only white space before and after it |
| `Text.Clean` | server/routes/dictionary.js:29 | the cleaned phrase has no white space at either end, is lower-case and is no longer than the input |
| `Text.CleanIdempotent` | server/routes/dictionary.js:87-88 | a trimmed, lower-cased phrase is trimmed and lower-case, so normalizing it again changes nothing |
| `Text.CleanIsNormal` | server/routes/dictionary.js:87-88 | a cleaned phrase has no white space at either end and every character is lower-case |
| `Text.Words` | server/routes/dictionary.js:50 | `split(/\s+/)` yields at least one piece and no piece contains white space; the first piece is a prefix of the phrase, non-empty when the phrase starts with a non-space; every inner piece is non-empty, since separators are whole runs of white space; a phrase without white space is its own single piece |
| `Text.JoinSpace` | server/routes/dictionary.js:63 | `join(' ')` of no tokens is ""; otherwise the result starts with the first token and ends with the last |
| `Text.WordsOfStripped` | server/routes/dictionary.js:50 | a trimmed, non-empty phrase splits into non-empty tokens |
| `Text.WordsCons` | server/routes/dictionary.js:50 | a token, a space and a remainder that does not start with white space split into that token followed by the remainder's tokens |
| `Text.WordsJoinSpace` | server/routes/dictionary.js:63 | splitting undoes `join(' ')` for non-empty tokens without white space |
| `Text.WordsKeepLowerCase` | server/routes/dictionary.js:58-59 | the tokens of a lower-case phrase are lower-case, so lower-casing a token again is the identity |
| `DictionaryModel.DirectionOf` | server/routes/dictionary.js:35-37 | the Arabi Juba side is chosen exactly when `source` is not "english" |
| `Resolver.Matches` | server/routes/dictionary.js:33-37 | an entry matches only when its source side has the cleaned phrase's length; for a lower-case phrase it matches exactly when its lower-cased source side equals the phrase |
| `Resolver.FirstMatch` | server/routes/dictionary.js:33-38 | the result, when there is one, matches up to case and no earlier entry matches; with no result, no entry matches |
| `Resolver.FirstMatchAppended` | server/routes/dictionary.js:34-38 | appending a matching entry makes it the first match unless an earlier entry already matched |
| `Resolver.BuildTermMaps` | server/routes/dictionary.js:52-56 | the `forEach` loop builds exactly the term indexes for both directions |
| `Resolver.TermIndex` | server/routes/dictionary.js:52-56 | every key of the index maps to a value that some entry pairs with that key in the chosen direction |
| `Resolver.TermIndexLastWriteWins` | server/routes/dictionary.js:52-56 | a key is in the index exactly when some entry has it on its source side, and it then maps to the target side of the last such entry |
| `Resolver.LaterEntryOverrides` | server/routes/dictionary.js:52-56 | of two entries with the same key, the later one decides the index entry whatever lies between them (further entries with that key included), as long as no entry after it has the key |
| `Resolver.TermIndexUntouched` | server/routes/dictionary.js:52-56 | entries appended without a given key leave that key's presence and value in the index as they were |
| `Resolver.Resolve` | server/routes/dictionary.js:24-27 | the request fails exactly when the phrase or the source is absent or empty, and the failure is MissingParameter whatever the store holds |
| `Resolver.Lookup` | server/routes/dictionary.js:58-62 | a token becomes the index value of its lower-cased form when that value is present and non-empty, and stays itself otherwise |
| `Resolver.TranslateWords` | server/routes/dictionary.js:58-62 | one output per token, each either the token itself or a non-empty value of the index |
| `Resolver.FromEntry` | server/routes/dictionary.js:40-47 | the exact-match reply carries the entry's two phrases unchanged, and its notes or "" when they are absent or empty |
| `Resolver.FallbackReply` | server/routes/dictionary.js:66-71 | the cleaned phrase goes on the source side, the translation on the other, and there are no notes |
| `Resolver.Fallback` | server/routes/dictionary.js:49-71 | the fallback reply has the cleaned phrase on the source side and no notes |
| `Resolver.Answer` | server/routes/dictionary.js:33-71 | with a match, the reply has notes and its source side equals the cleaned phrase up to case; without one, it has no notes and its source side is the cleaned phrase |
| `Resolver.ResolveExactMatch` | server/routes/dictionary.js:33-47 | when entry `i` matches and none before it does, the reply is entry `i`'s phrases unmodified and its notes or "" |
| `Resolver.ExactMatchSourceSide` | server/routes/dictionary.js:33-46 | an exact match's reply has, on the source side, a phrase equal to the cleaned input up to case |
| `Resolver.TranslateLowerCaseWords` | server/routes/dictionary.js:58-62 | each lower-case token becomes its index value when that value is present and non-empty, and stays itself otherwise |
| `Resolver.ResolveFallback` | server/routes/dictionary.js:49-71 | without a match, the source side is the cleaned phrase and the other side joins one translated token per token |
| `Resolver.FallbackTokenCount` | server/routes/dictionary.js:50-63 | when every target phrase is a single word, the fallback translation has as many tokens as the cleaned phrase |
| `Resolver.ResolveNormalizes` | server/routes/dictionary.js:29 | a phrase and its trimmed, lower-cased form get the same reply |
| `Resolver.ResolveSameClean` | server/routes/dictionary.js:29-38 | phrases with the same normal form get the same reply |
| `Resolver.ResolveOtherSourceIsArabiJuba` | server/routes/dictionary.js:60-71 | any non-empty `source` other than "english" is answered exactly as "arabiJuba" |
| `DictionaryRoutes.NewEntry` | server/routes/dictionary.js:79-91 | a missing or empty phrase is refused with ValidationFailed; an accepted entry has both phrases cleaned and non-empty, no audio, and category "general" and notes "" when those are absent or empty |
| `DictionaryRoutes.NewEntryRefusesBlank` | server/routes/dictionary.js:82-88 | a body is refused exactly when a phrase is absent or is empty after trimming, and accepted phrases are in normal form |
| `DictionaryRoutes.CreatedEntryIsFound` | server/routes/dictionary.js:86-94 | a created entry is found by exact match on the phrase it was created with, and is the reply itself when no earlier entry matches |
| `DictionaryRoutes.NewEntryIsNormal` | server/routes/dictionary.js:86-91 | `POST /` only stores phrases that are non-empty, trimmed and lower-case |
| `DictionaryRoutes.Patched` | server/routes/dictionary.js:109 | `$set` keeps the identifier; each of the six fields is the given value verbatim when the patch sets it and the old value otherwise |
| `DictionaryRoutes.VerbatimPatchLeavesNormalForm` | server/routes/dictionary.js:109 | setting a phrase that lower-casing would change leaves the entry out of normal form |
| `DictionaryRoutes.NormalizedPatch` | server/routes/dictionary.js:107-111 | the corrected update refuses, with ValidationFailed, exactly the patches that set a phrase empty after trimming; otherwise each phrase it sets is replaced by its cleaned form and the other fields are kept as given |
| `DictionaryRoutes.NormalizedPatchKeepsNormal` | server/routes/dictionary.js:107-111 | the corrected update keeps an entry in normal form |
| `DictionaryRoutes.NormalStoreMatchIsEquality` | server/routes/dictionary.js:33-38 | in a normalized store, the case-insensitive match is plain equality |
| `DictionaryRoutes.NormalStoreTokenFound` | server/routes/dictionary.js:52-62 | in a normalized store, a token that some entry's source side equals up to case is translated to the target side of the last such entry |
| `DictionaryRoutes.Find` | server/routes/dictionary.js:128 | the result, when there is one, is the position of an entry with that identifier; with no result, no entry has it |
| `DictionaryRoutes.RemoveAtFound` | server/routes/dictionary.js:128 | with unique identifiers, removing the found position removes exactly the entries with that identifier |
| `DictionaryRoutes.AppendFreshId` | server/routes/dictionary.js:94 | appending an entry whose identifier is above every stored one keeps identifiers unique |
| `DictionaryRoutes.DictionaryStore.List` | server/routes/dictionary.js:7-17 | `GET /` returns every entry in store order |
| `DictionaryRoutes.DictionaryStore.Translate` | server/routes/dictionary.js:20-76 | the handler's steps compute exactly `Resolve` over the current entries and change nothing |
| `DictionaryRoutes.DictionaryStore.Create` | server/routes/dictionary.js:79-101 | on refusal nothing changes; on success the new entry is appended with a fresh identifier, and a normalized store stays normalized |
| `DictionaryRoutes.DictionaryStore.Update` | server/routes/dictionary.js:104-122 | an unknown identifier is NotFound and changes nothing; otherwise exactly that entry is replaced by the patched one |
| `DictionaryRoutes.DictionaryStore.Delete` | server/routes/dictionary.js:125-139 | an unknown identifier is NotFound and changes nothing; otherwise exactly that entry is removed and the rest keep their order |
| `DictionaryRoutes.DictionaryStore.UpdateNormalizing` | server/routes/dictionary.js:104-122 | the corrected update refuses a phrase left empty by trimming with ValidationFailed, answers NotFound for an unknown identifier, changes nothing on either failure, stores phrases cleaned, and keeps a normalized store normalized |
| `Scenarios.NewEntryAccepts` | server/models/dictionary.js:4-11 | a body with two phrases that survive trimming is stored cleaned, without audio, under category "general" with notes "" |
| `Scenarios.ExactMatchIgnoresCase` | server/routes/dictionary.js:33-47 | a phrase equal to the first entry's word up to case is answered with that entry as stored |
| `Scenarios.PaddingIgnored` | server/routes/dictionary.js:29 | white space around a phrase does not change the reply |
| `Scenarios.UnknownWordPassesThrough` | server/routes/dictionary.js:58-68 | a word with no entry comes back unchanged on both sides |
| `Scenarios.FallbackTokenByToken` | server/routes/dictionary.js:49-68 | two words without a whole-phrase entry are translated one by one and joined with a space |
| `Scenarios.DuplicateExactTakesFirst` | server/routes/dictionary.js:34-47 | of two entries with the same word, the exact match answers with the first |
| `Scenarios.DuplicateFallbackTakesLast` | server/routes/dictionary.js:52-68 | of two entries with the same word, the fallback translates with the last |
| `Scenarios.VerbatimUpdateStillMatched` | server/routes/dictionary.js:107-111 | after a phrase is updated to a capitalized form, the exact match still finds the entry |
| `Scenarios.VerbatimUpdateMissedByFallback` | server/routes/dictionary.js:107-111 | after the same update, the fallback misses the entry and passes the token through |
| `Scenarios.NormalizedUpdateFoundByFallback` | server/routes/dictionary.js:107-111 | with the corrected update, the fallback translates the token again |
| `Scenarios.SessionCreate` | server/routes/dictionary.js:79-101 | a blank phrase is refused and changes nothing; a good body is stored cleaned and translates back by its phrase; a request without a phrase is MissingParameter |
| `Scenarios.SessionDelete` | server/routes/dictionary.js:125-139 | after the only entry is deleted the store is empty, and the identifier is NotFound for both `DELETE` and `PUT` |

## Left out

- Express routing, HTTP status codes, JSON serialization and `console` logging are left out. Outcomes are a `Result` with the failure kinds MissingParameter (400), ValidationFailed (400) and NotFound (404).
- MongoDB and mongoose are replaced by an in-memory sequence of entries in store order. `findOne` is the first match in that order, and `find` is that order.
- The 500 replies for store errors (lines 13-16, 72-75, 135-138) and the design's StoreUnavailable outcome are left out: an in-memory store cannot fail. Save errors other than the `required` check on `POST /` are left out for the same reason.
- `Resolver.Matches`: the exact match is modelled as equality up to case. The source interpolates the cleaned phrase into a regular expression unescaped, so a phrase containing metacharacters (`.`, `*`, `(`, …) matches differently, or makes `RegExp` throw. That part is not modelled.
- `Text.Lower`: only the ASCII letters A-Z are lower-cased. JavaScript's full Unicode case mapping, including mappings that change the length, is not modelled. The same limit applies to the `i` flag of the exact match.
- `Resolver.TermIndex`: the term maps are plain JavaScript objects in the source. Prototype keys such as `constructor`, which a token could hit in an empty map, are not modelled. The `||` treatment of an empty stored value (the token passes through) is modelled.
- `DictionaryRoutes.DictionaryStore.Update`: the mongoose update validators that `runValidators` enables are not modelled. They are library behaviour, and they would refuse a `$set` of an empty phrase. `$set` of a field outside the schema, and setting a phrase to null, are not modelled either.
- Identifiers are natural numbers handed out in increasing order. MongoDB ObjectIds, and the CastError a malformed id raises (a 400 in `PUT`, a 500 in `DELETE`), are not modelled.
- Query parameters and body fields are optional strings. Arrays, numbers or objects sent in their place are not modelled.
- The design describes the category as an enumerated tag. The schema does not enforce that, so neither does the model.
- Each handler is modelled as atomic. Interleavings of concurrent requests are not modelled.
- The React client, its client-side empty checks, speech synthesis and the API URL configuration are not part of this model.

## Findings

| source | as written | input that shows it | evidently intended | confidence | as-written member | corrected member |
|---|---|---|---|---|---|---|
| server/routes/dictionary.js:107-111 | `PUT` applies `$set` with the request body verbatim, so a phrase can be stored with capitals or surrounding white space. The word-by-word fallback looks up lower-cased tokens by exact key, so it no longer finds that entry. | An entry "hello" → "salam" updated with englishPhrase "Hello". Translating "hello friend" from English then gives "hello friend": `Scenarios.VerbatimUpdateMissedByFallback`. | Updates are validated and cleaned as creates are, so every stored phrase stays non-empty, trimmed and lower-case, and the fallback finds every stored word (`DictionaryRoutes.NormalStoreTokenFound`). | medium; not executed | `DictionaryRoutes.DictionaryStore.Update` | `DictionaryRoutes.DictionaryStore.UpdateNormalizing` |
