/**
 The dictionary routes over an in-memory store: entries in store order,
 each with an identifier the store assigns and never reuses.
 */
module DictionaryRoutes {
  import opened Text
  import opened Outcomes
  import opened DictionaryModel
  import opened Resolver

  /** The body of `POST /`: each field may be absent. */
  datatype NewEntryBody = NewEntryBody(
    englishPhrase: Option<string>,
    arabiJubaPhrase: Option<string>,
    category: Option<string>,
    notes: Option<string>)

  /** One field of a `$set` update: left alone, or set to the given value. */
  datatype Field<T> = Keep | Set(value: T)

  /** The body of `PUT /:id`, applied as `$set`. An optional field can be set
      to null (`None`). */
  datatype Patch = Patch(
    englishPhrase: Field<string>,
    arabiJubaPhrase: Field<string>,
    englishAudio: Field<Option<string>>,
    arabiJubaAudio: Field<Option<string>>,
    category: Field<Option<string>>,
    notes: Field<Option<string>>)

  function Apply<T>(f: Field<T>, old_value: T): T
  {
    match f
    case Keep => old_value
    case Set(v) => v
  }

  /** The entry `POST /` builds for `body` under identifier `id`: both phrases
      are required (absent or empty is refused before anything else), then
      stored trimmed and lower-cased, with category "general" and notes ""
      when those are absent or empty. Saving then refuses a phrase that
      trimming left empty, as the schema requires both. */
  function NewEntry(body: NewEntryBody, id: Id): (r: Result<Entry>)
    ensures Blank(body.englishPhrase) || Blank(body.arabiJubaPhrase) ==> r.Err?
    ensures r.Err? ==> r.failure == ValidationFailed
    ensures r.Ok? ==>
      && r.value.id == id
      && r.value.englishPhrase == Clean(body.englishPhrase.value)
      && r.value.arabiJubaPhrase == Clean(body.arabiJubaPhrase.value)
      && r.value.category == Some(if Blank(body.category) then DefaultCategory else body.category.value)
      && r.value.notes == Some(if Blank(body.notes) then "" else body.notes.value)
      && r.value.englishAudio == None && r.value.arabiJubaAudio == None
      && r.value.englishPhrase != "" && r.value.arabiJubaPhrase != ""
  {
    if Blank(body.englishPhrase) || Blank(body.arabiJubaPhrase) then
      Err(ValidationFailed)
    else
      var e := Entry(
        id,
        Clean(body.englishPhrase.value),
        Clean(body.arabiJubaPhrase.value),
        None,
        None,
        Some(OrElse(body.category, DefaultCategory)),
        Some(OrElse(body.notes, "")));
      if e.englishPhrase == "" || e.arabiJubaPhrase == "" then Err(ValidationFailed)
      else Ok(e)
  }

  /** The entry after `$set`: every field the patch names takes the given
      value verbatim (no trimming, no lower-casing), the rest and the
      identifier stay. */
  function Patched(e: Entry, p: Patch): (r: Entry)
    ensures r.id == e.id
    ensures p.englishPhrase.Keep? ==> r.englishPhrase == e.englishPhrase
    ensures p.arabiJubaPhrase.Keep? ==> r.arabiJubaPhrase == e.arabiJubaPhrase
    ensures p.englishPhrase.Set? ==> r.englishPhrase == p.englishPhrase.value
    ensures p.arabiJubaPhrase.Set? ==> r.arabiJubaPhrase == p.arabiJubaPhrase.value
    ensures p.englishAudio.Keep? ==> r.englishAudio == e.englishAudio
    ensures p.englishAudio.Set? ==> r.englishAudio == p.englishAudio.value
    ensures p.arabiJubaAudio.Keep? ==> r.arabiJubaAudio == e.arabiJubaAudio
    ensures p.arabiJubaAudio.Set? ==> r.arabiJubaAudio == p.arabiJubaAudio.value
    ensures p.category.Keep? ==> r.category == e.category
    ensures p.category.Set? ==> r.category == p.category.value
    ensures p.notes.Keep? ==> r.notes == e.notes
    ensures p.notes.Set? ==> r.notes == p.notes.value
  {
    Entry(
      e.id,
      Apply(p.englishPhrase, e.englishPhrase),
      Apply(p.arabiJubaPhrase, e.arabiJubaPhrase),
      Apply(p.englishAudio, e.englishAudio),
      Apply(p.arabiJubaAudio, e.arabiJubaAudio),
      Apply(p.category, e.category),
      Apply(p.notes, e.notes))
  }

  /** The check before trimming adds nothing to the schema's: a body is
      refused exactly when a phrase is absent or only white space, and an
      accepted entry is stored in normal form (cleaning it again changes
      nothing). */
  lemma NewEntryRefusesBlank(body: NewEntryBody, id: Id)
    ensures NewEntry(body, id).Err? <==>
      Clean(OrElse(body.englishPhrase, "")) == "" || Clean(OrElse(body.arabiJubaPhrase, "")) == ""
    ensures NewEntry(body, id).Ok? ==>
      && Clean(NewEntry(body, id).value.englishPhrase) == NewEntry(body, id).value.englishPhrase
      && Clean(NewEntry(body, id).value.arabiJubaPhrase) == NewEntry(body, id).value.arabiJubaPhrase
  {
    var en, aj := OrElse(body.englishPhrase, ""), OrElse(body.arabiJubaPhrase, "");
    CleanOfEmpty();
    if !Blank(body.englishPhrase) && !Blank(body.arabiJubaPhrase) {
      assert en == body.englishPhrase.value && aj == body.arabiJubaPhrase.value;
      CleanIdempotent(en);
      CleanIdempotent(aj);
    }
  }

  /** A created entry can be looked up by the phrase it was created with:
      translating that phrase from English is an exact match whose English
      side equals the cleaned phrase up to case, and when no earlier entry
      matches, the reply is the new entry itself. */
  lemma CreatedEntryIsFound(es: seq<Entry>, body: NewEntryBody, id: Id)
    requires NewEntry(body, id).Ok?
    ensures var e := NewEntry(body, id).value;
      var r := Resolve(es + [e], body.englishPhrase, Some("english"));
      && r.Ok? && r.value.notes.Some?
      && Lower(r.value.englishPhrase) == e.englishPhrase
      && (FirstMatch(es, English, e.englishPhrase).None? ==> r.value == FromEntry(e))
  {
    var e := NewEntry(body, id).value;
    var phrase := body.englishPhrase.value;
    var all := es + [e];
    CleanIdempotent(phrase);
    assert Clean(phrase) == e.englishPhrase;
    assert Matches(e, English, e.englishPhrase);
    FirstMatchAppended(es, e, English, e.englishPhrase);
    var k := FirstMatch(all, English, e.englishPhrase).value;
    ResolveOnMatch(all, phrase, "english", k);
    assert SourceSide(all[k], English) == FromEntry(all[k]).englishPhrase;
  }

  /** A phrase in normal form: non-empty, trimmed and lower-case. */
  ghost predicate NormalPhrase(s: string)
  {
    s != "" && Stripped(s) && LowerCase(s)
  }

  /** Both phrases of `e` are in normal form. */
  ghost predicate NormalEntry(e: Entry)
  {
    NormalPhrase(e.englishPhrase) && NormalPhrase(e.arabiJubaPhrase)
  }

  /** Every entry of the store is in normal form. */
  ghost predicate Normalized(es: seq<Entry>)
  {
    forall i :: 0 <= i < |es| ==> NormalEntry(es[i])
  }

  /** Replacing or appending an entry in normal form keeps a store
      normalized. */
  lemma NormalizedWith(es: seq<Entry>, k: nat, e: Entry)
    requires Normalized(es) && NormalEntry(e) && k <= |es|
    ensures k < |es| ==> Normalized(es[k := e])
    ensures Normalized(es + [e])
  {
  }

  /** `POST /` only ever stores entries in normal form. */
  lemma NewEntryIsNormal(body: NewEntryBody, id: Id)
    requires NewEntry(body, id).Ok?
    ensures NormalEntry(NewEntry(body, id).value)
  {
    CleanIsNormal(body.englishPhrase.value);
    CleanIsNormal(body.arabiJubaPhrase.value);
  }

  /** A phrase set to something that lower-casing changes leaves the entry
      out of normal form. */
  lemma VerbatimPatchLeavesNormalForm(e: Entry, v: string)
    requires Lower(v) != v
    ensures !NormalEntry(Patched(e, Patch(Set(v), Keep, Keep, Keep, Keep, Keep)))
  {
    LowerCaseFixed(v);
  }

  /** A phrase field of a corrected update: cleaned as `POST /` cleans it. */
  function CleanField(f: Field<string>): Field<string>
  {
    match f
    case Keep => Keep
    case Set(v) => Set(Clean(v))
  }

  /** A phrase field that would leave the phrase empty after trimming. */
  predicate ClearsPhrase(f: Field<string>)
  {
    f.Set? && Clean(f.value) == ""
  }

  /** The patch a normalizing update applies: refused when it would leave a
      phrase empty after trimming, otherwise with both phrases cleaned and
      every other field as given. */
  function NormalizedPatch(p: Patch): (r: Result<Patch>)
    ensures r.Err? <==> ClearsPhrase(p.englishPhrase) || ClearsPhrase(p.arabiJubaPhrase)
    ensures r.Err? ==> r.failure == ValidationFailed
    ensures r.Ok? ==>
      && r.value.englishPhrase.Set? == p.englishPhrase.Set?
      && r.value.arabiJubaPhrase.Set? == p.arabiJubaPhrase.Set?
      && (r.value.englishAudio, r.value.arabiJubaAudio, r.value.category, r.value.notes)
         == (p.englishAudio, p.arabiJubaAudio, p.category, p.notes)
    ensures r.Ok? && p.englishPhrase.Set? ==> r.value.englishPhrase == Set(Clean(p.englishPhrase.value))
    ensures r.Ok? && p.arabiJubaPhrase.Set? ==> r.value.arabiJubaPhrase == Set(Clean(p.arabiJubaPhrase.value))
  {
    if ClearsPhrase(p.englishPhrase) || ClearsPhrase(p.arabiJubaPhrase) then Err(ValidationFailed)
    else Ok(p.(englishPhrase := CleanField(p.englishPhrase), arabiJubaPhrase := CleanField(p.arabiJubaPhrase)))
  }

  /** A normalizing update keeps an entry in normal form. */
  lemma NormalizedPatchKeepsNormal(e: Entry, p: Patch)
    requires NormalEntry(e) && NormalizedPatch(p).Ok?
    ensures NormalEntry(Patched(e, NormalizedPatch(p).value))
  {
    if p.englishPhrase.Set? {
      CleanIsNormal(p.englishPhrase.value);
    }
    if p.arabiJubaPhrase.Set? {
      CleanIsNormal(p.arabiJubaPhrase.value);
    }
  }

  /** In a normalized store, matching up to case is plain equality, which is
      what lets the exact match compare stored phrases directly. */
  lemma NormalStoreMatchIsEquality(es: seq<Entry>, d: Direction, clean: string)
    requires Normalized(es) && Lower(clean) == clean
    ensures forall i :: 0 <= i < |es| ==> (Matches(es[i], d, clean) <==> SourceSide(es[i], d) == clean)
  {
    forall i | 0 <= i < |es| ensures Lower(SourceSide(es[i], d)) == SourceSide(es[i], d) {
      LowerCaseFixed(SourceSide(es[i], d));
    }
  }

  /** In a normalized store, the fallback translates a token that some
      entry's source side equals up to case: the lookup finds it and gives
      the target side of the last such entry. */
  lemma NormalStoreTokenFound(es: seq<Entry>, d: Direction, w: string, i: nat)
    requires Normalized(es) && Lower(w) == w
    requires i < |es| && Matches(es[i], d, w)
    ensures exists j ::
      (&& 0 <= j < |es| && SourceSide(es[j], d) == w
       && Lookup(TermIndex(es, d), w) == TargetSide(es[j], d)
       && forall k :: j < k < |es| ==> SourceSide(es[k], d) != w)
  {
    NormalStoreMatchIsEquality(es, d, w);
    TermIndexLastWriteWins(es, d, w);
    var j :| 0 <= j < |es| && SourceSide(es[j], d) == w
      && TermIndex(es, d)[w] == TargetSide(es[j], d)
      && forall k :: j < k < |es| ==> SourceSide(es[k], d) != w;
    assert TargetSide(es[j], d) != "";
  }

  /** The position of the entry with identifier `id`, if any. */
  function Find(es: seq<Entry>, id: Id): (r: Option<nat>)
    ensures r.Some? ==> r.value < |es| && es[r.value].id == id
    ensures r.None? ==> forall j :: 0 <= j < |es| ==> es[j].id != id
    decreases |es|
  {
    if |es| == 0 then None
    else if es[0].id == id then Some(0)
    else match Find(es[1..], id)
      case None => None
      case Some(i) => Some(i + 1)
  }

  /** Identifiers are unique within `es`. */
  ghost predicate UniqueIds(es: seq<Entry>)
  {
    forall i, j :: 0 <= i < j < |es| ==> es[i].id != es[j].id
  }

  /** With unique identifiers, removing the entry at the position of `id`
      removes exactly the entries with that identifier. */
  lemma RemoveAtFound(es: seq<Entry>, k: nat)
    requires UniqueIds(es) && k < |es|
    ensures UniqueIds(es[..k] + es[k + 1..])
    ensures forall x :: x in es[..k] + es[k + 1..] <==> x in es && x.id != es[k].id
  {
    var rest := es[..k] + es[k + 1..];
    forall x | x in es && x.id != es[k].id ensures x in rest {
      var i :| 0 <= i < |es| && es[i] == x;
      if i < k { assert rest[i] == x; } else { assert rest[i - 1] == x; }
    }
    forall i | 0 <= i < |rest| ensures rest[i].id != es[k].id && rest[i] in es {
      if i < k { assert rest[i] == es[i]; } else { assert rest[i] == es[i + 1]; }
    }
  }

  /** Appending an entry whose identifier exceeds every one in the store
      keeps identifiers unique. */
  lemma AppendFreshId(es: seq<Entry>, e: Entry, n: Id)
    requires UniqueIds(es) && (forall i :: 0 <= i < |es| ==> es[i].id < n) && e.id == n
    ensures UniqueIds(es + [e]) && forall i :: 0 <= i < |es + [e]| ==> (es + [e])[i].id < n + 1
  {
  }

  class DictionaryStore {
    /** The entries, in store order. */
    var entries: seq<Entry>
    /** The identifier the next created entry gets. */
    var nextId: Id

    ghost predicate Valid()
      reads this
    {
      && UniqueIds(entries)
      && forall i :: 0 <= i < |entries| ==> entries[i].id < nextId
    }

    constructor ()
      ensures Valid() && entries == [] && nextId == 0
    {
      entries := [];
      nextId := 0;
    }

    /** `GET /`: every entry, in store order. */
    method List() returns (es: seq<Entry>)
      ensures es == entries
    {
      es := entries;
    }

    /** `GET /translate`: reads the store and changes nothing. */
    method Translate(phrase: Option<string>, source: Option<string>) returns (r: Result<Translation>)
      ensures r == Resolve(entries, phrase, source)
    {
      if Blank(phrase) || Blank(source) {
        return Err(MissingParameter);
      }
      var clean := Clean(phrase.value);
      var d := DirectionOf(source.value);
      var full := FirstMatch(entries, d, clean);
      if full.Some? {
        return Ok(FromEntry(entries[full.value]));
      }
      var enToAj, ajToEn := BuildTermMaps(entries);
      var index := if d == English then enToAj else ajToEn;
      var translated := JoinSpace(TranslateWords(Words(clean), index));
      r := Ok(FallbackReply(d, clean, translated));
    }

    /** `POST /`: on success the new entry, with a fresh identifier, is
        appended; on refusal nothing changes. */
    method Create(body: NewEntryBody) returns (r: Result<Entry>)
      requires Valid()
      modifies this
      ensures Valid()
      ensures r == NewEntry(body, old(nextId))
      ensures r.Err? ==> entries == old(entries) && nextId == old(nextId)
      ensures r.Ok? ==> entries == old(entries) + [r.value] && nextId == old(nextId) + 1
      ensures r.Ok? ==> forall i :: 0 <= i < |old(entries)| ==> old(entries)[i].id != r.value.id
      ensures Normalized(old(entries)) ==> Normalized(entries)
    {
      r := NewEntry(body, nextId);
      if r.Ok? {
        NewEntryIsNormal(body, nextId);
        if Normalized(entries) {
          NormalizedWith(entries, |entries|, r.value);
        }
        AppendFreshId(entries, r.value, nextId);
        entries := entries + [r.value];
        nextId := nextId + 1;
      }
    }

    /** `PUT /:id`: the entry with that identifier gets the patch, in place;
        an unknown identifier is NotFound and changes nothing. */
    method Update(id: Id, patch: Patch) returns (r: Result<Entry>)
      requires Valid()
      modifies this
      ensures Valid() && nextId == old(nextId)
      ensures r.Err? <==> Find(old(entries), id).None?
      ensures r.Err? ==> r.failure == NotFound && entries == old(entries)
      ensures r.Ok? ==> var k := Find(old(entries), id).value;
        r.value == Patched(old(entries)[k], patch) && entries == old(entries)[k := r.value]
    {
      var k := Find(entries, id);
      if k.None? {
        return Err(NotFound);
      }
      var e := Patched(entries[k.value], patch);
      entries := entries[k.value := e];
      r := Ok(e);
    }

    /** `DELETE /:id`: removes exactly the entry with that identifier and
        keeps the order of the rest; an unknown identifier is NotFound and
        changes nothing. */
    method Delete(id: Id) returns (r: Result<Id>)
      requires Valid()
      modifies this
      ensures Valid() && nextId == old(nextId)
      ensures r.Err? <==> Find(old(entries), id).None?
      ensures r.Err? ==> r.failure == NotFound && entries == old(entries)
      ensures r.Ok? ==> var k := Find(old(entries), id).value;
        r.value == id && entries == old(entries)[..k] + old(entries)[k + 1..]
      ensures r.Ok? ==> forall x :: x in entries <==> x in old(entries) && x.id != id
      ensures Normalized(old(entries)) ==> Normalized(entries)
    {
      var k := Find(entries, id);
      if k.None? {
        return Err(NotFound);
      }
      RemoveAtFound(entries, k.value);
      entries := entries[..k.value] + entries[k.value + 1..];
      r := Ok(id);
    }
  
    /** `PUT /:id` as the entry rules intend it: the phrases are validated
        and cleaned as `POST /` does before the patch is applied, so a
        normalized store stays normalized. */
    method UpdateNormalizing(id: Id, patch: Patch) returns (r: Result<Entry>)
      requires Valid()
      modifies this
      ensures Valid() && nextId == old(nextId)
      ensures NormalizedPatch(patch).Err? ==> r == Err(ValidationFailed) && entries == old(entries)
      ensures NormalizedPatch(patch).Ok? ==> (r.Err? <==> Find(old(entries), id).None?)
      ensures NormalizedPatch(patch).Ok? && Find(old(entries), id).None? ==> r == Err(NotFound)
      ensures r.Err? ==> entries == old(entries)
      ensures r.Ok? ==> var k := Find(old(entries), id).value;
        r.value == Patched(old(entries)[k], NormalizedPatch(patch).value) && entries == old(entries)[k := r.value]
      ensures Normalized(old(entries)) ==> Normalized(entries)
    {
      var p := NormalizedPatch(patch);
      if p.Err? {
        return Err(ValidationFailed);
      }
      ghost var before := entries;
      r := Update(id, p.value);
      if r.Ok? && Normalized(before) {
        var k := Find(before, id).value;
        NormalizedPatchKeepsNormal(before[k], patch);
        NormalizedWith(before, k, r.value);
      }
    }
  }
}
