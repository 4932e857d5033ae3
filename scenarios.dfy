/**
 Translations against small dictionaries of single words, and a session
 against the store that creates, translates, updates and deletes.
 */
module Scenarios {
  import opened Text
  import opened Outcomes
  import opened DictionaryModel
  import opened Resolver
  import opened DictionaryRoutes

  /** An entry as `POST /` stores it, with the default category and notes. */
  function Pair(id: Id, en: string, aj: string): Entry
  {
    Entry(id, en, aj, None, None, Some(DefaultCategory), Some(""))
  }

  /** A single lower-case word, as the normal form of a one-word phrase. */
  ghost predicate Word(a: string)
  {
    a != "" && SpaceFree(a) && LowerCase(a)
  }

  /** A phrase that is already trimmed and lower-case is its own normal form. */
  lemma CleanOfNormal(s: string)
    requires Stripped(s) && LowerCase(s)
    ensures Clean(s) == s
  {
    TrimOfStripped(s);
    LowerCaseFixed(s);
  }

  /** A word is its own normal form and its own only token. */
  lemma OneWord(a: string)
    requires Word(a)
    ensures Clean(a) == a && Words(a) == [a] && Lower(a) == a
  {
    WordsJoinSpace([a]);
    CleanOfNormal(a);
    LowerCaseFixed(a);
  }

  /** Two words joined by one space are trimmed and lower-case. */
  lemma JoinedWordsNormal(a: string, b: string)
    requires Word(a) && Word(b)
    ensures Stripped(a + " " + b) && LowerCase(a + " " + b)
  {
    var s := a + " " + b;
    forall i | 0 <= i < |s| ensures ToLowerChar(s[i]) == s[i] {
      if i < |a| { assert s[i] == a[i]; } else if i > |a| { assert s[i] == b[i - |a| - 1]; }
    }
    assert s[0] == a[0] && s[|s| - 1] == b[|b| - 1];
  }

  /** Two words joined by one space split back into those words, and the
      phrase is its own normal form. */
  lemma TwoWords(a: string, b: string)
    requires Word(a) && Word(b)
    ensures Clean(a + " " + b) == a + " " + b
    ensures Words(a + " " + b) == [a, b]
    ensures Lower(a) == a && Lower(b) == b
  {
    assert JoinSpace([a, b]) == a + " " + b;
    WordsJoinSpace([a, b]);
    JoinedWordsNormal(a, b);
    CleanOfNormal(a + " " + b);
    LowerCaseFixed(a);
    LowerCaseFixed(b);
  }

  /** The fallback reply, given the tokens of the cleaned phrase and their
      translations. */
  lemma FallbackIs(es: seq<Entry>, phrase: string, words: seq<string>, ts: seq<string>)
    requires phrase != ""
    requires FirstMatch(es, English, Clean(phrase)).None?
    requires Words(Clean(phrase)) == words
    requires TranslateWords(words, TermIndex(es, English)) == ts
    ensures Resolve(es, Some(phrase), Some("english"))
      == Ok(FallbackReply(English, Clean(phrase), JoinSpace(ts)))
  {
    ResolveOnNoMatch(es, phrase, "english");
  }

  /** The index of two entries, the second written over the first. */
  lemma IndexOfTwo(e0: Entry, e1: Entry)
    ensures TermIndex([e0, e1], English) == map[e0.englishPhrase := e0.arabiJubaPhrase][e1.englishPhrase := e1.arabiJubaPhrase]
  {
    var es := [e0, e1];
    assert TermIndex([e0], English) == map[e0.englishPhrase := e0.arabiJubaPhrase] by {
      assert [e0][..0] == [];
    }
    assert es[..1] == [e0];
  }

  /** No entry whose English phrase is shorter than `a + " " + b` matches it. */
  lemma NoMatchForLonger(es: seq<Entry>, a: string, b: string)
    requires forall j :: 0 <= j < |es| ==> |es[j].englishPhrase| <= |a| + |b|
    ensures FirstMatch(es, English, a + " " + b).None?
  {
    var p := a + " " + b;
    forall j | 0 <= j < |es| ensures !Matches(es[j], English, p) {
      assert |Lower(es[j].englishPhrase)| < |Lower(p)|;
    }
  }

  /** The lookup of a lower-case word uses the word itself as the key. */
  lemma LookupWord(index: map<string, string>, a: string)
    requires Word(a)
    ensures Lookup(index, a) == if a in index && index[a] != "" then index[a] else a
  {
    LowerCaseFixed(a);
  }

  /** The fallback reply to two words that no entry matches as a whole. */
  lemma FallbackTwoWords(es: seq<Entry>, a: string, b: string)
    requires Word(a) && Word(b)
    requires forall j :: 0 <= j < |es| ==> |es[j].englishPhrase| <= |a| + |b|
    ensures var index := TermIndex(es, English);
      Resolve(es, Some(a + " " + b), Some("english"))
        == Ok(Translation(a + " " + b, Lookup(index, a) + " " + Lookup(index, b), None))
  {
    var index := TermIndex(es, English);
    var ts := [Lookup(index, a), Lookup(index, b)];
    NoMatchForLonger(es, a, b);
    TwoWords(a, b);
    TranslateTwo(index, a, b);
    FallbackIs(es, a + " " + b, [a, b], ts);
    JoinTwo(ts[0], ts[1]);
  }

  lemma TranslateTwo(index: map<string, string>, a: string, b: string)
    ensures TranslateWords([a, b], index) == [Lookup(index, a), Lookup(index, b)]
  {
  }

  lemma JoinTwo(x: string, y: string)
    ensures JoinSpace([x, y]) == x + " " + y
  {
    assert [x, y][1..] == [y];
  }

  /** A phrase that differs from the first entry's English word up to case
      only is answered with that entry, as stored. */
  lemma ExactMatchIgnoresCase(es: seq<Entry>, phrase: string, a: string)
    requires |es| > 0 && es[0].englishPhrase == a
    requires Word(a) && phrase != "" && SpaceFree(phrase) && Lower(phrase) == a
    ensures Resolve(es, Some(phrase), Some("english")) == Ok(FromEntry(es[0]))
  {
    OneWord(a);
    TrimOfStripped(phrase);
    ResolveExactMatch(es, phrase, "english", 0);
  }

  /** White space around a phrase changes nothing. */
  lemma PaddingIgnored(es: seq<Entry>, w: string, source: string)
    requires w != "" && Stripped(w) && source != ""
    ensures Resolve(es, Some(" " + w + " "), Some(source)) == Resolve(es, Some(w), Some(source))
  {
    var p := " " + w + " ";
    assert TrimStart(p) == w + " " by {
      assert p[1..] == w + " " && (w + " ")[0] == w[0];
    }
    assert TrimEnd(w + " ") == w by {
      assert (w + " ")[..|w|] == w;
    }
    TrimOfStripped(w);
    ResolveSameClean(es, p, w, source);
  }

  /** A word with no entry comes back unchanged on both sides. */
  lemma UnknownWordPassesThrough(w: string)
    requires Word(w)
    ensures Resolve([], Some(w), Some("english")) == Ok(Translation(w, w, None))
  {
    OneWord(w);
    assert TranslateWords([w], map[]) == [w];
    FallbackIs([], w, [w], [w]);
  }

  /** Without an entry for the whole phrase, each word is looked up on its
      own and the translations are joined with a space. */
  lemma FallbackTokenByToken(a: string, b: string, x: string, y: string)
    requires Word(a) && Word(b) && a != b && x != "" && y != ""
    ensures Resolve([Pair(0, a, x), Pair(1, b, y)], Some(a + " " + b), Some("english"))
      == Ok(Translation(a + " " + b, x + " " + y, None))
  {
    var es := [Pair(0, a, x), Pair(1, b, y)];
    FallbackTwoWords(es, a, b);
    IndexOfTwo(es[0], es[1]);
    LookupWord(TermIndex(es, English), a);
    LookupWord(TermIndex(es, English), b);
  }

  /** Two entries share the English word `a`: the exact match takes the
      first... */
  lemma DuplicateExactTakesFirst(a: string, x: string, y: string)
    requires Word(a)
    ensures Resolve([Pair(0, a, x), Pair(1, a, y)], Some(a), Some("english"))
      == Ok(Translation(a, x, Some("")))
  {
    ExactMatchIgnoresCase([Pair(0, a, x), Pair(1, a, y)], a, a);
  }

  /** ... while the fallback index takes the last. */
  lemma DuplicateFallbackTakesLast(a: string, b: string, x: string, y: string)
    requires Word(a) && Word(b) && a != b && y != ""
    ensures Resolve([Pair(0, a, x), Pair(1, a, y)], Some(a + " " + b), Some("english"))
      == Ok(Translation(a + " " + b, y + " " + b, None))
  {
    var es := [Pair(0, a, x), Pair(1, a, y)];
    FallbackTwoWords(es, a, b);
    IndexOfTwo(es[0], es[1]);
    LookupWord(TermIndex(es, English), a);
    LookupWord(TermIndex(es, English), b);
  }

  /** The store after `PUT` sets the English phrase of the only entry, `a`,
      to `upper`: stored verbatim, not cleaned. */
  function AfterVerbatimUpdate(a: string, upper: string, x: string): (es: seq<Entry>)
    ensures es == [Pair(0, upper, x)]
  {
    [Patched(Pair(0, a, x), Patch(Set(upper), Keep, Keep, Keep, Keep, Keep))]
  }

  /** After `a` is updated to `upper`, which differs from it in case only,
      the case-insensitive exact match still finds the entry... */
  lemma VerbatimUpdateStillMatched(a: string, upper: string, x: string)
    requires Word(a) && Lower(upper) == a
    ensures Resolve(AfterVerbatimUpdate(a, upper, x), Some(a), Some("english"))
      == Ok(Translation(upper, x, Some("")))
  {
    OneWord(a);
    ResolveExactMatch(AfterVerbatimUpdate(a, upper, x), a, "english", 0);
  }

  /** ... but the fallback index is keyed by `upper` and misses the
      lower-cased token `a`, which passes through untranslated. */
  lemma VerbatimUpdateMissedByFallback(a: string, upper: string, b: string, x: string)
    requires Word(a) && Word(b) && a != b
    requires Lower(upper) == a && upper != a
    ensures Resolve(AfterVerbatimUpdate(a, upper, x), Some(a + " " + b), Some("english"))
      == Ok(Translation(a + " " + b, a + " " + b, None))
  {
    var es := AfterVerbatimUpdate(a, upper, x);
    assert |upper| == |a|;
    FallbackTwoWords(es, a, b);
    assert TermIndex(es, English) == map[upper := x] by {
      assert es[..0] == [];
    }
    LookupWord(TermIndex(es, English), a);
    LookupWord(TermIndex(es, English), b);
    assert b != upper by {
      LowerCaseFixed(b);
    }
  }

  /** With the normalizing update, the same `PUT` stores `a` again, and the
      fallback translates the token. */
  lemma NormalizedUpdateFoundByFallback(a: string, upper: string, b: string, x: string)
    requires Word(a) && Word(b) && a != b && x != ""
    requires Lower(upper) == a && upper != "" && SpaceFree(upper)
    ensures NormalizedPatch(Patch(Set(upper), Keep, Keep, Keep, Keep, Keep)).Ok?
    ensures var es := [Patched(Pair(0, a, x), NormalizedPatch(Patch(Set(upper), Keep, Keep, Keep, Keep, Keep)).value)];
      Resolve(es, Some(a + " " + b), Some("english")) == Ok(Translation(a + " " + b, x + " " + b, None))
  {
    assert Clean(upper) == a by {
      TrimOfStripped(upper);
    }
    var es := [Patched(Pair(0, a, x), NormalizedPatch(Patch(Set(upper), Keep, Keep, Keep, Keep, Keep)).value)];
    assert es == [Pair(0, a, x)];
    FallbackTwoWords(es, a, b);
    assert TermIndex(es, English) == map[a := x] by {
      assert es[..0] == [];
    }
    LookupWord(TermIndex(es, English), a);
    LookupWord(TermIndex(es, English), b);
  }

  /** A body with two phrases that survive trimming is accepted, with the
      default category and notes. */
  lemma NewEntryAccepts(en: string, aj: string, id: Id)
    requires Clean(en) != "" && Clean(aj) != ""
    ensures NewEntry(NewEntryBody(Some(en), Some(aj), None, None), id) == Ok(Pair(id, Clean(en), Clean(aj)))
  {
    CleanOfEmpty();
    assert en != "" && aj != "";
    var body := NewEntryBody(Some(en), Some(aj), None, None);
    assert !Blank(body.englishPhrase) && !Blank(body.arabiJubaPhrase);
  }

  /** Creating against an empty store: a body whose phrase is only white
      space is refused and changes nothing; a good body is stored cleaned
      under identifier 0 and translates back by the phrase it was created
      with. */
  method SessionCreate(en: string, aj: string, blank: string) returns (store: DictionaryStore)
    requires Clean(en) != "" && Clean(aj) != "" && Clean(blank) == ""
    ensures fresh(store) && store.Valid() && store.entries == [Pair(0, Clean(en), Clean(aj))]
  {
    store := new DictionaryStore();
    var refused := NewEntryBody(Some(blank), Some(aj), None, None);
    NewEntryRefusesBlank(refused, 0);
    var bad := store.Create(refused);
    assert bad == Err(ValidationFailed) && store.entries == [];

    var body := NewEntryBody(Some(en), Some(aj), None, None);
    NewEntryAccepts(en, aj, 0);
    var created := store.Create(body);
    var e := Pair(0, Clean(en), Clean(aj));
    assert created == Ok(e) && store.entries == [e];

    var t := store.Translate(Some(en), Some("english"));
    CreatedEntryIsFound([], body, 0);
    assert [] + [e] == store.entries;
    assert t == Ok(FromEntry(e)) && t.value.arabiJubaPhrase == Clean(aj);

    var missing := store.Translate(None, Some("english"));
    assert missing == Err(MissingParameter);
  }

  /** Deleting the only entry empties the store; after that the identifier is
      unknown to both `DELETE` and `PUT`. */
  method SessionDelete(en: string, aj: string, blank: string)
    requires Clean(en) != "" && Clean(aj) != "" && Clean(blank) == ""
  {
    var store := SessionCreate(en, aj, blank);
    var gone := store.Delete(0);
    assert gone == Ok(0) && store.entries == [];
    var again := store.Delete(0);
    assert again == Err(NotFound);
    var patched := store.Update(0, Patch(Set(en), Keep, Keep, Keep, Keep, Keep));
    assert patched == Err(NotFound);
  }
}
