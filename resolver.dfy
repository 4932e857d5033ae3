/**
 The phrase translation resolver behind `GET /translate`: normalize the
 phrase, look for the first entry whose source side equals it up to case,
 and otherwise translate it token by token through a term index built from
 every entry, later entries overriding earlier ones.
 */
module Resolver {
  import opened Text
  import opened Outcomes
  import opened DictionaryModel

  /** The reply of a translation: both sides, and the notes of the entry on
      an exact match (the fallback reply has no notes field). */
  datatype Translation = Translation(englishPhrase: string, arabiJubaPhrase: string, notes: Option<string>)

  /** The side of a reply that holds the phrase in direction `d`. */
  function SourceOf(t: Translation, d: Direction): string
  {
    match d
    case English => t.englishPhrase
    case ArabiJuba => t.arabiJubaPhrase
  }

  /** The side of a reply that holds the translation out of direction `d`. */
  function TargetOf(t: Translation, d: Direction): string
  {
    match d
    case English => t.arabiJubaPhrase
    case ArabiJuba => t.englishPhrase
  }

  /** Does the anchored, case-insensitive pattern built from `clean` match the
      source side of `e`? */
  predicate Matches(e: Entry, d: Direction, clean: string): (b: bool)
    ensures b ==> |SourceSide(e, d)| == |clean|
    ensures Lower(clean) == clean ==> (b <==> Lower(SourceSide(e, d)) == clean)
  {
    EqualIgnoringCase(SourceSide(e, d), clean)
  }

  /** The index of the first entry, in store order, that matches: what
      `findOne` returns. */
  function FirstMatch(es: seq<Entry>, d: Direction, clean: string): (r: Option<nat>)
    ensures r.Some? ==> r.value < |es| && Matches(es[r.value], d, clean)
    ensures r.Some? ==> forall j :: 0 <= j < r.value ==> !Matches(es[j], d, clean)
    ensures r.None? ==> forall j :: 0 <= j < |es| ==> !Matches(es[j], d, clean)
    decreases |es|
  {
    if |es| == 0 then None
    else if Matches(es[0], d, clean) then Some(0)
    else match FirstMatch(es[1..], d, clean)
      case None => None
      case Some(i) => Some(i + 1)
  }

  /** An entry appended to the store that matches is found: the first match
      is an earlier entry when there is one, the new entry otherwise. */
  lemma {:induction false} FirstMatchAppended(es: seq<Entry>, e: Entry, d: Direction, clean: string)
    requires Matches(e, d, clean)
    ensures FirstMatch(es + [e], d, clean)
      == if FirstMatch(es, d, clean).Some? then FirstMatch(es, d, clean) else Some(|es|)
  {
    var all := es + [e];
    assert all[|es|] == e;
    var m := FirstMatch(all, d, clean);
    assert m.Some?;
    var k := m.value;
    var i := match FirstMatch(es, d, clean) case Some(i) => i case None => |es|;
    assert i <= |es| && Matches(all[i], d, clean);
    assert forall j :: 0 <= j < i ==> !Matches(all[j], d, clean) by {
      forall j | 0 <= j < i ensures !Matches(all[j], d, clean) {
        assert all[j] == es[j];
      }
    }
    assert k == i;
  }

  /** Some entry of `es` maps `k` to `v` in direction `d`. */
  ghost predicate Recorded(es: seq<Entry>, d: Direction, k: string, v: string)
  {
    exists i :: 0 <= i < |es| && SourceSide(es[i], d) == k && TargetSide(es[i], d) == v
  }

  /** The term index for direction `d` after visiting `es` in store order:
      each entry maps its source side to its target side, overwriting what
      an earlier entry put under the same key. */
  function TermIndex(es: seq<Entry>, d: Direction): (r: map<string, string>)
    ensures forall k :: k in r ==> Recorded(es, d, k, r[k])
    decreases |es|
  {
    if |es| == 0 then map[]
    else
      var last := es[|es| - 1];
      TermIndex(es[..|es| - 1], d)[SourceSide(last, d) := TargetSide(last, d)]
  }

  /** Builds `enToAj` and `ajToEn` in one pass over the entries. */
  method BuildTermMaps(es: seq<Entry>) returns (enToAj: map<string, string>, ajToEn: map<string, string>)
    ensures enToAj == TermIndex(es, English)
    ensures ajToEn == TermIndex(es, ArabiJuba)
  {
    enToAj, ajToEn := map[], map[];
    var i := 0;
    while i < |es|
      invariant 0 <= i <= |es|
      invariant enToAj == TermIndex(es[..i], English)
      invariant ajToEn == TermIndex(es[..i], ArabiJuba)
    {
      var e := es[i];
      enToAj := enToAj[e.englishPhrase := e.arabiJubaPhrase];
      ajToEn := ajToEn[e.arabiJubaPhrase := e.englishPhrase];
      assert es[..i + 1][..i] == es[..i];
      i := i + 1;
    }
    assert es[..i] == es;
  }

  /** One token of the fallback: the mapped value when the index has a
      non-empty one for the lower-cased token, the token itself otherwise. */
  function Lookup(index: map<string, string>, w: string): (r: string)
    ensures Lower(w) in index && index[Lower(w)] != "" ==> r == index[Lower(w)]
    ensures Lower(w) !in index || index[Lower(w)] == "" ==> r == w
  {
    var key := Lower(w);
    if key in index && index[key] != "" then index[key] else w
  }

  /** Every token of `ws` passed through `Lookup`: one output per token, each
      the token itself or a non-empty value of the index. */
  function TranslateWords(ws: seq<string>, index: map<string, string>): (r: seq<string>)
    ensures |r| == |ws|
    ensures forall i :: 0 <= i < |ws| ==> r[i] == ws[i] || (r[i] != "" && r[i] in index.Values)
  {
    seq(|ws|, i requires 0 <= i < |ws| => Lookup(index, ws[i]))
  }

  /** The reply on an exact match: the entry's two phrases as stored, and its
      notes or "" when it has none. */
  function FromEntry(e: Entry): (r: Translation)
    ensures r.englishPhrase == e.englishPhrase && r.arabiJubaPhrase == e.arabiJubaPhrase
    ensures Blank(e.notes) ==> r.notes == Some("")
    ensures !Blank(e.notes) ==> r.notes == e.notes
  {
    Translation(e.englishPhrase, e.arabiJubaPhrase, Some(OrElse(e.notes, "")))
  }

  /** The reply of the fallback: the cleaned phrase on its own side and the
      token-by-token translation on the other. */
  function FallbackReply(d: Direction, clean: string, translated: string): (r: Translation)
    ensures SourceOf(r, d) == clean && TargetOf(r, d) == translated && r.notes == None
  {
    match d
    case English => Translation(clean, translated, None)
    case ArabiJuba => Translation(translated, clean, None)
  }

  /** The fallback reply: every token of the cleaned phrase looked up in the
      term index for `d`, joined with single spaces. */
  function Fallback(es: seq<Entry>, d: Direction, clean: string): (r: Translation)
    ensures SourceOf(r, d) == clean && r.notes == None
  {
    FallbackReply(d, clean, JoinSpace(TranslateWords(Words(clean), TermIndex(es, d))))
  }

  /** The reply for a cleaned phrase in direction `d`: the first entry that
      matches it exactly, or else the fallback. */
  function Answer(es: seq<Entry>, d: Direction, clean: string): (r: Translation)
    ensures FirstMatch(es, d, clean).Some? ==> r.notes.Some? && EqualIgnoringCase(SourceOf(r, d), clean)
    ensures FirstMatch(es, d, clean).None? ==> r.notes == None && SourceOf(r, d) == clean
  {
    match FirstMatch(es, d, clean)
    case Some(i) => FromEntry(es[i])
    case None => Fallback(es, d, clean)
  }

  /** `GET /translate?phrase=...&source=...` against the entries `es`,
      in store order. */
  function Resolve(es: seq<Entry>, phrase: Option<string>, source: Option<string>): (r: Result<Translation>)
    ensures r.Err? <==> Blank(phrase) || Blank(source)
    ensures r.Err? ==> r.failure == MissingParameter
  {
    if Blank(phrase) || Blank(source) then Err(MissingParameter)
    else Ok(Answer(es, DirectionOf(source.value), Clean(phrase.value)))
  }

  /** Last write wins: a key is in the index exactly when some entry has it on
      its source side, and then it maps to the target side of the LAST such
      entry in store order. */
  lemma {:induction false} TermIndexLastWriteWins(es: seq<Entry>, d: Direction, k: string)
    ensures k in TermIndex(es, d) <==> exists i :: 0 <= i < |es| && SourceSide(es[i], d) == k
    ensures k in TermIndex(es, d) ==>
      exists i :: 0 <= i < |es| && SourceSide(es[i], d) == k
        && TermIndex(es, d)[k] == TargetSide(es[i], d)
        && forall j :: i < j < |es| ==> SourceSide(es[j], d) != k
    decreases |es|
  {
    if |es| > 0 {
      var n := |es| - 1;
      var front := es[..n];
      TermIndexLastWriteWins(front, d, k);
      if SourceSide(es[n], d) == k {
        assert TermIndex(es, d)[k] == TargetSide(es[n], d);
      } else {
        assert TermIndex(es, d) == TermIndex(front, d)[SourceSide(es[n], d) := TargetSide(es[n], d)];
        if k in TermIndex(front, d) {
          var i :| 0 <= i < n && SourceSide(front[i], d) == k
            && TermIndex(front, d)[k] == TargetSide(front[i], d)
            && forall j :: i < j < n ==> SourceSide(front[j], d) != k;
          assert es[i] == front[i];
          assert forall j :: i < j < |es| ==> SourceSide(es[j], d) != k by {
            forall j | i < j < |es| ensures SourceSide(es[j], d) != k {
              if j < n {
                assert es[j] == front[j];
                assert SourceSide(front[j], d) != k;
              } else {
                assert j == n;
              }
            }
          }
        } else {
          forall i | 0 <= i < |es| ensures SourceSide(es[i], d) != k {
            if i < n { assert es[i] == front[i]; }
          }
        }
      }
    }
  }

  /** Entries appended after the last one with key `k` leave the index at
      `k` as it was. */
  lemma {:induction false} TermIndexUntouched(es: seq<Entry>, rest: seq<Entry>, d: Direction, k: string)
    requires forall j :: 0 <= j < |rest| ==> SourceSide(rest[j], d) != k
    ensures (k in TermIndex(es + rest, d)) == (k in TermIndex(es, d))
    ensures k in TermIndex(es, d) ==> TermIndex(es + rest, d)[k] == TermIndex(es, d)[k]
    decreases |rest|
  {
    if |rest| == 0 {
      assert es + rest == es;
    } else {
      var n := |rest| - 1;
      var all := es + rest;
      assert all[..|all| - 1] == es + rest[..n];
      assert all[|all| - 1] == rest[n];
      TermIndexUntouched(es, rest[..n], d, k);
    }
  }

  /** The duplicate-key case: of two entries with the same source side, the
      later one decides the index, whatever lies between them (including
      further entries with that key) and as long as no entry after it has
      the key. */
  lemma LaterEntryOverrides(es: seq<Entry>, d: Direction, a: Entry, mid: seq<Entry>, b: Entry, rest: seq<Entry>)
    requires SourceSide(a, d) == SourceSide(b, d)
    requires forall j :: 0 <= j < |rest| ==> SourceSide(rest[j], d) != SourceSide(a, d)
    ensures SourceSide(a, d) in TermIndex(es + [a] + mid + [b] + rest, d)
    ensures TermIndex(es + [a] + mid + [b] + rest, d)[SourceSide(a, d)] == TargetSide(b, d)
  {
    var front := es + [a] + mid + [b];
    assert front[..|front| - 1] == es + [a] + mid;
    TermIndexUntouched(front, rest, d, SourceSide(a, d));
  }

  /** The reply when the first matching entry is at `i`. */
  lemma ResolveOnMatch(es: seq<Entry>, phrase: string, source: string, i: nat)
    requires phrase != "" && source != ""
    requires FirstMatch(es, DirectionOf(source), Clean(phrase)) == Some(i)
    ensures i < |es| && Resolve(es, Some(phrase), Some(source)) == Ok(FromEntry(es[i]))
  {
    var d, clean := DirectionOf(source), Clean(phrase);
    assert Resolve(es, Some(phrase), Some(source)) == Ok(Answer(es, d, clean));
    assert Answer(es, d, clean) == FromEntry(es[i]);
  }

  /** The reply when no entry matches. */
  lemma ResolveOnNoMatch(es: seq<Entry>, phrase: string, source: string)
    requires phrase != "" && source != ""
    requires FirstMatch(es, DirectionOf(source), Clean(phrase)).None?
    ensures var d, clean := DirectionOf(source), Clean(phrase);
      Resolve(es, Some(phrase), Some(source))
        == Ok(FallbackReply(d, clean, JoinSpace(TranslateWords(Words(clean), TermIndex(es, d)))))
  {
  }

  /** An exact match answers with the first matching entry, unmodified. */
  lemma ResolveExactMatch(es: seq<Entry>, phrase: string, source: string, i: nat)
    requires phrase != "" && source != ""
    requires i < |es| && Matches(es[i], DirectionOf(source), Clean(phrase))
    requires forall j :: 0 <= j < i ==> !Matches(es[j], DirectionOf(source), Clean(phrase))
    ensures Resolve(es, Some(phrase), Some(source))
      == Ok(Translation(es[i].englishPhrase, es[i].arabiJubaPhrase, Some(OrElse(es[i].notes, ""))))
  {
    assert FirstMatch(es, DirectionOf(source), Clean(phrase)) == Some(i);
    ResolveOnMatch(es, phrase, source, i);
  }

  /** The reply to an exact match has, on the source side, a phrase equal to
      the cleaned input up to case. */
  lemma ExactMatchSourceSide(es: seq<Entry>, phrase: string, source: string)
    requires phrase != "" && source != ""
    requires FirstMatch(es, DirectionOf(source), Clean(phrase)).Some?
    ensures Resolve(es, Some(phrase), Some(source)).Ok?
    ensures Lower(SourceOf(Resolve(es, Some(phrase), Some(source)).value, DirectionOf(source))) == Clean(phrase)
  {
    var d, clean := DirectionOf(source), Clean(phrase);
    var i := FirstMatch(es, d, clean).value;
    ResolveOnMatch(es, phrase, source, i);
    assert SourceOf(FromEntry(es[i]), d) == SourceSide(es[i], d);
    CleanIdempotent(phrase);
  }

  /** `ts` translates `words` token by token through `index`: the lower-cased
      token's non-empty value when there is one, the token itself otherwise. */
  ghost predicate TokenwiseTranslation(ts: seq<string>, words: seq<string>, index: map<string, string>)
  {
    && |ts| == |words|
    && forall i :: 0 <= i < |ts| ==>
         ts[i] == if words[i] in index && index[words[i]] != "" then index[words[i]] else words[i]
  }

  /** For lower-case tokens the lookup key is the token itself. */
  lemma {:induction false} TranslateLowerCaseWords(words: seq<string>, index: map<string, string>)
    requires forall i :: 0 <= i < |words| ==> Lower(words[i]) == words[i]
    ensures TokenwiseTranslation(TranslateWords(words, index), words, index)
  {
    var ts := TranslateWords(words, index);
    forall i | 0 <= i < |ts|
      ensures ts[i] == if words[i] in index && index[words[i]] != "" then index[words[i]] else words[i]
    {
      assert ts[i] == Lookup(index, words[i]);
    }
  }

  /** Without an exact match, the source side of the reply is the cleaned
      phrase and the other side joins, with single spaces, one translated
      token per whitespace-separated token of the cleaned phrase. */
  lemma ResolveFallback(es: seq<Entry>, phrase: string, source: string)
    requires phrase != "" && source != ""
    requires forall j :: 0 <= j < |es| ==> !Matches(es[j], DirectionOf(source), Clean(phrase))
    ensures exists ts ::
      (&& TokenwiseTranslation(ts, Words(Clean(phrase)), TermIndex(es, DirectionOf(source)))
       && Resolve(es, Some(phrase), Some(source))
          == Ok(FallbackReply(DirectionOf(source), Clean(phrase), JoinSpace(ts))))
  {
    var d := DirectionOf(source);
    var clean := Clean(phrase);
    var words := Words(clean);
    var index := TermIndex(es, d);
    assert FirstMatch(es, d, clean).None?;
    ResolveOnNoMatch(es, phrase, source);
    CleanIdempotent(phrase);
    WordsKeepLowerCase(clean);
    TranslateLowerCaseWords(words, index);
  }

  /** The fallback keeps the number of tokens: when every target phrase in the
      store is a single non-empty word, the translation splits back into as
      many tokens as the cleaned phrase has. */
  lemma FallbackTokenCount(es: seq<Entry>, phrase: string, source: string)
    requires phrase != "" && source != "" && Clean(phrase) != ""
    requires forall j :: 0 <= j < |es| ==> !Matches(es[j], DirectionOf(source), Clean(phrase))
    requires forall j :: 0 <= j < |es| ==> SpaceFree(TargetSide(es[j], DirectionOf(source)))
    ensures Resolve(es, Some(phrase), Some(source)).Ok?
    ensures var d := DirectionOf(source);
      |Words(TargetOf(Resolve(es, Some(phrase), Some(source)).value, d))| == |Words(Clean(phrase))|
  {
    var d := DirectionOf(source);
    var clean := Clean(phrase);
    var words := Words(clean);
    var index := TermIndex(es, d);
    var ts := TranslateWords(words, index);
    CleanIdempotent(phrase);
    WordsOfStripped(clean);
    forall i | 0 <= i < |ts| ensures ts[i] != "" && SpaceFree(ts[i]) {
      if ts[i] != words[i] {
        var k :| k in index && index[k] == ts[i];
        assert Recorded(es, d, k, index[k]);
        var j :| 0 <= j < |es| && SourceSide(es[j], d) == k && TargetSide(es[j], d) == index[k];
      }
    }
    WordsJoinSpace(ts);
    ResolveOnNoMatch(es, phrase, source);
    assert TargetOf(FallbackReply(d, clean, JoinSpace(ts)), d) == JoinSpace(ts);
  }

  /** Normalization: phrases with the same trimmed, lower-cased form get the
      same reply, so " Hello " and "hello" are answered alike. */
  lemma ResolveNormalizes(es: seq<Entry>, phrase: string, source: string)
    requires phrase != "" && Clean(phrase) != ""
    ensures Resolve(es, Some(phrase), Some(source)) == Resolve(es, Some(Clean(phrase)), Some(source))
  {
    CleanIdempotent(phrase);
  }

  /** Phrases with the same normal form get the same reply. */
  lemma ResolveSameClean(es: seq<Entry>, a: string, b: string, source: string)
    requires a != "" && b != "" && Clean(a) == Clean(b)
    ensures Resolve(es, Some(a), Some(source)) == Resolve(es, Some(b), Some(source))
  {
  }

  /** Every `source` other than "english", valid or not, is answered as Arabi
      Juba. */
  lemma ResolveOtherSourceIsArabiJuba(es: seq<Entry>, phrase: Option<string>, source: string)
    requires source != "" && source != "english"
    ensures Resolve(es, phrase, Some(source)) == Resolve(es, phrase, Some("arabiJuba"))
  {
  }
}
