/** The interface texts: a table per language of nested sections whose leaves are phrases, looked
    up by a dotted key such as `appointmentTypes.checkup`. The Macedonian table itself is data
    and is a parameter here. */
module Translations {
  import opened Wrappers
  import opened Text

  /** A value in the table: a phrase, or a section of named entries. */
  datatype Entry = Phrase(text: string) | Section(entries: map<string, Entry>)

  /** `defaultLanguage` */
  const DefaultLanguage := "mk"

  /** The entry at the end of the path `keys` from `value`, or `None` as soon as a segment cannot be
      followed: when `value` is missing, is a phrase, or is a section without that name. */
  function Follow(value: Option<Entry>, keys: seq<string>): Option<Entry>
    decreases |keys|
  {
    if keys == [] then value
    else if value.Some? && value.value.Section? && keys[0] in value.value.entries then
      Follow(Some(value.value.entries[keys[0]]), keys[1..])
    else None
  }

  /** The table of a language, `translations[language]`. */
  function LanguageTable(translations: map<string, Entry>, language: string): Option<Entry> {
    if language in translations then Some(translations[language]) else None
  }

  /** What getTranslation answers: the phrase at the end of the key's path, or the key itself. */
  function Translate(translations: map<string, Entry>, key: string, language: string): string {
    match Follow(LanguageTable(translations, language), Split(key, '.'))
    case Some(Phrase(text)) => text
    case _ => key
  }

  /** getTranslation: the loop over the key's segments. */
  method GetTranslation(translations: map<string, Entry>, key: string, language: string) returns (r: string)
    ensures r == Translate(translations, key, language)
  {
    var keys := Split(key, '.');
    var value := LanguageTable(translations, language);
    ghost var start := value;
    for i := 0 to |keys|
      invariant Follow(start, keys) == Follow(value, keys[i..])
    {
      assert keys[i..][1..] == keys[i + 1..];
      if value.Some? && value.value.Section? && keys[i] in value.value.entries {
        value := Some(value.value.entries[keys[i]]);
      } else {
        return key;
      }
    }
    assert keys[|keys|..] == [];
    if value.Some? && value.value.Phrase? {
      r := value.value.text;
    } else {
      r := key;
    }
  }

  /** useTranslation's `t`: getTranslation with the language fixed. */
  function UseTranslation(translations: map<string, Entry>, language: string): (t: string -> string)
    ensures forall key :: t(key) == Translate(translations, key, language)
  {
    key => Translate(translations, key, language)
  }

  /** Following a path in two legs is following it at once. */
  lemma {:induction false} FollowAppend(value: Option<Entry>, a: seq<string>, b: seq<string>)
    ensures Follow(value, a + b) == Follow(Follow(value, a), b)
    decreases |a|
  {
    if a == [] {
      assert a + b == b;
    } else {
      assert (a + b)[1..] == a[1..] + b;
      if value.Some? && value.value.Section? && a[0] in value.value.entries {
        FollowAppend(Some(value.value.entries[a[0]]), a[1..], b);
      } else {
        FollowNone(b);
      }
    }
  }

  /** Nothing is found below a missing entry. */
  lemma {:induction false} FollowNone(keys: seq<string>)
    ensures Follow(None, keys) == None
  {
  }

  /** A phrase stored at a path of dot-free names is found under the key that joins them with
      dots. */
  lemma TranslateFound(translations: map<string, Entry>, language: string, path: seq<string>, text: string)
    requires |path| >= 1 && forall k | 0 <= k < |path| :: '.' !in path[k]
    requires Follow(LanguageTable(translations, language), path) == Some(Phrase(text))
    ensures Translate(translations, Join(path, "."), language) == text
  {
    SplitJoin(path, '.');
  }

  /** The answer is the key unless the key's path ends at a phrase, and then it is that phrase. */
  lemma TranslateMeaning(translations: map<string, Entry>, key: string, language: string)
    ensures var r := Translate(translations, key, language);
      var at := Follow(LanguageTable(translations, language), Split(key, '.'));
      (at.Some? && at.value.Phrase? ==> r == at.value.text) && (!(at.Some? && at.value.Phrase?) ==> r == key)
  {
  }

  /** An unknown language gives back the key. */
  lemma UnknownLanguageGivesKey(translations: map<string, Entry>, key: string, language: string)
    requires language !in translations
    ensures Translate(translations, key, language) == key
  {
    FollowNone(Split(key, '.')[1..]);
  }

  /** A segment that cannot be followed gives back the key: the path up to it leads to a phrase, or
      to a section without that name. */
  lemma MissingSegmentGivesKey(translations: map<string, Entry>, key: string, language: string, i: nat)
    requires i < |Split(key, '.')|
    requires var at := Follow(LanguageTable(translations, language), Split(key, '.')[..i]);
      at.Some? && (at.value.Phrase? || Split(key, '.')[i] !in at.value.entries)
    ensures Translate(translations, key, language) == key
  {
    var keys := Split(key, '.');
    assert keys == keys[..i] + keys[i..];
    FollowAppend(LanguageTable(translations, language), keys[..i], keys[i..]);
    FollowNone(keys[i + 1..]);
  }

  /** A key whose path ends at a section, not a phrase, gives back the key. */
  lemma SectionGivesKey(translations: map<string, Entry>, key: string, language: string)
    requires Follow(LanguageTable(translations, language), Split(key, '.')).Some?
    requires Follow(LanguageTable(translations, language), Split(key, '.')).value.Section?
    ensures Translate(translations, key, language) == key
  {
  }
}
