/** `languages.py`: the backup signed language of a regional variant, and the
    set of signed languages a lookup may fall back to. */
module Languages {

  /** Swiss-Italian falls back to Italian, Swiss-French to French. */
  const LANGUAGE_BACKUP: map<string, string> := map["slf" := "ise", "ssr" := "fsl"]

  /** No backup language has a backup of its own. */
  lemma NoBackupOfBackup()
    ensures forall l :: l in LANGUAGE_BACKUP ==> LANGUAGE_BACKUP[l] !in LANGUAGE_BACKUP
  {
  }

  /** `languages_set(l)`: `l` together with the languages of its backup.
      The recursion is one level deep because no backup is itself a key. */
  function LanguagesSet(l: string): (r: set<string>)
    decreases if l in LANGUAGE_BACKUP then 1 else 0
  {
    NoBackupOfBackup();
    if l in LANGUAGE_BACKUP then {l} + LanguagesSet(LANGUAGE_BACKUP[l]) else {l}
  }

  /** The language itself is always in its set. */
  lemma LanguagesSetContains(l: string)
    ensures l in LanguagesSet(l)
  {
  }

  /** A language without a backup stands alone. */
  lemma LanguagesSetOfNonKey(l: string)
    requires l !in LANGUAGE_BACKUP
    ensures LanguagesSet(l) == {l}
  {
  }

  /** A language with a backup adds exactly that backup. */
  lemma LanguagesSetOfKey(l: string)
    requires l in LANGUAGE_BACKUP
    ensures LanguagesSet(l) == {l, LANGUAGE_BACKUP[l]}
  {
    NoBackupOfBackup();
  }

  lemma LanguagesSetExamples()
    ensures LanguagesSet("slf") == {"slf", "ise"}
    ensures LanguagesSet("ssr") == {"ssr", "fsl"}
    ensures LanguagesSet("sgg") == {"sgg"}
  {
    LanguagesSetOfKey("slf");
    LanguagesSetOfKey("ssr");
    LanguagesSetOfNonKey("sgg");
  }
}
