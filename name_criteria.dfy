/**
 * The name restriction: one restriction per word of the name, each word
 * matched either exactly (short words) or with `like` (long words) against
 * the four parts of a person name, and every word after the first also
 * tried as the phrase of all the words up to it.
 */
module NameCriteria {
  import opened Text
  import opened Criteria
  import opened Tokenizer

  /** The setting value that selects matching anywhere in a name. */
  const MatchModeAnywhere: string := "anywhere"

  /** getMatchMode: ANYWHERE when the setting is "anywhere" in any letter
      case, START for every other value (the default included). */
  function GetMatchMode(configured: string): MatchMode {
    if EqualsIgnoreCase(configured, MatchModeAnywhere) then Anywhere else Start
  }

  /** Only the setting's length and its letters up to case decide the mode. */
  lemma MatchModeAnywhereIff(configured: string)
    ensures GetMatchMode(configured) == Anywhere <==>
      |configured| == 8 && forall i :: 0 <= i < 8 ==> ToLowerAscii(configured[i]) == MatchModeAnywhere[i]
  {
  }

  /** Two settings that differ only in letter case select the same mode. */
  lemma MatchModeIgnoresCase(a: string, b: string)
    requires EqualsIgnoreCase(a, b)
    ensures GetMatchMode(a) == GetMatchMode(b)
  {
  }

  /** The configurations the source's tests describe. */
  lemma MatchModeExamples()
    ensures GetMatchMode("anywhere") == Anywhere
    ensures GetMatchMode("ANYWHERE") == Anywhere
    ensures GetMatchMode("Anywhere") == Anywhere
    ensures GetMatchMode("start") == Start
    ensures GetMatchMode("") == Start
    ensures GetMatchMode("anywhere ") == Start
  {
    assert EqualsIgnoreCase("ANYWHERE", MatchModeAnywhere);
    assert EqualsIgnoreCase("Anywhere", MatchModeAnywhere);
    assert !EqualsIgnoreCase("start", MatchModeAnywhere);
  }

  /** isShortName: a name shorter than the minimum number of search
      characters; null is never short. */
  predicate IsShortName(name: Option<string>, minSearchCharacters: int) {
    name.Some? && |name.value| < minSearchCharacters
  }

  /** The parts of a person name a word is compared with, in the source's order. */
  const NameFields: seq<Field> := [GivenName, MiddleName, FamilyName, FamilyName2]

  /** How a word is compared with a name part: exactly, ignoring case, or
      with `like` under a match mode. */
  datatype Comparison = Exactly(word: string) | Matching(word: string, mode: MatchMode)

  /** The comparison of one name part. */
  function Compare(c: Comparison, f: Field): Predicate {
    match c
    case Exactly(w) => Eq(f, StringValue(w), true)
    case Matching(w, mode) => Like(f, w, mode)
  }

  /** The shape every name criterion has: the name is not voided, and one of
      the four name parts satisfies the comparison made for it. */
  predicate IsNameComparison(p: Predicate, c: Comparison) {
    && p.And? && |p.conjuncts| == 2
    && p.conjuncts[0] == NameNotVoided
    && p.conjuncts[1].Or? && |p.conjuncts[1].disjuncts| == |NameFields|
    && forall i :: 0 <= i < |NameFields| ==> p.conjuncts[1].disjuncts[i] == Compare(c, NameFields[i])
  }

  /** getCriterionForShortName */
  function ShortNameCriterion(name: string): (p: Predicate)
    ensures IsNameComparison(p, Exactly(name))
  {
    And([NameNotVoided,
         Or([Eq(GivenName, StringValue(name), true),
             Eq(MiddleName, StringValue(name), true),
             Eq(FamilyName, StringValue(name), true),
             Eq(FamilyName2, StringValue(name), true)])])
  }

  /** getCriterionForLongName */
  function LongNameCriterion(name: string, mode: MatchMode): (p: Predicate)
    ensures IsNameComparison(p, Matching(name, mode))
  {
    And([NameNotVoided,
         Or([Like(GivenName, name, mode),
             Like(MiddleName, name, mode),
             Like(FamilyName, name, mode),
             Like(FamilyName2, name, mode)])])
  }

  /** getCriterionForName: exact comparisons for a short name, `like` under
      the configured match mode for a long one. */
  function CriterionForName(name: string, settings: Settings): Predicate {
    if IsShortName(Some(name), settings.minSearchCharacters) then ShortNameCriterion(name)
    else LongNameCriterion(name, GetMatchMode(settings.searchMatchMode))
  }

  /** A name is compared exactly, ignoring case, when it is shorter than the
      minimum, and with `like` under the configured mode otherwise; either
      way the name itself is what every part is compared with. */
  lemma CriterionForNameDispatch(name: string, settings: Settings)
    ensures |name| < settings.minSearchCharacters ==>
      IsNameComparison(CriterionForName(name, settings), Exactly(name))
    ensures |name| >= settings.minSearchCharacters ==>
      IsNameComparison(CriterionForName(name, settings), Matching(name, GetMatchMode(settings.searchMatchMode)))
  {
  }

  /** With three minimum characters, "jo" is matched exactly and "joh" with `like`. */
  lemma ShortLongBoundary(settings: Settings)
    requires settings.minSearchCharacters == 3
    ensures CriterionForName("jo", settings) == ShortNameCriterion("jo")
    ensures CriterionForName("joh", settings) == LongNameCriterion("joh", GetMatchMode(settings.searchMatchMode))
  {
  }

  /** The phrase of the first i + 1 words, separated by single spaces (the
      source's multiName after word i). */
  function Phrase(parts: seq<string>, i: nat): string
    requires i < |parts|
  {
    Join(parts[..i + 1], " ")
  }

  /** Child i of the name conjunction: the first word alone; every later
      word alone or the phrase ending with it. */
  function NameConjunct(parts: seq<string>, i: nat, settings: Settings): Predicate
    requires i < |parts|
  {
    if i == 0 then CriterionForName(parts[0], settings)
    else Or([CriterionForName(parts[i], settings), CriterionForName(Phrase(parts, i), settings)])
  }

  /** The conjunction of one child per word. */
  function NameTreeOfParts(parts: seq<string>, settings: Settings): Predicate {
    And(seq(|parts|, i requires 0 <= i < |parts| => NameConjunct(parts, i, settings)))
  }

  /** What prepareCriterionForName returns: the conjunction over the words of
      the escaped name; a null name is rejected by the tokenizer. */
  function NameTree(name: Option<string>, settings: Settings, dialect: Dialect): (r: Result<Predicate>)
    ensures r.Failure? <==> name.None?
    ensures r.Failure? ==> r.error == IllegalArgument("query must not be null")
  {
    match EscapeNullable(dialect, name)
    case None => Failure(IllegalArgument("query must not be null"))
    case Some(escaped) => Success(NameTreeOfParts(QueryParts(escaped), settings))
  }

  /** One child per word, the first word alone, every later word alone or
      as the end of the phrase of the words so far. */
  lemma NameTreeShape(parts: seq<string>, settings: Settings)
    ensures var p := NameTreeOfParts(parts, settings);
      && p.And? && |p.conjuncts| == |parts|
      && (|parts| > 0 ==> p.conjuncts[0] == CriterionForName(parts[0], settings))
      && forall i :: 0 < i < |parts| ==>
           p.conjuncts[i] == Or([CriterionForName(parts[i], settings),
                                 CriterionForName(Join(parts[..i + 1], " "), settings)])
  {
  }

  /** A name without words (empty, or only commas and blanks) gives the
      empty conjunction, which restricts nothing. */
  lemma {:induction false} NameTreeOfNoWords(name: string, settings: Settings, dialect: Dialect)
    requires NoWordCharacters(dialect.escape(name))
    ensures NameTree(Some(name), settings, dialect) == Success(And([]))
  {
    QueryPartsEmptyIff(dialect.escape(name));
    assert NameTreeOfParts([], settings).conjuncts == [];
  }

  /** The phrase of word i tokenizes back to the words up to i, and it is at
      least as long as word i, so a long word never has a short phrase. */
  lemma {:induction false} PhraseOfQueryParts(query: string, i: nat, settings: Settings)
    requires i < |QueryParts(query)|
    ensures var parts := QueryParts(query);
      && QueryParts(Phrase(parts, i)) == parts[..i + 1]
      && |Phrase(parts, i)| >= |parts[i]|
      && (!IsShortName(Some(parts[i]), settings.minSearchCharacters) ==>
            !IsShortName(Some(Phrase(parts, i)), settings.minSearchCharacters))
  {
    var parts := QueryParts(query);
    var ws := parts[..i + 1];
    assert Phrase(parts, i) == Join(ws, " ");
    forall w | w in ws
      ensures IsWord(w)
    {
      QueryPartsWellFormed(query);
      assert w in parts;
    }
    JoinedWordsRetokenize(ws);
    assert ws[|ws| - 1] == parts[i];
    PhraseEndsWithWord(ws);
  }

  /** A joined phrase ends with its last word. */
  lemma {:induction false} PhraseEndsWithWord(ws: seq<string>)
    requires |ws| > 0
    ensures |Join(ws, " ")| >= |ws[|ws| - 1]|
    ensures Join(ws, " ")[|Join(ws, " ")| - |ws[|ws| - 1]|..] == ws[|ws| - 1]
    decreases |ws|
  {
    if |ws| > 1 {
      var init := ws[..|ws| - 1];
      assert ws == init + [ws[|ws| - 1]];
      JoinAppend(init, ws[|ws| - 1], " ");
    }
  }
}
