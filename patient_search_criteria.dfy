/**
 * PatientSearchCriteria: the object that adds the patient-search
 * restrictions to a Hibernate criteria. Its `criteria` field is the list of
 * restrictions added so far; the builders read the SQL dialect it was
 * created with and the settings of the administration service.
 */
module PatientSearch {
  import opened Text
  import opened Criteria
  import opened SearchMode
  import opened Tokenizer
  import opened NameCriteria
  import opened IdentifierCriteria
  import opened SearchString

  /** The type restriction, if any, as the restrictions it adds. */
  function TypeFilterList(t: IdentifierRestriction): seq<Predicate> {
    match t.typeFilter
    case None => []
    case Some(f) => [f]
  }

  /** One searchable-attribute restriction per word of the escaped query. */
  function AttributeTree(query: Option<string>, dialect: Dialect): (r: Result<Predicate>)
    ensures r.Failure? <==> query.None?
  {
    match EscapeNullable(dialect, query)
    case None => Failure(IllegalArgument("query must not be null"))
    case Some(q) => Success(AttributeTreeOfParts(QueryParts(q)))
  }

  function AttributeTreeOfParts(parts: seq<string>): Predicate {
    And(seq(|parts|, i requires 0 <= i < |parts| => Attr(parts[i])))
  }

  /** What the PATIENT_SEARCH_BY_NAME case adds: the name restriction. */
  function NameSearch(name: Option<string>, settings: Settings, dialect: Dialect): Result<seq<Predicate>> {
    match NameTree(name, settings, dialect)
    case Failure(e) => Failure(e)
    case Success(n) => Success([n])
  }

  /** What the PATIENT_SEARCH_BY_IDENTIFIER case adds: the identifier-type
      restriction, if any, while the identifier restriction is built, then
      the identifier restriction. */
  function IdentifierSearch(identifier: Option<string>, identifierTypes: seq<IdentifierType>,
                            matchIdentifierExactly: bool, settings: Settings, dialect: Dialect): seq<Predicate> {
    var t := IdentifierTree(identifier, identifierTypes, matchIdentifierExactly, settings, dialect);
    TypeFilterList(t) + [t.conjunction]
  }

  /** What the PATIENT_SEARCH_BY_NAME_OR_IDENTIFIER case adds: a blank name
      takes the identifier, then a blank identifier takes the (new) name, and
      the OR of the two restrictions is added after the identifier-type
      restriction. The name builder runs first; when it fails, nothing is added. */
  function NameOrIdentifierSearch(name: Option<string>, identifier: Option<string>,
                                  identifierTypes: seq<IdentifierType>, matchIdentifierExactly: bool,
                                  settings: Settings, dialect: Dialect): Result<seq<Predicate>> {
    var name' := CopySearchParameter(identifier, name);
    var identifier' := CopySearchParameter(name', identifier);
    match NameTree(name', settings, dialect)
    case Failure(e) => Failure(e)
    case Success(n) =>
      var t := IdentifierTree(identifier', identifierTypes, matchIdentifierExactly, settings, dialect);
      Success(TypeFilterList(t) + [Or([n, t.conjunction])])
  }

  /** What the PATIENT_SEARCH_BY_NAME_AND_IDENTIFIER case adds: the name
      restriction, then what the identifier case adds. When the name builder
      fails, nothing is added. */
  function NameAndIdentifierSearch(name: Option<string>, identifier: Option<string>,
                                   identifierTypes: seq<IdentifierType>, matchIdentifierExactly: bool,
                                   settings: Settings, dialect: Dialect): Result<seq<Predicate>> {
    match NameTree(name, settings, dialect)
    case Failure(e) => Failure(e)
    case Success(n) =>
      Success([n] + IdentifierSearch(identifier, identifierTypes, matchIdentifierExactly, settings, dialect))
  }

  /** What the switch over the search mode adds. */
  function ModeRestrictions(mode: PatientSearchMode, name: Option<string>, identifier: Option<string>,
                            identifierTypes: seq<IdentifierType>, matchIdentifierExactly: bool,
                            settings: Settings, dialect: Dialect): Result<seq<Predicate>>
  {
    match mode
    case ByName => NameSearch(name, settings, dialect)
    case ByIdentifier =>
      Success(IdentifierSearch(identifier, identifierTypes, matchIdentifierExactly, settings, dialect))
    case ByNameOrIdentifier =>
      NameOrIdentifierSearch(name, identifier, identifierTypes, matchIdentifierExactly, settings, dialect)
    case ByNameAndIdentifier =>
      NameAndIdentifierSearch(name, identifier, identifierTypes, matchIdentifierExactly, settings, dialect)
  }

  /** The restrictions prepareCriteria adds to the criteria, in order: what
      the case of the search mode adds, then the patient not being voided.
      A null name that reaches the name builder makes it fail, and nothing
      is added. */
  function Compose(name: Option<string>, identifier: Option<string>, identifierTypes: seq<IdentifierType>,
                   matchIdentifierExactly: bool, searchOnNamesOrIdentifiers: bool,
                   settings: Settings, dialect: Dialect): Result<seq<Predicate>>
  {
    var mode := GetSearchMode(name, identifier, identifierTypes, searchOnNamesOrIdentifiers);
    match ModeRestrictions(mode, name, identifier, identifierTypes, matchIdentifierExactly, settings, dialect)
    case Failure(e) => Failure(e)
    case Success(added) => Success(added + [PatientNotVoided])
  }

  /** prepareCriteria fails exactly when the name builder is reached with a
      null name: no name, no identifier, and either the combined search or
      no identifier types. It then fails with the tokenizer's message. */
  lemma ComposeFailsIff(name: Option<string>, identifier: Option<string>, identifierTypes: seq<IdentifierType>,
                        matchIdentifierExactly: bool, searchOnNamesOrIdentifiers: bool,
                        settings: Settings, dialect: Dialect)
    ensures var r := Compose(name, identifier, identifierTypes, matchIdentifierExactly,
                             searchOnNamesOrIdentifiers, settings, dialect);
      && (r.Failure? <==>
            name.None? && IsBlank(identifier) && (searchOnNamesOrIdentifiers || |identifierTypes| == 0))
      && (r.Failure? ==> r.error == IllegalArgument("query must not be null"))
  {
    var mode := GetSearchMode(name, identifier, identifierTypes, searchOnNamesOrIdentifiers);
    if mode == ByNameOrIdentifier {
      MirrorSearchParameters(name, identifier);
    }
  }

  /** Every case adds at least one restriction when it succeeds. */
  lemma ModeRestrictionsNonEmpty(mode: PatientSearchMode, name: Option<string>, identifier: Option<string>,
                                 identifierTypes: seq<IdentifierType>, matchIdentifierExactly: bool,
                                 settings: Settings, dialect: Dialect)
    ensures match ModeRestrictions(mode, name, identifier, identifierTypes, matchIdentifierExactly, settings, dialect)
      case Failure(_) => true
      case Success(added) => |added| >= 1
  {
  }

  /** A successful search always ends with the patient not being voided,
      after at least one restriction of its own. */
  lemma ComposeEndsWithPatientNotVoided(name: Option<string>, identifier: Option<string>,
                                        identifierTypes: seq<IdentifierType>, matchIdentifierExactly: bool,
                                        searchOnNamesOrIdentifiers: bool, settings: Settings, dialect: Dialect)
    ensures match Compose(name, identifier, identifierTypes, matchIdentifierExactly,
                          searchOnNamesOrIdentifiers, settings, dialect)
      case Failure(_) => true
      case Success(added) => |added| >= 2 && added[|added| - 1] == PatientNotVoided
  {
    var mode := GetSearchMode(name, identifier, identifierTypes, searchOnNamesOrIdentifiers);
    ModeRestrictionsNonEmpty(mode, name, identifier, identifierTypes, matchIdentifierExactly, settings, dialect);
  }

  /** The identifier-type restriction for the given types is listed exactly
      when types are given, and no other type restriction is. */
  predicate TypeFilterOnlyFor(added: seq<Predicate>, identifierTypes: seq<IdentifierType>) {
    && (InTypes(IdentifierTypeRef, identifierTypes) in added <==> |identifierTypes| > 0)
    && forall i :: 0 <= i < |added| && added[i].InTypes? ==> added[i] == InTypes(IdentifierTypeRef, identifierTypes)
  }

  /** The identifier case lists the type restriction when types are given,
      beside (not inside) the identifier restriction. */
  lemma IdentifierSearchTypeFilter(identifier: Option<string>, identifierTypes: seq<IdentifierType>,
                                   matchIdentifierExactly: bool, settings: Settings, dialect: Dialect)
    ensures TypeFilterOnlyFor(IdentifierSearch(identifier, identifierTypes, matchIdentifierExactly, settings, dialect),
                              identifierTypes)
  {
    IdentifierTreeShape(identifier, identifierTypes, matchIdentifierExactly, settings, dialect);
  }

  /** Every case that builds the identifier restriction lists the type
      restriction beside it; the name case is only chosen without types. */
  lemma ModeRestrictionsTypeFilter(mode: PatientSearchMode, name: Option<string>, identifier: Option<string>,
                                   identifierTypes: seq<IdentifierType>, matchIdentifierExactly: bool,
                                   settings: Settings, dialect: Dialect)
    requires mode == ByName ==> |identifierTypes| == 0
    ensures match ModeRestrictions(mode, name, identifier, identifierTypes, matchIdentifierExactly, settings, dialect)
      case Failure(_) => true
      case Success(added) => TypeFilterOnlyFor(added, identifierTypes)
  {
    match mode
    case ByName =>
    case ByIdentifier =>
      IdentifierSearchTypeFilter(identifier, identifierTypes, matchIdentifierExactly, settings, dialect);
    case ByNameOrIdentifier =>
      var identifier' := CopySearchParameter(CopySearchParameter(identifier, name), identifier);
      IdentifierTreeShape(identifier', identifierTypes, matchIdentifierExactly, settings, dialect);
    case ByNameAndIdentifier =>
      IdentifierSearchTypeFilter(identifier, identifierTypes, matchIdentifierExactly, settings, dialect);
      var n := NameTree(name, settings, dialect);
      if n.Success? {
        var rest := IdentifierSearch(identifier, identifierTypes, matchIdentifierExactly, settings, dialect);
        assert ModeRestrictions(mode, name, identifier, identifierTypes, matchIdentifierExactly, settings, dialect)
               == Success([n.value] + rest);
        assert n.value.And?;
      }
  }

  /** The identifier-type restriction goes to the outer criteria, never
      inside the name or identifier restriction: a successful search lists
      it at the top level exactly when identifier types are given. */
  lemma TypeFilterAtTopLevel(name: Option<string>, identifier: Option<string>,
                             identifierTypes: seq<IdentifierType>, matchIdentifierExactly: bool,
                             searchOnNamesOrIdentifiers: bool, settings: Settings, dialect: Dialect)
    ensures match Compose(name, identifier, identifierTypes, matchIdentifierExactly,
                          searchOnNamesOrIdentifiers, settings, dialect)
      case Failure(_) => true
      case Success(added) => TypeFilterOnlyFor(added, identifierTypes)
  {
    var mode := GetSearchMode(name, identifier, identifierTypes, searchOnNamesOrIdentifiers);
    ModeRestrictionsTypeFilter(mode, name, identifier, identifierTypes, matchIdentifierExactly, settings, dialect);
  }

  /** In the combined search a value given on one side only is searched
      both as a name and as an identifier. */
  lemma SingleValueSearchedBothWays(name: Option<string>, identifier: Option<string>,
                                    identifierTypes: seq<IdentifierType>, matchIdentifierExactly: bool,
                                    settings: Settings, dialect: Dialect)
    requires IsBlank(name) != IsBlank(identifier)
    ensures var v := if IsBlank(name) then identifier else name;
      var t := IdentifierTree(v, identifierTypes, matchIdentifierExactly, settings, dialect);
      && v.Some?
      && Compose(name, identifier, identifierTypes, matchIdentifierExactly, true, settings, dialect) ==
         Success(TypeFilterList(t) + [Or([NameTree(v, settings, dialect).value, t.conjunction]), PatientNotVoided])
  {
    var v := if IsBlank(name) then identifier else name;
    var t := IdentifierTree(v, identifierTypes, matchIdentifierExactly, settings, dialect);
    var name' := CopySearchParameter(identifier, name);
    assert name' == v && CopySearchParameter(name', identifier) == v by {
      MirrorSearchParameters(name, identifier);
    }
    var n := NameTree(v, settings, dialect);
    assert n.Success?;
    var added := TypeFilterList(t) + [Or([n.value, t.conjunction])];
    assert NameOrIdentifierSearch(name, identifier, identifierTypes, matchIdentifierExactly, settings, dialect)
           == Success(added);
    assert added + [PatientNotVoided] == TypeFilterList(t) + [Or([n.value, t.conjunction]), PatientNotVoided];
  }

  /** A name without words, no identifier and no types (the search that
      lists everyone) restricts nothing but voided records. With the
      combined search this holds when the name is blank; a name such as
      ",,," is not blank, is copied into the identifier and is searched
      there. */
  lemma BlankSearchOnlyVoided(name: string, matchIdentifierExactly: bool, searchOnNamesOrIdentifiers: bool,
                              settings: Settings, dialect: Dialect)
    requires NoWordCharacters(dialect.escape(name))
    requires searchOnNamesOrIdentifiers ==> IsBlank(Some(name))
    ensures var r := Compose(Some(name), None, [], matchIdentifierExactly, searchOnNamesOrIdentifiers,
                             settings, dialect);
      r.Success? && forall p | p in r.value :: OnlyVoidedChecks(p)
  {
    NameTreeOfNoWords(name, settings, dialect);
    IdentifierTreeShape(None, [], matchIdentifierExactly, settings, dialect);
    assert OnlyVoidedChecks(And([IdentifierNotVoided]));
    if searchOnNamesOrIdentifiers {
      MirrorSearchParameters(Some(name), None);
      assert OnlyVoidedChecks(Or([And([]), And([IdentifierNotVoided])]));
    }
  }

  /** The restrictions the single-query prepareCriteria adds: the query as a
      name, as attributes or as an identifier (any type, not exact), then the
      patient not being voided. */
  function ComposeQuery(query: Option<string>, settings: Settings, dialect: Dialect): Result<seq<Predicate>> {
    match NameTree(query, settings, dialect)
    case Failure(e) => Failure(e)
    case Success(n) =>
      match AttributeTree(query, dialect)
      case Failure(e) => Failure(e)
      case Success(a) =>
        var t := IdentifierTree(query, [], false, settings, dialect);
        Success(TypeFilterList(t) + [Or([n, a, t.conjunction]), PatientNotVoided])
  }

  /** The loop of prepareCriterionForName over the words: each word's
      criterion, and after the first word an OR with the criterion of the
      phrase built so far. */
  method NameConjunction(parts: seq<string>, settings: Settings) returns (conjunction: Predicate)
    requires forall w | w in parts :: w != []
    ensures conjunction == NameTreeOfParts(parts, settings)
  {
    var conjuncts: seq<Predicate> := [];
    if |parts| > 0 {
      var multiName := parts[0];
      for i := 0 to |parts|
        invariant |conjuncts| == i
        invariant forall j :: 0 <= j < i ==> conjuncts[j] == NameConjunct(parts, j, settings)
        invariant multiName == Join(parts[..if i == 0 then 1 else i], " ")
      {
        var singleName := parts[i];
        assert singleName in parts;
        if |singleName| > 0 {
          var criterion := CriterionForName(singleName, settings);
          if i > 0 {
            assert parts[..i + 1] == parts[..i] + [singleName];
            JoinAppend(parts[..i], singleName, " ");
            multiName := multiName + " " + singleName;
            criterion := Or([criterion, CriterionForName(multiName, settings)]);
          }
          conjuncts := conjuncts + [criterion];
        }
      }
    }
    return And(conjuncts);
  }

  /** The loop of prepareCriterionForAttribute: one attribute restriction per word. */
  method AttributeConjunction(parts: seq<string>) returns (conjunction: Predicate)
    ensures conjunction == AttributeTreeOfParts(parts)
  {
    var conjuncts: seq<Predicate> := [];
    for k := 0 to |parts|
      invariant |conjuncts| == k
      invariant forall j :: 0 <= j < k ==> conjuncts[j] == Attr(parts[j])
    {
      conjuncts := conjuncts + [Attr(parts[k])];
    }
    return And(conjuncts);
  }

  /** The single-query search fails exactly for a null query; otherwise it
      adds one OR of the name, attribute and identifier restrictions, the
      identifier one a search that is not exact, over no identifier types,
      so that no type restriction is listed, and then the patient not being voided. */
  lemma QueryShape(query: Option<string>, settings: Settings, dialect: Dialect)
    ensures var r := ComposeQuery(query, settings, dialect);
      && (r.Failure? <==> query.None?)
      && (r.Failure? ==> r.error == IllegalArgument("query must not be null"))
      && (r.Success? ==>
            && |r.value| == 2 && r.value[1] == PatientNotVoided
            && r.value[0].Or? && |r.value[0].disjuncts| == 3
            && r.value[0].disjuncts[0] == NameTree(query, settings, dialect).value
            && r.value[0].disjuncts[1] == AttributeTree(query, dialect).value
            && r.value[0].disjuncts[2] ==
                 And([IdentifierNotVoided, FuzzyIdentifierCriterion(dialect.escape(query.value), settings, dialect)])
            && TypeFilterOnlyFor(r.value, []))
  {
    if query.Some? {
      var n := NameTree(query, settings, dialect);
      var a := AttributeTree(query, dialect);
      var t := IdentifierTree(query, [], false, settings, dialect);
      assert t.typeFilter == None;
      assert t.conjunction ==
        And([IdentifierNotVoided, FuzzyIdentifierCriterion(dialect.escape(query.value), settings, dialect)]);
      assert n.Success? && a.Success?;
      var added := [Or([n.value, a.value, t.conjunction]), PatientNotVoided];
      assert TypeFilterList(t) + [Or([n.value, a.value, t.conjunction]), PatientNotVoided] == added;
      assert ComposeQuery(query, settings, dialect) == Success(added);
      assert TypeFilterOnlyFor(added, []);
    }
  }

  /** The attribute restriction has one child per word of the escaped query,
      in order, the same words the name restriction has one child for. */
  lemma AttributesAlignWithNames(query: string, settings: Settings, dialect: Dialect)
    ensures var words := QueryParts(dialect.escape(query));
      var a := AttributeTree(Some(query), dialect).value;
      var n := NameTree(Some(query), settings, dialect).value;
      && a.And? && |a.conjuncts| == |words|
      && (forall i :: 0 <= i < |words| ==> a.conjuncts[i] == Attr(words[i]) && IsWord(words[i]))
      && n.And? && |n.conjuncts| == |words|
  {
    var words := QueryParts(dialect.escape(query));
    QueryPartsWellFormed(dialect.escape(query));
    forall i | 0 <= i < |words| ensures IsWord(words[i]) {
      assert words[i] in words;
    }
  }

  class PatientSearchCriteria {
    const dialect: Dialect
    var criteria: seq<Predicate>

    constructor(dialect: Dialect, criteria: seq<Predicate>)
      ensures this.dialect == dialect && this.criteria == criteria
    {
      this.dialect := dialect;
      this.criteria := criteria;
    }

    /** prepareCriterionForName: the name conjunction over the words of the
        escaped name; a null name is rejected by the tokenizer. */
    method PrepareCriterionForName(name: Option<string>, settings: Settings) returns (r: Result<Predicate>)
      ensures r == NameTree(name, settings, dialect)
    {
      var escaped := EscapeNullable(dialect, name);
      var nameParts := GetQueryParts(escaped);
      if nameParts.Failure? {
        return Failure(nameParts.error);
      }
      QueryPartsWellFormed(escaped.value);
      var conjunction := NameConjunction(nameParts.value, settings);
      return Success(conjunction);
    }

    /** prepareCriterionForAttribute: one attribute restriction per word of
        the escaped query. */
    method PrepareCriterionForAttribute(query: Option<string>) returns (r: Result<Predicate>)
      ensures r == AttributeTree(query, dialect)
    {
      var escaped := EscapeNullable(dialect, query);
      var queryParts := GetQueryParts(escaped);
      if queryParts.Failure? {
        return Failure(queryParts.error);
      }
      var conjunction := AttributeConjunction(queryParts.value);
      return Success(conjunction);
    }

    /** prepareCriterionForIdentifier: returns the identifier conjunction and
        adds the identifier-type restriction, when types are given, to the
        criteria. */
    method PrepareCriterionForIdentifier(identifier: Option<string>, identifierTypes: seq<IdentifierType>,
                                         matchIdentifierExactly: bool, settings: Settings)
      returns (conjunction: Predicate)
      modifies this
      ensures conjunction == IdentifierTree(identifier, identifierTypes, matchIdentifierExactly, settings, dialect).conjunction
      ensures criteria == old(criteria) +
        TypeFilterList(IdentifierTree(identifier, identifierTypes, matchIdentifierExactly, settings, dialect))
    {
      var escaped := EscapeNullable(dialect, identifier);
      var conjuncts := [IdentifierNotVoided];
      if escaped.Some? {
        var value := escaped.value;
        if matchIdentifierExactly {
          var matchIdentifier := Eq(IdentifierValue, StringValue(value), false);
          if settings.caseSensitiveStore {
            matchIdentifier := matchIdentifier.(ignoreCase := true);
          }
          conjuncts := conjuncts + [matchIdentifier];
        } else {
          var regex := settings.identifierRegex;
          var patternSearch := settings.identifierSearchPattern;
          if IsPadAnchor(regex) {
            value := RemovePadding(value, regex);
          }
          if |patternSearch| > 0 {
            var searchPattern := SplitAndGetSearchPattern(value, patternSearch);
            conjuncts := conjuncts + [searchPattern];
          } else if regex == "" || dialect.isHSQL {
            conjuncts := conjuncts + [SimpleSearchCriterion(value, settings)];
          } else {
            regex := ReplaceSearchString(regex, value);
            conjuncts := conjuncts + [SqlRegexp(regex)];
          }
        }
      }
      if |identifierTypes| > 0 {
        criteria := criteria + [InTypes(IdentifierTypeRef, identifierTypes)];
      }
      return And(conjuncts);
    }

    /** The PATIENT_SEARCH_BY_NAME case of prepareCriteria. */
    method AddNameSearch(name: Option<string>, settings: Settings) returns (error: Option<SearchError>)
      modifies this
      ensures match NameSearch(name, settings, dialect)
        case Failure(e) => error == Some(e) && criteria == old(criteria)
        case Success(added) => error == None && criteria == old(criteria) + added
    {
      var n := PrepareCriterionForName(name, settings);
      if n.Failure? {
        return Some(n.error);
      }
      criteria := criteria + [n.value];
      return None;
    }

    /** The PATIENT_SEARCH_BY_IDENTIFIER case of prepareCriteria. */
    method AddIdentifierSearch(identifier: Option<string>, identifierTypes: seq<IdentifierType>,
                               matchIdentifierExactly: bool, settings: Settings)
      modifies this
      ensures criteria == old(criteria) +
        IdentifierSearch(identifier, identifierTypes, matchIdentifierExactly, settings, dialect)
    {
      var c := PrepareCriterionForIdentifier(identifier, identifierTypes, matchIdentifierExactly, settings);
      criteria := criteria + [c];
    }

    /** The PATIENT_SEARCH_BY_NAME_OR_IDENTIFIER case of prepareCriteria. */
    method AddNameOrIdentifierSearch(name: Option<string>, identifier: Option<string>,
                                     identifierTypes: seq<IdentifierType>, matchIdentifierExactly: bool,
                                     settings: Settings)
      returns (error: Option<SearchError>)
      modifies this
      ensures match NameOrIdentifierSearch(name, identifier, identifierTypes, matchIdentifierExactly, settings, dialect)
        case Failure(e) => error == Some(e) && criteria == old(criteria)
        case Success(added) => error == None && criteria == old(criteria) + added
    {
      var name' := CopySearchParameter(identifier, name);
      var identifier' := CopySearchParameter(name', identifier);
      var n := PrepareCriterionForName(name', settings);
      if n.Failure? {
        return Some(n.error);
      }
      var c := PrepareCriterionForIdentifier(identifier', identifierTypes, matchIdentifierExactly, settings);
      ghost var t := IdentifierTree(identifier', identifierTypes, matchIdentifierExactly, settings, dialect);
      ghost var added := TypeFilterList(t) + [Or([n.value, c])];
      assert NameOrIdentifierSearch(name, identifier, identifierTypes, matchIdentifierExactly, settings, dialect)
             == Success(added);
      criteria := criteria + [Or([n.value, c])];
      assert criteria == old(criteria) + added;
      return None;
    }

    /** The PATIENT_SEARCH_BY_NAME_AND_IDENTIFIER case of prepareCriteria. */
    method AddNameAndIdentifierSearch(name: Option<string>, identifier: Option<string>,
                                      identifierTypes: seq<IdentifierType>, matchIdentifierExactly: bool,
                                      settings: Settings)
      returns (error: Option<SearchError>)
      modifies this
      ensures match NameAndIdentifierSearch(name, identifier, identifierTypes, matchIdentifierExactly, settings, dialect)
        case Failure(e) => error == Some(e) && criteria == old(criteria)
        case Success(added) => error == None && criteria == old(criteria) + added
    {
      var n := PrepareCriterionForName(name, settings);
      if n.Failure? {
        return Some(n.error);
      }
      ghost var rest := IdentifierSearch(identifier, identifierTypes, matchIdentifierExactly, settings, dialect);
      assert NameAndIdentifierSearch(name, identifier, identifierTypes, matchIdentifierExactly, settings, dialect)
             == Success([n.value] + rest);
      criteria := criteria + [n.value];
      AddIdentifierSearch(identifier, identifierTypes, matchIdentifierExactly, settings);
      assert criteria == old(criteria) + ([n.value] + rest);
      return None;
    }

    /** The switch of prepareCriteria: what each search mode adds. */
    method AddModeRestrictions(mode: PatientSearchMode, name: Option<string>, identifier: Option<string>,
                               identifierTypes: seq<IdentifierType>, matchIdentifierExactly: bool,
                               settings: Settings)
      returns (error: Option<SearchError>)
      modifies this
      ensures match ModeRestrictions(mode, name, identifier, identifierTypes, matchIdentifierExactly, settings, dialect)
        case Failure(e) => error == Some(e) && criteria == old(criteria)
        case Success(added) => error == None && criteria == old(criteria) + added
    {
      error := None;
      match mode {
        case ByName =>
          error := AddNameSearch(name, settings);
        case ByIdentifier =>
          AddIdentifierSearch(identifier, identifierTypes, matchIdentifierExactly, settings);
        case ByNameOrIdentifier =>
          error := AddNameOrIdentifierSearch(name, identifier, identifierTypes, matchIdentifierExactly, settings);
        case ByNameAndIdentifier =>
          error := AddNameAndIdentifierSearch(name, identifier, identifierTypes, matchIdentifierExactly, settings);
      }
    }

    /** prepareCriteria(name, identifier, identifierTypes, ...): adds the
        restrictions Compose lists and returns them all; when the name
        builder fails, the criteria are left as they were. */
    method PrepareCriteria(name: Option<string>, identifier: Option<string>, identifierTypes: seq<IdentifierType>,
                           matchIdentifierExactly: bool, searchOnNamesOrIdentifiers: bool, settings: Settings)
      returns (r: Result<seq<Predicate>>)
      modifies this
      ensures match Compose(name, identifier, identifierTypes, matchIdentifierExactly,
                            searchOnNamesOrIdentifiers, settings, dialect)
        case Failure(e) => r == Failure(e) && criteria == old(criteria)
        case Success(added) => criteria == old(criteria) + added && r == Success(criteria)
    {
      var mode := GetSearchMode(name, identifier, identifierTypes, searchOnNamesOrIdentifiers);
      var error := AddModeRestrictions(mode, name, identifier, identifierTypes, matchIdentifierExactly, settings);
      if error.Some? {
        return Failure(error.value);
      }
      criteria := criteria + [PatientNotVoided];
      return Success(criteria);
    }

    /** prepareCriteria(query): adds the restrictions ComposeQuery lists. */
    method PrepareCriteriaForQuery(query: Option<string>, settings: Settings) returns (r: Result<seq<Predicate>>)
      modifies this
      ensures match ComposeQuery(query, settings, dialect)
        case Failure(e) => r == Failure(e) && criteria == old(criteria)
        case Success(added) => criteria == old(criteria) + added && r == Success(criteria)
    {
      var n := PrepareCriterionForName(query, settings);
      if n.Failure? {
        return Failure(n.error);
      }
      var a := PrepareCriterionForAttribute(query);
      // the query is not null, since the name builder accepted it
      assert a.Success?;
      var c := PrepareCriterionForIdentifier(query, [], false, settings);
      criteria := criteria + [Or([n.value, a.value, c])];
      criteria := criteria + [PatientNotVoided];
      return Success(criteria);
    }
  }
}
