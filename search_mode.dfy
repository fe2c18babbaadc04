/**
 * Choosing the kind of patient search from which parameters are given, and
 * copying a lone parameter into the blank one for a search on names or
 * identifiers.
 */
module SearchMode {
  import opened Text
  import opened Criteria

  datatype PatientSearchMode = ByName | ByIdentifier | ByNameOrIdentifier | ByNameAndIdentifier

  /** getSearchMode: the combine flag wins; a name alone searches names; no
      name but an identifier or identifier types searches identifiers; every
      other combination (both sides present, or nothing at all) searches both. */
  function GetSearchMode(name: Option<string>, identifier: Option<string>,
                         identifierTypes: seq<IdentifierType>, searchOnNamesOrIdentifiers: bool): (mode: PatientSearchMode)
    ensures mode == ByNameOrIdentifier <==> searchOnNamesOrIdentifiers
    ensures mode == ByName <==>
      !searchOnNamesOrIdentifiers && !IsBlank(name) && IsBlank(identifier) && |identifierTypes| == 0
    ensures mode == ByIdentifier <==>
      !searchOnNamesOrIdentifiers && IsBlank(name) && (!IsBlank(identifier) || |identifierTypes| > 0)
    ensures mode == ByNameAndIdentifier <==>
      !searchOnNamesOrIdentifiers &&
      (IsBlank(name) <==> (IsBlank(identifier) && |identifierTypes| == 0))
  {
    if searchOnNamesOrIdentifiers then ByNameOrIdentifier
    else if !IsBlank(name) && IsBlank(identifier) && |identifierTypes| == 0 then ByName
    else if IsBlank(name) && !(IsBlank(identifier) && |identifierTypes| == 0) then ByIdentifier
    else ByNameAndIdentifier
  }

  /** The classifications the source's test descriptions name, plus the
      all-blank and all-null searches. */
  lemma SearchModeExamples()
    ensures GetSearchMode(Some(""), Some(""), [], false) == ByNameAndIdentifier
    ensures GetSearchMode(None, None, [], false) == ByNameAndIdentifier
    ensures GetSearchMode(Some("john"), Some(""), [], false) == ByName
    ensures GetSearchMode(Some(""), Some("1000"), [], false) == ByIdentifier
    ensures GetSearchMode(None, None, [IdentifierType(1)], false) == ByIdentifier
    ensures GetSearchMode(Some(""), Some("1000"), [IdentifierType(1)], false) == ByIdentifier
    ensures GetSearchMode(Some("john"), Some("1000"), [], false) == ByNameAndIdentifier
    ensures GetSearchMode(Some("john"), Some("1000"), [], true) == ByNameOrIdentifier
  {
    assert !IsBlank(Some("john")) by { assert !IsWhitespace("john"[0]); }
    assert !IsBlank(Some("1000")) by { assert !IsWhitespace("1000"[0]); }
  }

  /** copySearchParameter: the target is kept unless it is blank and the
      source is not, in which case the source is returned. */
  function CopySearchParameter(source: Option<string>, target: Option<string>): (r: Option<string>)
    ensures !IsBlank(target) ==> r == target
    ensures IsBlank(source) ==> r == target
    ensures IsBlank(r) <==> IsBlank(source) && IsBlank(target)
    ensures r == source || r == target
  {
    if !IsBlank(source) && IsBlank(target) then source else target
  }

  /** The two mirroring steps of the name-or-identifier search
      (name from identifier, then identifier from the new name): afterwards
      both are present when either was, a present value is never replaced,
      a lone value ends up on both sides, and two blanks stay as they were. */
  lemma MirrorSearchParameters(name: Option<string>, identifier: Option<string>)
    ensures var name' := CopySearchParameter(identifier, name);
      var identifier' := CopySearchParameter(name', identifier);
      && (!IsBlank(name') && !IsBlank(identifier') <==> !IsBlank(name) || !IsBlank(identifier))
      && (!IsBlank(name) ==> name' == name)
      && (!IsBlank(identifier) ==> identifier' == identifier)
      && (!IsBlank(name) && IsBlank(identifier) ==> identifier' == name)
      && (IsBlank(name) && !IsBlank(identifier) ==> name' == identifier)
      && (IsBlank(name) && IsBlank(identifier) ==> name' == name && identifier' == identifier)
  {
  }

  /** The mirroring example: a name with no identifier is searched as both. */
  lemma MirrorExample()
    ensures var name' := CopySearchParameter(Some(""), Some("smith"));
      name' == Some("smith") && CopySearchParameter(name', Some("")) == Some("smith")
  {
    assert !IsBlank(Some("smith")) by { assert !IsWhitespace("smith"[0]); }
  }
}
