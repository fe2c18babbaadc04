/**
 * The identifier restriction: the identifier is not voided and, unless the
 * identifier is null, it matches exactly or through the configured search
 * pattern, prefix and suffix, or regular expression; a non-empty list of
 * identifier types is a separate restriction.
 */
module IdentifierCriteria {
  import opened Text
  import opened Criteria
  import opened SearchString

  /** The characters `.` does not match in a Java regular expression
      compiled without DOTALL. */
  predicate IsLineTerminator(c: char) {
    c == '\n' || c == '\r' || c == '\U{0085}' || c == '\U{2028}' || c == '\U{2029}'
  }

  /** Pattern.matches("^\\^.{1}\\*.*$", regex): the regex starts with '^',
      one character, and '*', and nothing in it but that '^' and '*' is a
      line terminator. The padding removePadding then takes, the text
      between the first '^' and the first '*', is the one character after
      the '^', or nothing when that character is the '*' itself. */
  predicate IsPadAnchor(regex: string): (anchored: bool)
    ensures anchored ==>
      |regex| >= 3 && IndexOf(regex, '^') == 0 && IndexOf(regex, '*') == if regex[1] == '*' then 1 else 2
  {
    && |regex| >= 3 && regex[0] == '^' && regex[2] == '*'
    && !IsLineTerminator(regex[1])
    && forall i :: 3 <= i < |regex| ==> !IsLineTerminator(regex[i])
  }

  /** removePadding: the text between the regex's first '^' and its first
      '*' (one character, or nothing when that character is '*' itself) is
      the padding, and its leading run is removed from the identifier. */
  function RemovePadding(identifier: string, regex: string): (r: string)
    requires IsPadAnchor(regex)
    ensures |r| <= |identifier| && r == identifier[|identifier| - |r|..]
    ensures regex[1] == '*' ==> r == identifier
    ensures regex[1] != '*' ==>
      && (r == [] || r[0] != regex[1])
      && (forall i :: 0 <= i < |identifier| - |r| ==> identifier[i] == regex[1])
  {
    var padding := regex[IndexOf(regex, '^') + 1..IndexOf(regex, '*')];
    if padding == [] then identifier
    else StripLeadingSpec(identifier, padding[0]); StripLeading(identifier, padding[0])
  }

  /** Padding in front of an identifier makes no difference once removed. */
  lemma RemovePaddingIgnoresPadding(regex: string, k: nat, identifier: string)
    requires IsPadAnchor(regex) && regex[1] != '*'
    requires identifier == [] || identifier[0] != regex[1]
    ensures RemovePadding(Repeat(regex[1], k) + identifier, regex) == identifier
  {
    assert IndexOf(regex, '*') == 2;
    StripLeadingPadding(regex[1], k, identifier);
  }

  /** The entries of the search-pattern restriction: every comma-separated
      piece of the pattern with the identifier filled in. */
  function SearchPatternValues(identifier: string, patternSearch: string): (vs: seq<string>)
  {
    var pieces := JavaSplit(patternSearch, ',');
    seq(|pieces|, i requires 0 <= i < |pieces| => ReplaceSearchString(pieces[i], identifier))
  }

  /** splitAndGetSearchPattern */
  method SplitAndGetSearchPattern(identifier: string, patternSearch: string) returns (p: Predicate)
    ensures p == InStrings(IdentifierValue, SearchPatternValues(identifier, patternSearch))
  {
    var pieces := JavaSplit(patternSearch, ',');
    var searchPatterns: seq<string> := [];
    for k := 0 to |pieces|
      invariant |searchPatterns| == k
      invariant forall i :: 0 <= i < k ==> searchPatterns[i] == ReplaceSearchString(pieces[i], identifier)
    {
      searchPatterns := searchPatterns + [ReplaceSearchString(pieces[k], identifier)];
    }
    return InStrings(IdentifierValue, searchPatterns);
  }

  /** A pattern without a trailing comma has one entry per comma-separated
      piece, each with the identifier filled in. */
  lemma SearchPatternPieces(identifier: string, pieces: seq<string>)
    requires forall p | p in pieces :: ',' !in p
    requires |pieces| > 0 && pieces[|pieces| - 1] != ""
    ensures SearchPatternValues(identifier, Join(pieces, ",")) ==
      seq(|pieces|, i requires 0 <= i < |pieces| => ReplaceSearchString(pieces[i], identifier))
  {
    var pattern := Join(pieces, ",");
    assert JavaSplit(pattern, ',') == pieces by {
      var last := pieces[|pieces| - 1];
      assert pattern[|pattern| - 1] != ',' by {
        assert last in pieces;
        JoinEndsWithLast(pieces, ",");
        assert pattern[|pattern| - 1] == last[|last| - 1];
      }
      JavaSplitJoin(pattern, ',');
      SplitJoinPieces(pieces, ',');
    }
  }

  /** Joining keeps the last piece at the end. */
  lemma {:induction false} JoinEndsWithLast(pieces: seq<string>, sep: string)
    requires |pieces| > 0
    ensures var s := Join(pieces, sep);
      |s| >= |pieces[|pieces| - 1]| && s[|s| - |pieces[|pieces| - 1]|..] == pieces[|pieces| - 1]
    decreases |pieces|
  {
    if |pieces| > 1 {
      var init := pieces[..|pieces| - 1];
      assert pieces == init + [pieces[|pieces| - 1]];
      JoinAppend(init, pieces[|pieces| - 1], sep);
    }
  }

  /** Splitting pieces joined with a character they do not hold gives them back. */
  lemma {:induction false} SplitJoinPieces(pieces: seq<string>, c: char)
    requires |pieces| > 0
    requires forall p | p in pieces :: c !in p
    ensures SplitAll(Join(pieces, [c]), c) == pieces
    decreases |pieces|
  {
    if |pieces| == 1 {
      assert pieces[0] in pieces;
      SplitAllNoSeparator(pieces[0], c);
    } else {
      assert pieces[0] in pieces;
      SplitJoinPieces(pieces[1..], c);
      SplitAllAt(pieces[0], Join(pieces[1..], [c]), c);
      SplitAllNoSeparator(pieces[0], c);
      assert pieces == [pieces[0]] + pieces[1..];
    }
  }

  /** A pattern of commas only has no pieces, so nothing is listed. */
  lemma SearchPatternOfCommas(identifier: string, n: nat)
    requires n > 0
    ensures SearchPatternValues(identifier, Repeat(',', n)) == []
  {
    var s := Repeat(',', n);
    assert s[0] == ',';
    SplitAllOfSeparators(',', n);
    DropTrailingEmptyPrefix(SplitAll(s, ','));
  }

  /** A run of separators splits into empty pieces only. */
  lemma {:induction false} SplitAllOfSeparators(c: char, n: nat)
    ensures forall i :: 0 <= i < |SplitAll(Repeat(c, n), c)| ==> SplitAll(Repeat(c, n), c)[i] == ""
  {
    if n > 0 {
      SplitAllOfSeparators(c, n - 1);
      assert Repeat(c, n)[1..] == Repeat(c, n - 1);
    }
  }

  /** getCriterionForSimpleSearch: a case-insensitive `like` of the
      identifier between the configured prefix and suffix. */
  function SimpleSearchCriterion(identifier: string, settings: Settings): (p: Predicate)
    ensures p.ILike? && p.field == IdentifierValue
    ensures |p.pattern| == |settings.identifierPrefix| + |identifier| + |settings.identifierSuffix|
    ensures p.pattern[..|settings.identifierPrefix|] == settings.identifierPrefix
    ensures p.pattern[|settings.identifierPrefix|..|p.pattern| - |settings.identifierSuffix|] == identifier
    ensures p.pattern[|p.pattern| - |settings.identifierSuffix|..] == settings.identifierSuffix
  {
    ILike(IdentifierValue, settings.identifierPrefix + identifier + settings.identifierSuffix)
  }

  /** The identifier after padding is removed, when the regex asks for it. */
  function UnpaddedIdentifier(identifier: string, settings: Settings): string {
    if IsPadAnchor(settings.identifierRegex) then RemovePadding(identifier, settings.identifierRegex)
    else identifier
  }

  /** The value restriction of a search that is not exact: the search
      pattern when there is one, else the simple `like` when there is no
      regex or the dialect is HSQL, else the regex with the identifier filled in. */
  function FuzzyIdentifierCriterion(identifier: string, settings: Settings, dialect: Dialect): Predicate {
    var id := UnpaddedIdentifier(identifier, settings);
    if |settings.identifierSearchPattern| > 0 then
      InStrings(IdentifierValue, SearchPatternValues(id, settings.identifierSearchPattern))
    else if settings.identifierRegex == "" || dialect.isHSQL then
      SimpleSearchCriterion(id, settings)
    else
      SqlRegexp(ReplaceSearchString(settings.identifierRegex, id))
  }

  /** The value restriction of an exact search: equality, ignoring case
      when the database compares strings case-sensitively. */
  function ExactIdentifierCriterion(identifier: string, settings: Settings): Predicate {
    Eq(IdentifierValue, StringValue(identifier), settings.caseSensitiveStore)
  }

  /** What prepareCriterionForIdentifier produces: the conjunction it
      returns, and the identifier-type restriction it adds to the criteria. */
  datatype IdentifierRestriction = IdentifierRestriction(conjunction: Predicate, typeFilter: Option<Predicate>)

  function IdentifierTree(identifier: Option<string>, identifierTypes: seq<IdentifierType>,
                          matchIdentifierExactly: bool, settings: Settings, dialect: Dialect): IdentifierRestriction
  {
    var value := match EscapeNullable(dialect, identifier)
      case None => []
      case Some(id) =>
        [if matchIdentifierExactly then ExactIdentifierCriterion(id, settings)
         else FuzzyIdentifierCriterion(id, settings, dialect)];
    IdentifierRestriction(
      And([IdentifierNotVoided] + value),
      if |identifierTypes| > 0 then Some(InTypes(IdentifierTypeRef, identifierTypes)) else None)
  }

  /** The conjunction starts with the identifier not being voided; a null
      identifier adds nothing else, any other identifier (blank ones
      included) one value restriction; the type restriction is present
      exactly when types are given, and lists them. */
  lemma IdentifierTreeShape(identifier: Option<string>, identifierTypes: seq<IdentifierType>,
                            matchIdentifierExactly: bool, settings: Settings, dialect: Dialect)
    ensures var t := IdentifierTree(identifier, identifierTypes, matchIdentifierExactly, settings, dialect);
      && t.conjunction.And? && |t.conjunction.conjuncts| >= 1
      && t.conjunction.conjuncts[0] == IdentifierNotVoided
      && (|t.conjunction.conjuncts| == 1 <==> identifier.None?)
      && |t.conjunction.conjuncts| <= 2
      && (t.typeFilter.Some? <==> |identifierTypes| > 0)
      && (t.typeFilter.Some? ==> t.typeFilter.value == InTypes(IdentifierTypeRef, identifierTypes))
  {
  }

  /** An exact search compares the escaped identifier for equality and
      ignores case exactly when the store is case-sensitive. */
  lemma ExactIdentifierMatch(identifier: string, identifierTypes: seq<IdentifierType>,
                             settings: Settings, dialect: Dialect)
    ensures var c := IdentifierTree(Some(identifier), identifierTypes, true, settings, dialect).conjunction;
      var v := c.conjuncts[1];
      && v.Eq? && v.field == IdentifierValue && v.value == StringValue(dialect.escape(identifier))
      && (v.ignoreCase <==> settings.caseSensitiveStore)
  {
  }

  /** Which restriction a search that is not exact gets, in the order the
      source checks: a search pattern wins over everything, then a missing
      regex or HSQL gives the simple `like`, and only then is the regex used. */
  lemma FuzzyChoice(identifier: string, settings: Settings, dialect: Dialect)
    ensures var p := FuzzyIdentifierCriterion(identifier, settings, dialect);
      && (p.InStrings? <==> |settings.identifierSearchPattern| > 0)
      && (p.ILike? <==> settings.identifierSearchPattern == "" &&
                         (settings.identifierRegex == "" || dialect.isHSQL))
      && (p.SqlRegexp? <==> settings.identifierSearchPattern == "" &&
                             settings.identifierRegex != "" && !dialect.isHSQL)
  {
  }

  /** With a padded regex, a search for the padded and for the unpadded
      identifier build the same restriction. */
  lemma FuzzyIgnoresPadding(identifier: string, k: nat, settings: Settings, dialect: Dialect)
    requires IsPadAnchor(settings.identifierRegex) && settings.identifierRegex[1] != '*'
    requires identifier == [] || identifier[0] != settings.identifierRegex[1]
    ensures FuzzyIdentifierCriterion(Repeat(settings.identifierRegex[1], k) + identifier, settings, dialect) ==
            FuzzyIdentifierCriterion(identifier, settings, dialect)
  {
    var regex := settings.identifierRegex;
    assert UnpaddedIdentifier(Repeat(regex[1], k) + identifier, settings) == identifier by {
      RemovePaddingIgnoresPadding(regex, k, identifier);
    }
    assert UnpaddedIdentifier(identifier, settings) == identifier by {
      RemovePaddingIgnoresPadding(regex, 0, identifier);
      assert Repeat(regex[1], 0) + identifier == identifier;
    }
  }

  /** The padding example: with the regex "^0*@SEARCH@$", the identifier
      "0042" is searched as "42", and the regex keeps its "0*". */
  lemma PaddedRegexExample(settings: Settings, dialect: Dialect)
    requires settings.identifierRegex == "^0*@SEARCH@$"
    requires settings.identifierSearchPattern == "" && !dialect.isHSQL
    ensures FuzzyIdentifierCriterion("0042", settings, dialect) == SqlRegexp("^0*42$")
  {
    assert UnpaddedIdentifier("0042", settings) == "42" by {
      PaddingExample(settings.identifierRegex);
    }
    PaddedTemplateExample();
  }

  /** "^0*@SEARCH@$" asks for padding with '0', so "0042" is searched as "42". */
  lemma PaddingExample(regex: string)
    requires regex == "^0*@SEARCH@$"
    ensures IsPadAnchor(regex) && RemovePadding("0042", regex) == "42"
  {
    assert regex[1] == '0' && regex[2] == '*';
    assert "0042" == Repeat('0', 2) + "42";
    RemovePaddingIgnoresPadding(regex, 2, "42");
  }
}
