# Patient search criteria

A Dafny model of the OpenMRS patient search criteria builder,
`PatientSearchCriteria`. The builder turns a patient search (name,
identifier, identifier types, flags, or one free-text query) into
restrictions on a Hibernate criteria. It does four things:

- It picks one of four search modes from which parameters are blank.
- For a search on names or identifiers, it copies a lone value into the
  blank parameter.
- It splits names into words on commas and spaces. Each word gets an exact
  comparison when it is short and a `like` comparison under the configured
  match mode when it is long. From the second word on, the phrase of the
  words so far is also compared.
- It builds the identifier restriction. This is an exact match, or a
  fuzzy one. A fuzzy match strips padding and then uses the configured
  search patterns, a prefix/suffix `like`, or a regular-expression
  template. In the template, `@SEARCH@`, `@SEARCH-1@` and `@CHECKDIGIT@`
  are replaced by the identifier, by all of it but its last character, and
  by its last character.

The restrictions are values of the datatype `Criteria.Predicate`, a tree
of `And`, `Or` and leaf comparisons. The object being built is the class
`PatientSearch.PatientSearchCriteria`. Its `criteria` field is the list of
restrictions added so far, and its methods append to it in the order the
source does. Each method is proved equal to a function (`Compose`,
`ComposeQuery`, `NameTree`, `IdentifierTree`, ...). The properties of the
search are then proved about those functions as lemmas.

Modules, one file each:

- `Text` (`text.dfy`): the Java and commons-lang string operations used.
  These are `isBlank`, `trim`, `indexOf`, `split`, the literal
  `replaceAll`, `equalsIgnoreCase` and the leading-run strip.
- `Criteria` (`criteria.dfy`): restriction trees, settings, dialect,
  errors.
- `SearchMode` (`search_mode.dfy`): `getSearchMode` and
  `copySearchParameter`.
- `Tokenizer` (`tokenizer.dfy`): `getQueryParts`.
- `NameCriteria` (`name_criteria.dfy`): the name comparisons and the name
  conjunction.
- `SearchString` (`search_string.dfy`): `replaceSearchString`.
- `IdentifierCriteria` (`identifier_criteria.dfy`): padding, search
  patterns, the simple search and the identifier conjunction.
- `PatientSearch` (`patient_search_criteria.dfy`): the class and both
  `prepareCriteria` entry points.

The administration service's global properties and its case-sensitivity
flag are a `Settings` value. The session factory's wildcard escaping and
HSQL test are a `Dialect` value. A Java `null` string is `None`. The
`IllegalArgumentException` of `getQueryParts` is the `Failure` case of a
`Result`.

In these points the code does something other than one might expect:

- Only a null identifier skips the identifier value restriction. A blank
  but present identifier (for example `""`) still gets one
  (`IdentifierCriteria.IdentifierTreeShape`).
- Padding is removed from the identifier only; the regex template keeps
  its padding part. With `^0*@SEARCH@$` and `0042`, the identifier is
  stripped to `42` and the regex sent to the database is `^0*42$`
  (`IdentifierCriteria.PaddedRegexExample`).
- A null name that reaches the name builder does raise the tokenizer's
  exception. This happens with the combined search when both values are
  blank and the name is null, or without it when nothing at all is given
  (`PatientSearch.ComposeFailsIff`).
- The combined search copies the name from the identifier first, then the
  identifier from the new name. Either way a lone value ends up on both
  sides, and a value already present is never replaced
  (`SearchMode.MirrorSearchParameters`).
- The identifier-type restriction is added to the outer criteria, beside
  and before the identifier conjunction, never inside it
  (`PatientSearch.TypeFilterAtTopLevel`).

## Model

| member | source | states |
|---|---|---|
| SearchMode.GetSearchMode | api/src/main/java/org/openmrs/api/db/hibernate/PatientSearchCriteria.java:176-193 | Each mode is characterised by an if-and-only-if on the flag, the blankness of name and identifier, and the emptiness of the types. The four modes are exclusive and exhaustive. |
| SearchMode.SearchModeExamples | api/src/main/java/org/openmrs/api/db/hibernate/PatientSearchCriteria.java:168-175 | The six classifications the source's test descriptions name (name, identifier, identifier type list, identifier and identifier type list, name and identifier, name or identifier), plus the all-blank and all-null searches, which fall into name-and-identifier. |
| SearchMode.CopySearchParameter | api/src/main/java/org/openmrs/api/db/hibernate/PatientSearchCriteria.java:161-166 | A non-blank target is kept. A blank source leaves the target. The result is blank iff both are blank. The result is always one of the two. |
| SearchMode.MirrorSearchParameters | api/src/main/java/org/openmrs/api/db/hibernate/PatientSearchCriteria.java:103-104 | After both copies, both values are non-blank iff either was. Present values are never replaced. A lone value ends up on both sides. Two blanks are left as they were. |
| SearchMode.MirrorExample | api/src/main/java/org/openmrs/api/db/hibernate/PatientSearchCriteria.java:157-166 | A name with a blank identifier is searched as both. |
| Tokenizer.GetQueryParts | api/src/main/java/org/openmrs/api/db/hibernate/PatientSearchCriteria.java:355-371 | Null is rejected with "query must not be null". Otherwise the loop returns exactly the words `QueryParts` defines. |
| Tokenizer.QueryPartsWellFormed | api/src/main/java/org/openmrs/api/db/hibernate/PatientSearchCriteria.java:360-368 | No word is empty or holds a comma or a space, and every word has a character above U+0020. |
| Tokenizer.QueryParts | api/src/main/java/org/openmrs/api/db/hibernate/PatientSearchCriteria.java:362-370 | The words of a non-null query: commas become spaces, the query is split on single spaces, and pieces that trim to nothing are dropped. Its properties are carried by `QueryPartsWellFormed`, `QueryPartsAt`, `QueryPartsEmptyIff` and `JoinedWordsRetokenize`. |
| Tokenizer.QueryPartsAt | api/src/main/java/org/openmrs/api/db/hibernate/PatientSearchCriteria.java:360-368 | A comma or a space splits the words into those before and those after it, so order and duplicates are kept. |
| Tokenizer.QueryPartsEmptyIff | api/src/main/java/org/openmrs/api/db/hibernate/PatientSearchCriteria.java:360-368 | A query has no words iff it consists only of commas and characters at or below U+0020. |
| Tokenizer.QueryPartsOfWord | api/src/main/java/org/openmrs/api/db/hibernate/PatientSearchCriteria.java:360-368 | A string without separators is one word, or none when it trims to nothing. |
| Tokenizer.QueryPartsLeadingSeparator | api/src/main/java/org/openmrs/api/db/hibernate/PatientSearchCriteria.java:360-368 | A leading comma or space changes nothing. |
| Tokenizer.QueryPartsWordThenSeparators | api/src/main/java/org/openmrs/api/db/hibernate/PatientSearchCriteria.java:360-368 | A word followed by a separator and a space is that word, then the words of the rest. |
| Tokenizer.QueryPartsMixedSeparators | api/src/main/java/org/openmrs/api/db/hibernate/PatientSearchCriteria.java:348-371 | Three words separated by ", " and then two spaces give the three words in order (the mixed-separator case). |
| Tokenizer.JoinedWordsRetokenize | api/src/main/java/org/openmrs/api/db/hibernate/PatientSearchCriteria.java:355-371 | Words joined by single spaces tokenize back to the same words. |
| Tokenizer.QueryPartsNormalForm | api/src/main/java/org/openmrs/api/db/hibernate/PatientSearchCriteria.java:355-371 | Tokenizing is idempotent on the joined words. |
| Tokenizer.QueryPartsOfEmpty | api/src/main/java/org/openmrs/api/db/hibernate/PatientSearchCriteria.java:355-371 | The empty query has no words. |
| Tokenizer.JavaSplitKept | api/src/main/java/org/openmrs/api/db/hibernate/PatientSearchCriteria.java:361-368 | Dropping Java's trailing empty pieces keeps the same words, and every piece is a piece of the full split. |
| Tokenizer.KeepAppend | api/src/main/java/org/openmrs/api/db/hibernate/PatientSearchCriteria.java:364-368 | The kept pieces of a concatenation are the kept pieces of each part, in order. |
| NameCriteria.GetMatchMode | api/src/main/java/org/openmrs/api/db/hibernate/PatientSearchCriteria.java:436-445 | See `MatchModeAnywhereIff`. |
| NameCriteria.MatchModeAnywhereIff | api/src/main/java/org/openmrs/api/db/hibernate/PatientSearchCriteria.java:436-445 | The mode is ANYWHERE iff the configured value equals "ANYWHERE" ignoring case. Otherwise it is START. |
| NameCriteria.MatchModeIgnoresCase | api/src/main/java/org/openmrs/api/db/hibernate/PatientSearchCriteria.java:441 | Values equal ignoring case give the same mode. |
| NameCriteria.MatchModeExamples | api/src/main/java/org/openmrs/api/db/hibernate/PatientSearchCriteria.java:431-445 | "anywhere" in any case is ANYWHERE. The default and other values (including "anywhere ") are START. |
| NameCriteria.ShortNameCriterion | api/src/main/java/org/openmrs/api/db/hibernate/PatientSearchCriteria.java:413-419 | The name is not voided, and one of given, middle, family and family2 names equals the word ignoring case. |
| NameCriteria.LongNameCriterion | api/src/main/java/org/openmrs/api/db/hibernate/PatientSearchCriteria.java:421-429 | The name is not voided, and one of the four name parts is `like` the word under the mode. |
| NameCriteria.IsShortName | api/src/main/java/org/openmrs/api/db/hibernate/PatientSearchCriteria.java:400-411 | A null name is never short; any other name is short iff its length is below the minimum. `CriterionForNameDispatch` and `ShortLongBoundary` state what this selects. |
| NameCriteria.CriterionForName | api/src/main/java/org/openmrs/api/db/hibernate/PatientSearchCriteria.java:389-394 | The short-name criterion for a short name, the long-name criterion under the configured match mode otherwise. Carried by `CriterionForNameDispatch`. |
| NameCriteria.CriterionForNameDispatch | api/src/main/java/org/openmrs/api/db/hibernate/PatientSearchCriteria.java:389-411 | A name shorter than the minimum is compared exactly. Any other name is compared with `like` under the configured mode. Either way, the name itself is what each part is compared with. |
| NameCriteria.ShortLongBoundary | api/src/main/java/org/openmrs/api/db/hibernate/PatientSearchCriteria.java:396-411 | With a minimum of three characters, "jo" is short and "joh" is long. |
| NameCriteria.NameTree | api/src/main/java/org/openmrs/api/db/hibernate/PatientSearchCriteria.java:317-322 | The name builder fails iff the name is null, with the tokenizer's message. |
| NameCriteria.NameTreeShape | api/src/main/java/org/openmrs/api/db/hibernate/PatientSearchCriteria.java:321-345 | One child per word. The first word is alone. Every later word is OR-ed with the phrase of the words up to it. |
| NameCriteria.NameTreeOfNoWords | api/src/main/java/org/openmrs/api/db/hibernate/PatientSearchCriteria.java:321-345 | A name without words gives the empty conjunction, which restricts nothing. |
| NameCriteria.PhraseOfQueryParts | api/src/main/java/org/openmrs/api/db/hibernate/PatientSearchCriteria.java:324-336 | The phrase for word i tokenizes back to the words up to i. It is at least as long as word i, so a long word never has a short phrase. |
| PatientSearch.NameConjunction | api/src/main/java/org/openmrs/api/db/hibernate/PatientSearchCriteria.java:321-345 | The loop that builds `multiName` computes exactly the name tree of the words. |
| PatientSearch.PatientSearchCriteria.constructor | api/src/main/java/org/openmrs/api/db/hibernate/PatientSearchCriteria.java:58-62 | The new builder keeps the session factory's dialect and the criteria it is given. |
| PatientSearch.PatientSearchCriteria.PrepareCriterionForName | api/src/main/java/org/openmrs/api/db/hibernate/PatientSearchCriteria.java:317-346 | Returns `NameTree` of the escaped name, including its failure on null. |
| SearchString.ReplaceSearchString | api/src/main/java/org/openmrs/api/db/hibernate/PatientSearchCriteria.java:454-467 | Three literal `replaceAll` passes: `@SEARCH@` by the identifier, then `@SEARCH-1@` and `@CHECKDIGIT@` by all but its last character and by its last character, or both by the empty string when the identifier has at most one character. Carried by `ReplaceSearchStringExpands`, `ReplacePass` and the examples below. |
| SearchString.ReplaceSearchStringExpands | api/src/main/java/org/openmrs/api/db/hibernate/PatientSearchCriteria.java:454-467 | The three `replaceAll` passes replace every marker of a template by its value in one go. `@SEARCH@` becomes the identifier, `@SEARCH-1@` all but its last character, and `@CHECKDIGIT@` its last character (both empty for identifiers shorter than two). |
| SearchString.ReplaceSearchStringWithoutMarkers | api/src/main/java/org/openmrs/api/db/hibernate/PatientSearchCriteria.java:454-467 | A template without '@' is returned unchanged. |
| SearchString.ReplacePass | api/src/main/java/org/openmrs/api/db/hibernate/PatientSearchCriteria.java:455-464 | For a template whose literal text contains no '@' and does not start with 'S', one `replaceAll` pass replaces exactly the markers of its kind. For the `@CHECKDIGIT@` pass the template must hold no other kind of marker, since a marker's closing '@' followed by `CHECKDIGIT@` would be read as one. |
| SearchString.CheckDigitExample | api/src/main/java/org/openmrs/api/db/hibernate/PatientSearchCriteria.java:456-461 | "@SEARCH@-@CHECKDIGIT@" with "1234" gives "1234-4". |
| SearchString.ShortIdentifierExample | api/src/main/java/org/openmrs/api/db/hibernate/PatientSearchCriteria.java:462-465 | With a one-character identifier, both short markers vanish. |
| SearchString.PaddedTemplateExample | api/src/main/java/org/openmrs/api/db/hibernate/PatientSearchCriteria.java:455 | "^0*@SEARCH@$" with "42" gives "^0*42$". |
| IdentifierCriteria.IsPadAnchor | api/src/main/java/org/openmrs/api/db/hibernate/PatientSearchCriteria.java:238 | The `Pattern.matches("^\\^.{1}\\*.*$", regex)` test. When it holds, the regex's first `^` is at position 0 and its first `*` at position 2, or at 1 when the character after `^` is `*`, so the padding `removePadding` takes is that one character or nothing. |
| IdentifierCriteria.RemovePadding | api/src/main/java/org/openmrs/api/db/hibernate/PatientSearchCriteria.java:305-310 | The result is a suffix of the identifier. Only the leading run of the padding character is removed, and the result does not start with it. A `^**` regex (empty padding) removes nothing. |
| IdentifierCriteria.RemovePaddingIgnoresPadding | api/src/main/java/org/openmrs/api/db/hibernate/PatientSearchCriteria.java:305-310 | Any amount of padding before an identifier is removed completely. |
| IdentifierCriteria.PaddingExample | api/src/main/java/org/openmrs/api/db/hibernate/PatientSearchCriteria.java:237-240 | "^0*@SEARCH@$" is a padding regex and strips "0042" to "42". |
| IdentifierCriteria.SplitAndGetSearchPattern | api/src/main/java/org/openmrs/api/db/hibernate/PatientSearchCriteria.java:288-296 | The loop lists, in order, every comma-separated piece of the pattern with the identifier filled in. |
| IdentifierCriteria.SearchPatternPieces | api/src/main/java/org/openmrs/api/db/hibernate/PatientSearchCriteria.java:288-296 | A pattern without a trailing comma has exactly one entry per piece. |
| IdentifierCriteria.SearchPatternOfCommas | api/src/main/java/org/openmrs/api/db/hibernate/PatientSearchCriteria.java:292 | A pattern of commas only lists nothing, because Java's split drops the trailing empty pieces. |
| IdentifierCriteria.SimpleSearchCriterion | api/src/main/java/org/openmrs/api/db/hibernate/PatientSearchCriteria.java:275-280 | A case-insensitive `like` on the identifier. The pattern is exactly the prefix, the identifier and the suffix. |
| IdentifierCriteria.IdentifierTree | api/src/main/java/org/openmrs/api/db/hibernate/PatientSearchCriteria.java:215-265 | The identifier conjunction (not voided, then the exact or fuzzy value restriction for a non-null escaped identifier) and the separate type restriction. Carried by `IdentifierTreeShape` and `ExactIdentifierMatch`. |
| IdentifierCriteria.FuzzyIdentifierCriterion | api/src/main/java/org/openmrs/api/db/hibernate/PatientSearchCriteria.java:234-256 | The value restriction of a search that is not exact, on the unpadded identifier. Carried by `FuzzyChoice`, `FuzzyIgnoresPadding` and `PaddedRegexExample`. |
| IdentifierCriteria.IdentifierTreeShape | api/src/main/java/org/openmrs/api/db/hibernate/PatientSearchCriteria.java:215-267 | The conjunction starts with the identifier not being voided. A null identifier adds nothing else; any other identifier adds one value restriction. The type restriction is present iff types are given, and lists them. |
| IdentifierCriteria.ExactIdentifierMatch | api/src/main/java/org/openmrs/api/db/hibernate/PatientSearchCriteria.java:225-230 | An exact search compares the escaped identifier for equality. It ignores case iff the store is case-sensitive. |
| IdentifierCriteria.FuzzyChoice | api/src/main/java/org/openmrs/api/db/hibernate/PatientSearchCriteria.java:242-255 | A search pattern wins. Otherwise a missing regex or HSQL gives the simple `like`, and only then is the regex used. Each is an if-and-only-if. |
| IdentifierCriteria.FuzzyIgnoresPadding | api/src/main/java/org/openmrs/api/db/hibernate/PatientSearchCriteria.java:237-255 | Under a padding regex, a padded identifier gets the same restriction as the unpadded one. |
| IdentifierCriteria.PaddedRegexExample | api/src/main/java/org/openmrs/api/db/hibernate/PatientSearchCriteria.java:237-255 | "^0*@SEARCH@$" with "0042" gives the regexp "^0*42$". |
| PatientSearch.PatientSearchCriteria.PrepareCriterionForIdentifier | api/src/main/java/org/openmrs/api/db/hibernate/PatientSearchCriteria.java:215-267 | Returns the `IdentifierTree` conjunction and appends to `criteria` exactly its type restriction, if any. |
| PatientSearch.AttributeTree | api/src/main/java/org/openmrs/api/db/hibernate/PatientSearchCriteria.java:469-481 | Fails iff the query is null. |
| PatientSearch.AttributeConjunction | api/src/main/java/org/openmrs/api/db/hibernate/PatientSearchCriteria.java:475-480 | The loop adds one attribute restriction per word, in order. |
| PatientSearch.PatientSearchCriteria.PrepareCriterionForAttribute | api/src/main/java/org/openmrs/api/db/hibernate/PatientSearchCriteria.java:469-481 | Returns `AttributeTree` of the query. |
| PatientSearch.AttributesAlignWithNames | api/src/main/java/org/openmrs/api/db/hibernate/PatientSearchCriteria.java:469-481 | The attribute conjunction has one child per word of the escaped query, each a word, as many as the name conjunction has. |
| PatientSearch.PatientSearchCriteria.AddNameSearch | api/src/main/java/org/openmrs/api/db/hibernate/PatientSearchCriteria.java:85-88 | Appends the name restriction. On failure, `criteria` is unchanged. |
| PatientSearch.PatientSearchCriteria.AddIdentifierSearch | api/src/main/java/org/openmrs/api/db/hibernate/PatientSearchCriteria.java:90-93 | Appends the type restriction, if any, then the identifier conjunction. |
| PatientSearch.PatientSearchCriteria.AddNameOrIdentifierSearch | api/src/main/java/org/openmrs/api/db/hibernate/PatientSearchCriteria.java:95-110 | Copies the parameters, then appends the type restriction and the OR of the name and identifier restrictions. On failure, `criteria` is unchanged. |
| PatientSearch.PatientSearchCriteria.AddNameAndIdentifierSearch | api/src/main/java/org/openmrs/api/db/hibernate/PatientSearchCriteria.java:112-117 | Appends the name restriction, then what the identifier case adds. On failure, `criteria` is unchanged. |
| PatientSearch.PatientSearchCriteria.AddModeRestrictions | api/src/main/java/org/openmrs/api/db/hibernate/PatientSearchCriteria.java:84-119 | The switch appends exactly what `ModeRestrictions` lists for the mode, or reports its error and changes nothing. |
| PatientSearch.PatientSearchCriteria.PrepareCriteria | api/src/main/java/org/openmrs/api/db/hibernate/PatientSearchCriteria.java:80-127 | Appends exactly what `Compose` lists and returns the criteria. On failure, it returns the error and leaves `criteria` unchanged. |
| PatientSearch.ModeRestrictions | api/src/main/java/org/openmrs/api/db/hibernate/PatientSearchCriteria.java:84-119 | What each case of the switch over the search mode adds. Carried by `ModeRestrictionsNonEmpty`, `ModeRestrictionsTypeFilter` and `AddModeRestrictions`. |
| PatientSearch.Compose | api/src/main/java/org/openmrs/api/db/hibernate/PatientSearchCriteria.java:80-127 | What `prepareCriteria` adds: the case's restrictions, then `voided = false`. Carried by `ComposeFailsIff`, `ComposeEndsWithPatientNotVoided`, `TypeFilterAtTopLevel`, `SingleValueSearchedBothWays` and `BlankSearchOnlyVoided`. |
| PatientSearch.ComposeFailsIff | api/src/main/java/org/openmrs/api/db/hibernate/PatientSearchCriteria.java:80-127 | The search fails iff the name is null, the identifier is blank, and either the flag is set or no types are given. The message is "query must not be null". |
| PatientSearch.ModeRestrictionsNonEmpty | api/src/main/java/org/openmrs/api/db/hibernate/PatientSearchCriteria.java:84-119 | Every successful case adds at least one restriction. |
| PatientSearch.ComposeEndsWithPatientNotVoided | api/src/main/java/org/openmrs/api/db/hibernate/PatientSearchCriteria.java:121 | A successful search ends with `voided = false`, after at least one restriction of its own. |
| PatientSearch.IdentifierSearchTypeFilter | api/src/main/java/org/openmrs/api/db/hibernate/PatientSearchCriteria.java:261-264 | The identifier case lists the type restriction iff types are given, and no other type restriction. |
| PatientSearch.ModeRestrictionsTypeFilter | api/src/main/java/org/openmrs/api/db/hibernate/PatientSearchCriteria.java:84-119 | In every case the search-mode classification can select (the name case only without identifier types), the type restriction is listed at the top level iff types are given. |
| PatientSearch.TypeFilterAtTopLevel | api/src/main/java/org/openmrs/api/db/hibernate/PatientSearchCriteria.java:262-264 | A successful search lists the identifier-type restriction at the top level iff identifier types are given, and no other type restriction. |
| PatientSearch.SingleValueSearchedBothWays | api/src/main/java/org/openmrs/api/db/hibernate/PatientSearchCriteria.java:95-110 | In the combined search, a value given on one side only is searched both as a name and as an identifier. The whole result is stated. |
| PatientSearch.BlankSearchOnlyVoided | api/src/main/java/org/openmrs/api/db/hibernate/PatientSearchCriteria.java:80-127 | A name without words, with no identifier and no types, succeeds and restricts nothing but voided records. Without the combine flag this holds for every such name; with it, for a blank name (a non-blank name such as `,,,` is copied into the identifier and searched there). |
| PatientSearch.ComposeQuery | api/src/main/java/org/openmrs/api/db/hibernate/PatientSearchCriteria.java:140-155 | What the single-query `prepareCriteria` adds. Carried by `QueryShape`. |
| PatientSearch.PatientSearchCriteria.PrepareCriteriaForQuery | api/src/main/java/org/openmrs/api/db/hibernate/PatientSearchCriteria.java:141-155 | Appends exactly what `ComposeQuery` lists. On a null query, it leaves `criteria` unchanged. |
| PatientSearch.QueryShape | api/src/main/java/org/openmrs/api/db/hibernate/PatientSearchCriteria.java:141-155 | The single-query search fails iff the query is null. Otherwise it adds one OR of the name, attribute and non-exact identifier restrictions (no type restriction), then `voided = false`. |
| Text.TrimEmptyIff | api/src/main/java/org/openmrs/api/db/hibernate/PatientSearchCriteria.java:365 | `trim()` gives the empty string iff every character is at or below U+0020. |
| Text.JavaSplitJoin | api/src/main/java/org/openmrs/api/db/hibernate/PatientSearchCriteria.java:292 | For a string that does not end with the separator, Java's split keeps every piece, no piece holds the separator, and joining the pieces gives the string back. |
| Text.StripLeadingPadding | api/src/main/java/org/openmrs/api/db/hibernate/PatientSearchCriteria.java:307-308 | `replaceFirst("^c+", "")` removes exactly a leading run of `c`. |

## Left out

- Hibernate aliases (`addAliasForName`, `addAliasForIdentifiers`, the attribute alias), the ordering by names (`orderByNames`), `DISTINCT_ROOT_ENTITY` and debug logging are not modelled. They do not affect which restrictions are added.
- The administration service and the session factory are parameters (`Settings`, `Dialect`). How the global properties are read, and their defaults, are not modelled.
- `HibernateUtil.escapeSqlWildcards` is not part of this model. It is an arbitrary function `Dialect.escape` applied to non-null strings, and null is assumed to stay null.
- `PersonSearchCriteria` is not part of this model. Each attribute restriction is an opaque `Attr(word)`, and the attribute match mode is not modelled.
- `ReplaceAll` models `String.replaceAll` only for a literal pattern (the markers have no metacharacters) and a replacement without `$` or `\`. An identifier holding those characters would be treated as a group reference or escape in Java.
- `RemovePadding` treats the padding character as a literal. A regular-expression metacharacter there (for example `^.*`) would change the Java pattern's meaning.
- Strings are sequences of Unicode scalar values, where Java's are sequences of UTF-16 code units. The two differ only for characters outside the Basic Multilingual Plane, which Java stores as two units. `equalsIgnoreCase` is modelled for ASCII letters only.
- NameCriteria.IsShortName: counts a name's length in Unicode scalar values, where Java's `length()` counts UTF-16 code units. A name holding characters outside the Basic Multilingual Plane is shorter here than in Java (with a minimum of 3, "𝔸𝔹" is short here and long in Java).
- NameCriteria.CriterionForName: chooses between the exact and the `like` comparison by `IsShortName`, so it inherits that difference in counting length.
- SearchString.ReplaceSearchString: takes the identifier's last character as the check digit. When that character lies outside the Basic Multilingual Plane, Java's `substring` takes only its low surrogate, while the model takes the whole character, and `@SEARCH-1@` differs likewise.
- SearchString.ReplacePass: proved only for templates whose literal text contains no '@' and does not start with 'S', and, for the `@CHECKDIGIT@` pass, holds no other kind of marker. Outside these conditions markers and text can combine into a different marker: `@CHECKDIGIT@SEARCH-1@CHECKDIGIT@` under the `@SEARCH-1@` pass with `X` becomes `@CHECKDIGITXCHECKDIGIT@`.
- SearchString.ReplaceSearchStringExpands: proved only for templates whose literal text, and for identifiers that, contain no '@' and do not start with 'S'. Otherwise a marker's closing '@' could combine with the following text into another marker. The concrete examples cover the common templates.
- The `switch` of `prepareCriteria` is modelled as one method per case (`AddNameSearch`, ...) called from `AddModeRestrictions`. The order of the additions is the source's.
