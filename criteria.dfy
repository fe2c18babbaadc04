/**
 * The restriction trees the patient search builds (what Hibernate's
 * Restrictions, Conjunction and Disjunction produce), the configuration it
 * reads, and its one error.
 */
module Criteria {
  import opened Text

  /** The exception a builder can throw. */
  datatype SearchError = IllegalArgument(message: string)

  datatype Result<T> = Success(value: T) | Failure(error: SearchError)

  /** Hibernate's MatchMode for `like`: START is `text%`, ANYWHERE is `%text%`. */
  datatype MatchMode = Start | Anywhere

  /** A reference to a PatientIdentifierType. */
  datatype IdentifierType = IdentifierType(identifierTypeId: int)

  /** The property paths the restrictions name: the patient's own `voided`,
      the `name` alias (person names) and the `ids` alias (identifiers). */
  datatype Field =
    | PatientVoided      // voided
    | NameVoided         // name.voided
    | GivenName          // name.givenName
    | MiddleName         // name.middleName
    | FamilyName         // name.familyName
    | FamilyName2        // name.familyName2
    | IdentifierVoided   // ids.voided
    | IdentifierValue    // ids.identifier
    | IdentifierTypeRef  // ids.identifierType

  datatype Value = BoolValue(b: bool) | StringValue(s: string)

  /** A restriction tree. */
  datatype Predicate =
    | And(conjuncts: seq<Predicate>)                  // Restrictions.conjunction()
    | Or(disjuncts: seq<Predicate>)                   // Restrictions.disjunction(), Restrictions.or
    | Eq(field: Field, value: Value, ignoreCase: bool) // Restrictions.eq, optionally .ignoreCase()
    | Like(field: Field, text: string, mode: MatchMode) // Restrictions.like(field, text, mode)
    | ILike(field: Field, pattern: string)             // Restrictions.ilike(field, pattern)
    | InStrings(field: Field, strings: seq<string>)    // Restrictions.in over strings
    | InTypes(field: Field, types: seq<IdentifierType>) // Restrictions.in over identifier types
    | SqlRegexp(pattern: string)                       // sqlRestriction("identifier regexp ?", pattern)
    | Attr(token: string)                              // a searchable-attribute restriction for one token

  /** What the administration service supplies: the global properties the
      search reads (after their defaults are applied) and whether the
      database compares strings case-sensitively. */
  datatype Settings = Settings(
    minSearchCharacters: int,
    searchMatchMode: string,
    identifierRegex: string,
    identifierSearchPattern: string,
    identifierPrefix: string,
    identifierSuffix: string,
    caseSensitiveStore: bool)

  /** What the session factory decides: how SQL wildcards are escaped and
      whether the dialect is HSQL (which has no `regexp`). */
  datatype Dialect = Dialect(escape: string -> string, isHSQL: bool)

  /** escapeSqlWildcards applied to a reference that may be null; null stays null. */
  function EscapeNullable(dialect: Dialect, s: Option<string>): Option<string> {
    match s
    case None => None
    case Some(v) => Some(dialect.escape(v))
  }

  const PatientNotVoided: Predicate := Eq(PatientVoided, BoolValue(false), false)
  const NameNotVoided: Predicate := Eq(NameVoided, BoolValue(false), false)
  const IdentifierNotVoided: Predicate := Eq(IdentifierVoided, BoolValue(false), false)

  /** A tree whose only comparisons are the `voided = false` checks, so that
      it excludes nothing but voided records. */
  predicate OnlyVoidedChecks(p: Predicate) {
    match p
    case And(cs) => forall c | c in cs :: OnlyVoidedChecks(c)
    case Or(cs) => forall c | c in cs :: OnlyVoidedChecks(c)
    case Eq(_, _, _) => p == PatientNotVoided || p == NameNotVoided || p == IdentifierNotVoided
    case _ => false
  }
}
