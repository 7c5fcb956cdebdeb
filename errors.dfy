/** The ways a repository operation can be refused. */
module Errors {

  /** An entity that a foreign key or an existence check can point at. */
  datatype Entity = CountryEntity | UniversityEntity | MajorEntity

  /** The unique constraints of the relational schema. */
  datatype UniqueKey =
    | CountrySlug
    | UniversitySlug
    | MajorSlug
    | ArticleSlug
    | UniversityMajorPair
    | Username
    | UserEmail

  /** The dependent rows that make a hard delete refuse. */
  datatype Dependents =
    | UniversitiesOfCountry      // universities.country_id
    | ArticlesOfCountry          // articles.country_id
    | UniversitiesOfMajor        // university_majors.major_id
    | ArticlesOfMajor            // articles.major_id
    | MajorsOfUniversity         // university_majors.university_id

  datatype Error =
    /** A referenced id names no row ("Country with ID 9999 does not exist",
        "Major with id 9999 not found"). */
    | MissingReference(entity: Entity, id: int)
    /** A write would give two rows the same value of a unique column. */
    | UniqueViolation(key: UniqueKey)
    /** A delete would leave rows pointing at the deleted row. */
    | DeleteBlocked(dependents: Dependents)
    /** A tuition fee does not fit numeric(10,2). */
    | NumericOverflow
}
