/**
 * The constraints the validation pipe enforces on the body of a create
 * request. The email check and the numeric conversion of `year` are library
 * code: the first is the `isEmail` parameter, the second has already
 * happened when a `CreateBody` is built.
 */
module CreatePublicationDto {
  import opened Wrappers
  import opened JsonValues

  /** A number after `Number(...)` conversion; NaN and the infinities are `NonFinite`. */
  datatype Num = Finite(value: real) | NonFinite

  /**
   * The body as received: each field is `None` when absent, and `year` is
   * `None` also when it was `null`, since the optional-field rule skips both.
   */
  datatype CreateBody = CreateBody(title: Option<Json>, author: Option<Json>, year: Option<Num>)

  /** The fields of a body that passed validation, as the store copies them. */
  datatype NewPublication = NewPublication(title: string, author: string, year: Option<int>)

  const MIN_TITLE_LENGTH := 5
  const MIN_YEAR := 1900
  const MAX_YEAR := 2025

  /** `@IsString() @MinLength(5)`. */
  predicate TitleOk(title: Option<Json>) {
    title.Some? && title.value.JString? && |title.value.s| >= MIN_TITLE_LENGTH
  }

  /** `@IsEmail()`, the email rule itself being the library's. */
  predicate AuthorOk(author: Option<Json>, isEmail: string -> bool) {
    author.Some? && author.value.JString? && isEmail(author.value.s)
  }

  /** `@IsOptional() @IsInt() @Min(1900) @Max(2025)` on the converted number. */
  predicate YearOk(year: Option<Num>) {
    match year
    case None => true
    case Some(NonFinite) => false
    case Some(Finite(v)) => v == v.Floor as real && MIN_YEAR as real <= v <= MAX_YEAR as real
  }

  /**
   * Validation of a create body: the fields when every constraint holds,
   * `None` (a 400 from the pipe) otherwise.
   */
  function Validate(body: CreateBody, isEmail: string -> bool): (r: Option<NewPublication>)
    ensures r.Some? <==> TitleOk(body.title) && AuthorOk(body.author, isEmail) && YearOk(body.year)
    ensures r.Some? ==>
      && body.title == Some(JString(r.value.title))
      && body.author == Some(JString(r.value.author))
      && (r.value.year.None? <==> body.year.None?)
      && (r.value.year.Some? ==> body.year == Some(Finite(r.value.year.value as real)))
    ensures r.Some? ==>
      && |r.value.title| >= MIN_TITLE_LENGTH
      && isEmail(r.value.author)
      && (r.value.year.Some? ==> MIN_YEAR <= r.value.year.value <= MAX_YEAR)
  {
    if TitleOk(body.title) && AuthorOk(body.author, isEmail) && YearOk(body.year) then
      var year := match body.year
        case None => None
        case Some(n) => Some(n.value.Floor);
      Some(NewPublication(body.title.value.s, body.author.value.s, year))
    else None
  }

  /** Any well-formed body is accepted and its fields are copied exactly. */
  lemma ValidateAcceptsWellFormed(title: string, author: string, year: Option<int>, isEmail: string -> bool)
    requires |title| >= MIN_TITLE_LENGTH && isEmail(author)
    requires year.Some? ==> MIN_YEAR <= year.value <= MAX_YEAR
    ensures Validate(CreateBody(Some(JString(title)), Some(JString(author)),
                                match year case None => None case Some(y) => Some(Finite(y as real))),
                     isEmail)
         == Some(NewPublication(title, author, year))
  {
  }
}
