/**
 The add/edit form of the developers page: the age it derives from the birth
 date, once for the payload it sends when saving and once for the disabled
 "Idade" field. Both compute `currentYear - birthYear` from calendar years only.
 */
module DeveloperForm {
  import opened Wrappers

  /** The form's fields as the inputs hold them. The level select holds
      `String(dev.nivel_id)` when an edit starts and the picked level's numeric
      id after a pick; the page only passes it on to the payload, so it is
      carried here as its text. */
  datatype Form = Form(
    nome: string,
    sexo: string,
    dataNascimento: string,
    hobby: string,
    nivelId: string)

  /** A JavaScript number produced by the age formula: a whole number of years,
      or NaN when the birth date does not parse. */
  datatype AgeValue = Years(n: int) | NotANumber

  /** The body sent by a save: the computed `idade` followed by the form's fields. */
  datatype Payload = Payload(
    idade: AgeValue,
    nome: string,
    sexo: string,
    dataNascimento: string,
    hobby: string,
    nivelId: string)

  /** What the disabled "Idade" field shows: nothing for an empty date, else the
      formula's value. */
  datatype AgeField = Blank | Shown(value: AgeValue)

  /** The age formula on calendar years: `currentYear - birthYear`. */
  function NaiveAge(currentYear: int, birthYear: int): (age: int)
    ensures birthYear + age == currentYear
  {
    currentYear - birthYear
  }

  /** `new Date().getFullYear() - new Date(s).getFullYear()`. Date parsing is a
      parameter: `yearOf(s)` is the year `s` denotes, or `None` for an invalid
      date, for which `getFullYear()` is NaN and so is the difference. */
  function AgeFromDate(currentYear: int, yearOf: string -> Option<int>, s: string): (v: AgeValue)
    ensures yearOf(s).None? <==> v == NotANumber
    ensures yearOf(s).Some? ==> v == Years(NaiveAge(currentYear, yearOf(s).value))
  {
    match yearOf(s)
    case None => NotANumber
    case Some(y) => Years(NaiveAge(currentYear, y))
  }

  /** The save payload: `{ idade: ..., ...form }`. The form has no `idade`, so the
      spread keeps the computed one, and every form field is sent as typed. */
  function SavePayload(form: Form, currentYear: int, yearOf: string -> Option<int>): (p: Payload)
    ensures p.idade == AgeFromDate(currentYear, yearOf, form.dataNascimento)
    ensures p.nome == form.nome && p.sexo == form.sexo && p.dataNascimento == form.dataNascimento
    ensures p.hobby == form.hobby && p.nivelId == form.nivelId
  {
    Payload(AgeFromDate(currentYear, yearOf, form.dataNascimento),
      form.nome, form.sexo, form.dataNascimento, form.hobby, form.nivelId)
  }

  /** The disabled "Idade" field: blank while the date is empty. */
  function DisplayedAge(form: Form, currentYear: int, yearOf: string -> Option<int>): (f: AgeField)
    ensures f == Blank <==> form.dataNascimento == ""
  {
    if form.dataNascimento == "" then Blank
    else Shown(AgeFromDate(currentYear, yearOf, form.dataNascimento))
  }

  /** Whenever the field shows a value it is the age the save sends. */
  lemma FieldShowsSavedAge(form: Form, currentYear: int, yearOf: string -> Option<int>)
    ensures var f := DisplayedAge(form, currentYear, yearOf);
      f.Shown? ==> f.value == SavePayload(form, currentYear, yearOf).idade
  {
  }

  /** A calendar date. Only the order of dates matters here, so no validity is
      required of the month and day. */
  datatype Date = Date(year: int, month: int, day: int)

  /** `a` is on or before `b`. */
  predicate DateLe(a: Date, b: Date) {
    a.year < b.year ||
    (a.year == b.year && (a.month < b.month || (a.month == b.month && a.day <= b.day)))
  }

  /** The date `n` years after `birth`, same month and day. */
  function Anniversary(birth: Date, n: int): (d: Date)
    ensures d.year == birth.year + n && d.month == birth.month && d.day == birth.day
  {
    Date(birth.year + n, birth.month, birth.day)
  }

  /** On `today`, someone born on `birth` has completed exactly `n` years: the
      `n`-th anniversary has passed and the next has not. */
  ghost predicate IsExactAge(today: Date, birth: Date, n: int) {
    DateLe(Anniversary(birth, n), today) && !DateLe(Anniversary(birth, n + 1), today)
  }

  /** The completed years are unique. */
  lemma ExactAgeIsUnique(today: Date, birth: Date, n: int, m: int)
    requires IsExactAge(today, birth, n) && IsExactAge(today, birth, m)
    ensures n == m
  {
  }

  /** The birthday of the current year has been reached. */
  predicate BirthdayReached(today: Date, birth: Date) {
    birth.month < today.month || (birth.month == today.month && birth.day <= today.day)
  }

  /** Ignoring month and day, the formula gives the completed years once this
      year's birthday has come, and one year too many before it. */
  lemma NaiveAgeOvercountsBeforeBirthday(today: Date, birth: Date)
    ensures var age := NaiveAge(today.year, birth.year);
      (BirthdayReached(today, birth) ==> IsExactAge(today, birth, age)) &&
      (!BirthdayReached(today, birth) ==> IsExactAge(today, birth, age - 1))
  {
  }

  /** The formula is never below the completed years and never more than one above. */
  lemma NaiveAgeWithinOneYear(today: Date, birth: Date, n: int)
    requires IsExactAge(today, birth, n)
    ensures n <= NaiveAge(today.year, birth.year) <= n + 1
    ensures NaiveAge(today.year, birth.year) == n <==> BirthdayReached(today, birth)
  {
    NaiveAgeOvercountsBeforeBirthday(today, birth);
    var age := NaiveAge(today.year, birth.year);
    if BirthdayReached(today, birth) {
      ExactAgeIsUnique(today, birth, n, age);
    } else {
      ExactAgeIsUnique(today, birth, n, age - 1);
    }
  }
}
