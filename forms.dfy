/** The renewal form's date check. A proposed due-back date is accepted from
    today up to four weeks ahead and returned unchanged; otherwise the form
    reports why it was refused. Dates are day numbers. */
module Forms {
  import opened Wrappers

  const RenewalInPast: string := "Invalid date - renewal in past"
  const RenewalTooFarAhead: string := "Invalid date - renewal more than 4 weeks ahead"

  /** The latest accepted renewal, in days after today: four weeks. */
  const MaxRenewalDays: int := 28

  /** Validates the renewal date field: the past is checked first, then the four-week limit. */
  function CleanRenewalDate(date: int, today: int): (r: Result<int, string>)
    ensures r.Success? <==> today <= date <= today + MaxRenewalDays
    ensures r.Success? ==> r.value == date
    ensures date < today ==> r == Failure(RenewalInPast)
    ensures date > today + MaxRenewalDays ==> r == Failure(RenewalTooFarAhead)
  {
    if date < today then Failure(RenewalInPast)
    else if date > today + MaxRenewalDays then Failure(RenewalTooFarAhead)
    else Success(date)
  }

  /** A refusal always carries one of the two reasons, and the two reasons differ. */
  lemma RefusalReasons(date: int, today: int)
    requires CleanRenewalDate(date, today).Failure?
    ensures CleanRenewalDate(date, today).error in {RenewalInPast, RenewalTooFarAhead}
    ensures RenewalInPast != RenewalTooFarAhead
  {
    assert |RenewalInPast| != |RenewalTooFarAhead|;
  }
}
