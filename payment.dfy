/**
 * The validity check of a payment voucher: an optional validity window and
 * an optional limit on how often the voucher may be used. The current time
 * is a parameter; the source reads it from the clock as an aware UTC value.
 */
module Payment {
  import opened Wrappers
  import opened Calendar

  /** The voucher fields the validity check reads. */
  datatype Voucher = Voucher(
    validFrom: Option<CalendarDateTime>,
    validUntil: Option<CalendarDateTime>,
    reusable: int,
    useCounter: int)

  /**
   * `Voucher.is_valid` as written; `None` where a comparison of the aware
   * clock reading with a naive bound raises `TypeError`.
   */
  function IsValidAsWritten(v: Voucher, now: CalendarDateTime): (r: Option<bool>)
    requires IsUtcNow(now)
    ensures r.None? ==>
      (v.validFrom.Some? && !IsAware(v.validFrom.value)) || (v.validUntil.Some? && !IsAware(v.validUntil.value))
  {
    var early := if v.validFrom.Some? then PyLess(now, v.validFrom.value) else Some(false);
    if early.None? then None
    else if early.value then Some(false)
    else
      var late := if v.validUntil.Some? then PyLess(v.validUntil.value, now) else Some(false);
      if late.None? then None
      else if late.value then Some(false)
      else Some(!(v.reusable > 0 && v.useCounter >= v.reusable))
  }

  /** Whether the use limit still admits a use: a limit of zero or less means unlimited. */
  predicate UsesLeft(v: Voucher)
  {
    v.reusable <= 0 || v.useCounter < v.reusable
  }

  /**
   * `Voucher.is_valid` with every bound comparable: inside the window, both
   * ends included, and not used up.
   */
  function IsValid(v: Voucher, now: CalendarDateTime): (r: bool)
    ensures r <==> InWindow(now, v.validFrom, v.validUntil) && UsesLeft(v)
  {
    if v.validFrom.Some? && UtcSeconds(now) < UtcSeconds(v.validFrom.value) then false
    else if v.validUntil.Some? && UtcSeconds(v.validUntil.value) < UtcSeconds(now) then false
    else if v.reusable > 0 && v.useCounter >= v.reusable then false
    else true
  }

  /** Where every bound present is aware, the source's check raises nothing and agrees with the corrected one. */
  lemma AsWrittenAgrees(v: Voucher, now: CalendarDateTime)
    requires IsUtcNow(now)
    requires v.validFrom.Some? ==> IsAware(v.validFrom.value)
    requires v.validUntil.Some? ==> IsAware(v.validUntil.value)
    ensures IsValidAsWritten(v, now) == Some(IsValid(v, now))
  {
  }

  /** A naive start bound makes the source's check raise, whatever the other fields. */
  lemma NaiveStartRaises(v: Voucher, now: CalendarDateTime)
    requires IsUtcNow(now)
    requires v.validFrom.Some? && !IsAware(v.validFrom.value)
    ensures IsValidAsWritten(v, now).None?
  {
  }

  /** A naive end bound makes the source's check raise once the start bound, if any, is aware and has been passed. */
  lemma NaiveEndRaises(v: Voucher, now: CalendarDateTime)
    requires IsUtcNow(now)
    requires v.validFrom.Some? ==> IsAware(v.validFrom.value) && UtcSeconds(v.validFrom.value) <= UtcSeconds(now)
    requires v.validUntil.Some? && !IsAware(v.validUntil.value)
    ensures IsValidAsWritten(v, now).None?
  {
  }

  /** Both ends of the window are included: a voucher is valid at the very instant it starts and at the one it ends. */
  lemma BoundsInclusive(v: Voucher, now: CalendarDateTime)
    requires UsesLeft(v)
    requires v.validFrom == Some(now) || v.validUntil == Some(now)
    requires v.validFrom.None? || v.validUntil.None? || UtcSeconds(v.validFrom.value) <= UtcSeconds(v.validUntil.value)
    ensures IsValid(v, now)
  {
  }

  /** A use limit of zero means unlimited: the counter never invalidates the voucher. */
  lemma ZeroLimitIsUnlimited(v: Voucher, now: CalendarDateTime, uses: int)
    requires v.reusable == 0
    ensures IsValid(v.(useCounter := uses), now) == IsValid(v, now)
  {
  }

  /** A voucher with no bounds and uses left is valid at every time. */
  lemma UnboundedIsValid(v: Voucher, now: CalendarDateTime)
    requires v.validFrom.None? && v.validUntil.None? && UsesLeft(v)
    ensures IsValid(v, now)
  {
  }

  /** A naive start at 2024-01-01 00:00:00, what the datetime decoder yields for "2024-01-01T00:00:00" (`Types.NaiveIsoDecodes`). */
  const NaiveNewYear: CalendarDateTime := DateTime(Date(2024, 1, 1), 0, 0, 0, None)

  /** A voucher starting at that naive value: the source's check raises, the corrected one decides. */
  lemma NaiveStartExample(now: CalendarDateTime)
    requires IsUtcNow(now)
    ensures IsValidAsWritten(Voucher(Some(NaiveNewYear), None, 0, 0), now).None?
    ensures IsValid(Voucher(Some(NaiveNewYear), None, 0, 0), now) <==> UtcSeconds(NaiveNewYear) <= UtcSeconds(now)
  {
  }
}
