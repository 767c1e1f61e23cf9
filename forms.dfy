/** CourseForm.clean_price (courses/forms.py): the price/paid validator. */
module Forms {
  import opened Common

  /** The two validation errors clean_price can raise. */
  datatype PriceError = PaidNeedsPrice | FreeMustBeZero

  /** The text each error is raised with. */
  function Message(e: PriceError): string {
    match e
    case PaidNeedsPrice => "Paid courses must have a price greater than 0."
    case FreeMustBeZero => "Free courses must have a price of 0."
  }

  /** Prices are decimals with two places, modelled in cents. A free course
      with a negative price passes: only a positive price is refused for it. */
  function CleanPrice(price: int, isPaid: bool): (r: Result<int, PriceError>)
    ensures r.Success? <==> (isPaid && price > 0) || (!isPaid && price <= 0)
    ensures r.Success? ==> r.value == price
    ensures r == Failure(PaidNeedsPrice) <==> isPaid && price <= 0
    ensures r == Failure(FreeMustBeZero) <==> !isPaid && price > 0
    ensures r.Failure? && isPaid ==> Message(r.error) == "Paid courses must have a price greater than 0."
    ensures r.Failure? && !isPaid ==> Message(r.error) == "Free courses must have a price of 0."
  {
    if isPaid && price <= 0 then Failure(PaidNeedsPrice)
    else if !isPaid && price > 0 then Failure(FreeMustBeZero)
    else Success(price)
  }
}
