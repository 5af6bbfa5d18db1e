/** The order-status vocabulary and the status validator shared by the
    request schemas and the order document model. */
module OrderStatus {
  import opened Wrappers
  import Text
  import opened Documents

  /** The stored spelling of each state. */
  function Name(s: Status): string {
    match s
    case Pending => "pending"
    case Confirmed => "confirmed"
    case Processing => "processing"
    case Shipped => "shipped"
    case Delivered => "delivered"
    case Cancelled => "cancelled"
    case Refunded => "refunded"
  }

  /** The accepted spellings, in the order the validator lists them. */
  const ValidNames: seq<string> :=
    ["pending", "confirmed", "processing", "shipped", "delivered", "cancelled", "refunded"]

  /** The state a client string denotes once lower-cased, if any. */
  function Parse(v: string): (r: Option<Status>)
    ensures r.Some? <==> Text.Lower(v) in ValidNames
    ensures r.Some? ==> Name(r.value) == Text.Lower(v)
  {
    var l := Text.Lower(v);
    if l == "pending" then Some(Pending)
    else if l == "confirmed" then Some(Confirmed)
    else if l == "processing" then Some(Processing)
    else if l == "shipped" then Some(Shipped)
    else if l == "delivered" then Some(Delivered)
    else if l == "cancelled" then Some(Cancelled)
    else if l == "refunded" then Some(Refunded)
    else None
  }

  /** Every state's stored spelling reads back as that state, so distinct
      states have distinct spellings. */
  lemma ParseName(s: Status)
    ensures Parse(Name(s)) == Some(s)
  {
    assert Text.IsLower(Name(s));
    Text.LowerOfLower(Name(s));
  }

  /** `validate_status`: accepts a string whose lower-case form is one of the
      seven names and returns that lower-case form. */
  function ValidateStatus(v: string): (r: Result<string, Error>)
    ensures r.Success? <==> Text.Lower(v) in ValidNames
    ensures r.Success? ==> r.value == Text.Lower(v) && r.value in ValidNames
    ensures r.Failure? ==> r.error == Unprocessable
  {
    var l := Text.Lower(v);
    if l in ValidNames then Success(l) else Failure(Unprocessable)
  }

  /** Validating an already-validated status returns it unchanged. */
  lemma ValidateStatusIdempotent(v: string)
    requires ValidateStatus(v).Success?
    ensures ValidateStatus(ValidateStatus(v).value) == ValidateStatus(v)
  {
    Text.LowerIdempotent(v);
  }

  /** The validator and the state vocabulary agree. */
  lemma ValidateStatusAgreesWithParse(v: string)
    ensures ValidateStatus(v).Success? <==> Parse(v).Some?
    ensures Parse(v).Some? ==> ValidateStatus(v).value == Name(Parse(v).value)
  {
  }

  /** The `status` field of an order document: "pending" when not given,
      otherwise validated like a request status. */
  function DocumentStatus(raw: Option<string>): (r: Result<Status, Error>)
    ensures raw.None? ==> r == Success(Pending)
    ensures raw.Some? ==> (r.Success? <==> Text.Lower(raw.value) in ValidNames)
    ensures raw.Some? && r.Success? ==> Name(r.value) == Text.Lower(raw.value)
  {
    match raw
    case None => Success(Pending)
    case Some(v) =>
      match Parse(v)
      case Some(s) => Success(s)
      case None => Failure(Unprocessable)
  }

  /** A mixed-case spelling is accepted and stored lower-case. */
  lemma MixedCaseShipped()
    ensures ValidateStatus("Shipped") == Success("shipped")
  {
    var l := Text.Lower("Shipped");
    assert l[0] == 's';
    assert l == "shipped";
  }

  /** An unknown spelling is rejected. */
  lemma UnknownRejected()
    ensures ValidateStatus("unknown").Failure?
  {
    var l := Text.Lower("unknown");
    assert l[0] == 'u';
  }
}
