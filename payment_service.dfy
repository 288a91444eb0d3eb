/** The payment service: voucher validation with its discount arithmetic,
    checkout creation (which redeems the voucher and records a pending
    payment), the provider's success callback, and refunds. The payment
    provider is not modelled: what it returns is a parameter of the call. */
module PaymentService {
  import opened Common
  import opened Time
  import opened Records
  import opened Database
  import BookingService

  datatype PaymentError =
    | BookingNotFound
    | Forbidden
    | NoBookingInMetadata
    | PaymentNotFound
    | NotCompleted
    | NoSessionReference
    /** The provider's call threw; its message is passed through. */
    | ProviderFailed(message: string)

  /** The `Error` message each failure throws. */
  function ErrorMessage(e: PaymentError): string
  {
    match e
    case BookingNotFound => "Booking not found"
    case Forbidden => "Forbidden"
    case NoBookingInMetadata => "No bookingId in session metadata"
    case PaymentNotFound => "Payment not found"
    case NotCompleted => "Only completed payments can be refunded"
    case NoSessionReference => "No provider session reference on payment"
    case ProviderFailed(m) => m
  }

  function Max(a: int, b: int): int { if a >= b then a else b }

  // ---------------------------------------------------------------------------
  // Amounts as text: `(cents / 100).toFixed(2)`
  // ---------------------------------------------------------------------------

  /** A non-negative amount of cents written in dollars with two decimals. */
  function FormatUnsigned(a: nat): string
  {
    NatToString(a / 100) + "." + PadStart2(NatToString(a % 100))
  }

  /** An amount of cents written in dollars with two decimals, a leading `-`
      when negative. */
  function FormatCents(c: int): string
  {
    if c < 0 then "-" + FormatUnsigned(-c) else FormatUnsigned(c)
  }

  /** Reads back digits, a point and two more digits as a number of cents. */
  function ParseUnsigned(s: string): Option<nat>
  {
    if |s| < 4 || s[|s| - 3] != '.' then None
    else
      var whole, frac := s[..|s| - 3], s[|s| - 2..];
      if !AllDigits(whole) || !AllDigits(frac) then None
      else Some(DigitsValue(whole) * 100 + DigitsValue(frac))
  }

  /** Reads back an amount written as `FormatCents` writes it. */
  function ParseCents(s: string): Option<int>
  {
    if |s| > 0 && s[0] == '-' then
      match ParseUnsigned(s[1..])
      case Some(v) => Some(-(v as int))
      case None => None
    else
      match ParseUnsigned(s)
      case Some(v) => Some(v)
      case None => None
  }

  lemma FormatUnsignedParts(a: nat)
    ensures var s := FormatUnsigned(a);
      && |s| >= 4 && s[|s| - 3] == '.' && IsDigit(s[0])
      && s[..|s| - 3] == NatToString(a / 100)
      && s[|s| - 2..] == [DigitChar(a % 100 / 10), DigitChar(a % 100 % 10)]
  {
    TwoDigits(a % 100);
    var s := FormatUnsigned(a);
    assert s == NatToString(a / 100) + "." + [DigitChar(a % 100 / 10), DigitChar(a % 100 % 10)];
  }

  lemma UnsignedRoundTrip(a: nat)
    ensures ParseUnsigned(FormatUnsigned(a)) == Some(a)
  {
    var s := FormatUnsigned(a);
    FormatUnsignedParts(a);
    NatToStringRoundTrip(a / 100);
    TwoDigitValue(s[|s| - 2..]);
  }

  /** The dollar text denotes exactly the amount of cents it was made from. */
  lemma CentsRoundTrip(c: int)
    ensures ParseCents(FormatCents(c)) == Some(c)
  {
    if c < 0 {
      NegativeRoundTrip(c);
    } else {
      UnsignedRoundTrip(c);
      FormatUnsignedParts(c);
    }
  }

  lemma NegativeRoundTrip(c: int)
    requires c < 0
    ensures ParseCents(FormatCents(c)) == Some(c)
  {
    UnsignedRoundTrip(-c);
    ParseSigned(FormatUnsigned(-c), -c);
    assert FormatCents(c) == "-" + FormatUnsigned(-c);
  }

  lemma ParseSigned(u: string, v: nat)
    requires ParseUnsigned(u) == Some(v)
    ensures ParseCents("-" + u) == Some(-(v as int))
  {
    assert ("-" + u)[1..] == u;
  }

  // ---------------------------------------------------------------------------
  // validateVoucher
  // ---------------------------------------------------------------------------

  /** `{ valid: false, error }` or `{ valid: true, discountAud, finalAud,
      discountCents, finalCents }`. */
  datatype VoucherCheck =
    | Rejected(error: string)
    | Accepted(discountAud: string, finalAud: string, discountCents: int, finalCents: int)

  const INVALID_CODE: string := "Invalid voucher code"
  const EXPIRED: string := "Voucher has expired"
  const NOT_YET_ACTIVE: string := "Voucher is not yet active"
  const USED_UP: string := "Voucher usage limit reached"

  /** The active voucher with the code (the lookup is limited to one row). */
  function ActiveVoucher(vouchers: seq<Voucher>, code: string): Option<Voucher>
  {
    Find(vouchers, (v: Voucher) => v.code == code && v.isActive)
  }

  /** The discount a voucher gives on an amount. A percentage or fixed amount
      that is missing or zero gives nothing; a percentage is rounded to the
      nearest cent, halves upwards (`Math.round`); a fixed amount never exceeds
      the amount; a free lesson takes all of it. */
  function Discount(v: Voucher, amountCents: int): int
  {
    match v.voucherType
    case Percentage =>
      if v.discountPercent.Some? && v.discountPercent.value != 0
      then (amountCents * v.discountPercent.value + 50) / 100 else 0
    case FixedAmount =>
      if v.discountCents.Some? && v.discountCents.value != 0
      then (if v.discountCents.value <= amountCents then v.discountCents.value else amountCents) else 0
    case FreeLesson => amountCents
  }

  /** `validateVoucher(code, amountCents)` at instant `now`. */
  function ValidateVoucher(vouchers: seq<Voucher>, code: string, amountCents: int, now: Instant): VoucherCheck
  {
    match ActiveVoucher(vouchers, code)
    case None => Rejected(INVALID_CODE)
    case Some(v) =>
      if v.validUntil.Some? && v.validUntil.value < now then Rejected(EXPIRED)
      else if v.validFrom > now then Rejected(NOT_YET_ACTIVE)
      else if v.maxUses.Some? && v.timesUsed >= v.maxUses.value then Rejected(USED_UP)
      else
        var d := Discount(v, amountCents);
        var f := Max(0, amountCents - d);
        Accepted(FormatCents(d), FormatCents(f), d, f)
  }

  /** A voucher can be redeemed at `now` when its validity window contains
      `now` and it has uses left. */
  predicate Redeemable(v: Voucher, now: Instant)
  {
    v.validFrom <= now
    && (v.validUntil.None? || now <= v.validUntil.value)
    && (v.maxUses.None? || v.timesUsed < v.maxUses.value)
  }

  /** A voucher is accepted exactly when an active voucher has the code and is
      redeemable. Each rejection message is returned exactly when its test is
      the first to fail, in the order unknown code, expiry, start date, usage
      limit. */
  lemma ValidateVoucherRules(vouchers: seq<Voucher>, code: string, amountCents: int, now: Instant)
    ensures var r := ValidateVoucher(vouchers, code, amountCents, now);
            var v := ActiveVoucher(vouchers, code);
      && (v.Some? ==> v.value in vouchers && v.value.code == code && v.value.isActive)
      && (r.Accepted? <==> v.Some? && Redeemable(v.value, now))
      && (r == Rejected(INVALID_CODE) <==>
            forall i :: 0 <= i < |vouchers| ==> vouchers[i].code != code || !vouchers[i].isActive)
      && (r == Rejected(EXPIRED) <==>
            v.Some? && v.value.validUntil.Some? && v.value.validUntil.value < now)
      && (r == Rejected(NOT_YET_ACTIVE) <==>
            v.Some? && (v.value.validUntil.None? || now <= v.value.validUntil.value)
            && v.value.validFrom > now)
      && (r == Rejected(USED_UP) <==>
            v.Some? && (v.value.validUntil.None? || now <= v.value.validUntil.value)
            && v.value.validFrom <= now
            && v.value.maxUses.Some? && v.value.timesUsed >= v.value.maxUses.value)
  {}

  /** On acceptance the final price is the amount less the discount, never
      below zero, and both amounts are written as the dollar text of their
      cents. */
  lemma AcceptedAmounts(vouchers: seq<Voucher>, code: string, amountCents: int, now: Instant)
    requires ValidateVoucher(vouchers, code, amountCents, now).Accepted?
    ensures var r := ValidateVoucher(vouchers, code, amountCents, now);
      && r.finalCents >= 0
      && r.finalCents == Max(0, amountCents - r.discountCents)
      && r.discountCents == Discount(ActiveVoucher(vouchers, code).value, amountCents)
      && ParseCents(r.discountAud) == Some(r.discountCents)
      && ParseCents(r.finalAud) == Some(r.finalCents)
  {
    var r := ValidateVoucher(vouchers, code, amountCents, now);
    CentsRoundTrip(r.discountCents);
    CentsRoundTrip(r.finalCents);
  }

  /** A percentage discount is the nearest whole cent to the exact share,
      halves rounded up. */
  lemma PercentageRounding(v: Voucher, amountCents: int)
    requires v.voucherType == Percentage && v.discountPercent.Some? && v.discountPercent.value != 0
    ensures var d := Discount(v, amountCents);
      100 * d - 50 <= amountCents * v.discountPercent.value < 100 * d + 50
  {}

  /** Fixed-amount and free-lesson vouchers split the amount exactly between
      the discount and the final price, and a free lesson costs nothing. A
      percentage between 0 and 100 does the same for a non-negative amount. */
  lemma DiscountSplitsAmount(v: Voucher, amountCents: int)
    ensures v.voucherType != Percentage && amountCents >= 0 ==>
      Discount(v, amountCents) <= amountCents
      && Discount(v, amountCents) + Max(0, amountCents - Discount(v, amountCents)) == amountCents
    ensures v.voucherType == FreeLesson ==> Max(0, amountCents - Discount(v, amountCents)) == 0
    ensures v.voucherType == Percentage && amountCents >= 0 && v.discountPercent.Some?
            && 0 <= v.discountPercent.value <= 100 ==>
      0 <= Discount(v, amountCents) <= amountCents
      && Discount(v, amountCents) + Max(0, amountCents - Discount(v, amountCents)) == amountCents
  {
    if v.voucherType == Percentage && amountCents >= 0 && v.discountPercent.Some?
       && 0 <= v.discountPercent.value <= 100 && v.discountPercent.value != 0 {
      var p := v.discountPercent.value;
      MulLe(amountCents, p, 100);
      MulLe(amountCents, 0, p);
    }
  }

  // ---------------------------------------------------------------------------
  // createBookingCheckout
  // ---------------------------------------------------------------------------

  /** What the provider returns for a new checkout session, and what the call returns. */
  datatype CheckoutSession = CheckoutSession(url: string, sessionId: string)

  const DEFAULT_DESCRIPTION: string := "Driving Lesson"

  /** What the checkout charges before any voucher: the booked service's
      price and name, or nothing under a generic name when the booking has
      no service or the service row is gone. */
  datatype Price = Price(amountCents: int, name: string)

  function ListPrice(services: seq<Service>, booking: Booking): Price
  {
    if booking.serviceId.None? then Price(0, DEFAULT_DESCRIPTION)
    else match BookingService.ServiceById(services, booking.serviceId.value)
      case Some(s) => Price(s.priceCents, s.name)
      case None => Price(0, DEFAULT_DESCRIPTION)
  }

  /** The decided charge: the booking and its paying student, the amount and
      discount, the description, and whether the voucher is redeemed. */
  datatype Quote = Quote(booking: Booking, student: Student, amountCents: int, discountCents: int,
                         description: string, redeemed: bool)

  /** A voucher code is applied when it is non-empty and validates with a
      non-zero discount. */
  predicate Applies(check: VoucherCheck) { check.Accepted? && check.discountCents != 0 }

  /** Everything the checkout decides before it calls the provider. */
  function CheckoutQuote(bookings: seq<Booking>, students: seq<Student>, services: seq<Service>,
                         vouchers: seq<Voucher>, bookingId: Id, studentProfileId: Id,
                         voucherCode: Option<string>, now: Instant): Result<Quote, PaymentError>
  {
    match BookingService.BookingById(bookings, bookingId)
    case None => Err(BookingNotFound)
    case Some(booking) =>
      match BookingService.StudentOfProfile(students, studentProfileId)
      case None => Err(Forbidden)
      case Some(student) =>
        if booking.studentId != student.id then Err(Forbidden)
        else
          var price := ListPrice(services, booking);
          if voucherCode.Some? && voucherCode.value != [] then
            var check := ValidateVoucher(vouchers, voucherCode.value, price.amountCents, now);
            if Applies(check) then
              Ok(Quote(booking, student, check.finalCents, check.discountCents, price.name, true))
            else Ok(Quote(booking, student, price.amountCents, 0, price.name, false))
          else Ok(Quote(booking, student, price.amountCents, 0, price.name, false))
  }

  /** The voucher table after one use of `code`: every row with the code gets
      the first such row's use count plus one. */
  function Redeem(vouchers: seq<Voucher>, code: string): seq<Voucher>
  {
    match Find(vouchers, (v: Voucher) => v.code == code)
    case None => vouchers
    case Some(first) =>
      UpdateWhere(vouchers, (v: Voucher) => v.code == code, (v: Voucher) => v.(timesUsed := first.timesUsed + 1))
  }

  /** The pending payment row the checkout records. */
  function PendingPayment(q: Quote, bookingId: Id, sessionId: string, voucherCode: Option<string>,
                          now: Instant): Payment
  {
    Payment(0, q.booking.instructorId, Some(q.student.id), Some(bookingId), q.amountCents, q.discountCents,
            "AUD", PaymentPending, "stripe", Some(sessionId), Some(q.description), voucherCode,
            None, None, 0, now)
  }

  /** `createBookingCheckout(bookingId, studentProfileId, voucherCode)`;
      `session` is what the provider's session call returns or throws. The
      voucher is redeemed before that call, so a failing provider still
      costs the voucher a use. */
  method CreateBookingCheckout(db: Db, bookingId: Id, studentProfileId: Id, voucherCode: Option<string>,
                               session: Result<CheckoutSession, string>, env: Env)
    returns (r: Result<CheckoutSession, PaymentError>)
    requires db.Valid()
    modifies db`vouchers, db`payments, db`nextId
    ensures db.Valid()
    ensures match CheckoutQuote(old(db.bookings), old(db.students), old(db.services), old(db.vouchers),
                                bookingId, studentProfileId, voucherCode, env.now)
      case Err(e) =>
        r == Err(e) && db.vouchers == old(db.vouchers) && db.payments == old(db.payments)
        && db.nextId == old(db.nextId)
      case Ok(q) =>
        && db.vouchers == (if q.redeemed then Redeem(old(db.vouchers), voucherCode.value) else old(db.vouchers))
        && match session
           case Err(m) => r == Err(ProviderFailed(m)) && db.payments == old(db.payments) && db.nextId == old(db.nextId)
           case Ok(s) =>
             r == Ok(s)
             && db.payments == old(db.payments)
                               + [PendingPayment(q, bookingId, s.sessionId, voucherCode, env.now).(id := old(db.nextId))]
  {
    var quote := CheckoutQuote(db.bookings, db.students, db.services, db.vouchers,
                               bookingId, studentProfileId, voucherCode, env.now);
    if quote.Err? {
      return Err(quote.error);
    }
    var q := quote.value;
    if q.redeemed {
      RedeemKeepsCodes(db.vouchers, voucherCode.value);
      db.SetVouchers(Redeem(db.vouchers, voucherCode.value));
    }
    if session.Err? {
      return Err(ProviderFailed(session.error));
    }
    var _ := db.InsertPayment(PendingPayment(q, bookingId, session.value.sessionId, voucherCode, env.now));
    r := Ok(session.value);
  }

  lemma RedeemKeepsCodes(vouchers: seq<Voucher>, code: string)
    requires UniqueVoucherCodes(vouchers)
    ensures var after := Redeem(vouchers, code);
      |after| == |vouchers| && UniqueVoucherCodes(after)
      && forall i :: 0 <= i < |vouchers| ==> after[i].code == vouchers[i].code
  {}

  /** With codes unique, redeeming adds exactly one use to the voucher with
      the code and changes nothing else. */
  lemma RedeemCountsOneUse(vouchers: seq<Voucher>, code: string)
    requires UniqueVoucherCodes(vouchers)
    ensures var after := Redeem(vouchers, code);
      |after| == |vouchers|
      && forall i :: 0 <= i < |vouchers| ==>
           after[i] == if vouchers[i].code == code then vouchers[i].(timesUsed := vouchers[i].timesUsed + 1)
                       else vouchers[i]
  {
    var f := Find(vouchers, (v: Voucher) => v.code == code);
    if f.Some? {
      var k :| 0 <= k < |vouchers| && vouchers[k] == f.value;
      forall i | 0 <= i < |vouchers| && vouchers[i].code == code
        ensures vouchers[i] == f.value
      {
        assert vouchers[i].code == vouchers[k].code;
      }
    }
  }

  /** The checkout refuses an unknown booking and, for a booking that exists,
      any caller who is not its student; otherwise it charges the list price,
      less the voucher's discount exactly when the voucher applies, and
      redeems the voucher only then; the amount and discount recorded are
      the ones the voucher's validation computed. */
  lemma CheckoutQuoteRules(bookings: seq<Booking>, students: seq<Student>, services: seq<Service>,
                           vouchers: seq<Voucher>, bookingId: Id, studentProfileId: Id,
                           voucherCode: Option<string>, now: Instant)
    requires OneStudentPerProfile(students)
    ensures var r := CheckoutQuote(bookings, students, services, vouchers, bookingId, studentProfileId,
                                   voucherCode, now);
      && (r == Err(BookingNotFound) <==> forall i :: 0 <= i < |bookings| ==> bookings[i].id != bookingId)
      && (r.Ok? <==>
            BookingService.BookingById(bookings, bookingId).Some?
            && exists s :: s in students && s.profileId == studentProfileId
                           && s.id == BookingService.BookingById(bookings, bookingId).value.studentId)
      && (r.Ok? ==>
            var q := r.value;
            var price := ListPrice(services, q.booking);
            && q.booking.id == bookingId && q.booking in bookings
            && q.student in students && q.student.profileId == studentProfileId
            && q.booking.studentId == q.student.id
            && q.description == price.name
            && (q.redeemed <==>
                  voucherCode.Some? && voucherCode.value != []
                  && Applies(ValidateVoucher(vouchers, voucherCode.value, price.amountCents, now)))
            && (q.redeemed ==>
                  && voucherCode.Some?
                  && var check := ValidateVoucher(vouchers, voucherCode.value, price.amountCents, now);
                  && q.discountCents == check.discountCents && q.discountCents != 0
                  && q.amountCents == check.finalCents
                  && q.discountCents == Discount(ActiveVoucher(vouchers, voucherCode.value).value, price.amountCents)
                  && q.amountCents == Max(0, price.amountCents - q.discountCents))
            && (!q.redeemed ==> q.amountCents == price.amountCents && q.discountCents == 0))
  {
    var b := BookingService.BookingById(bookings, bookingId);
    var st := BookingService.StudentOfProfile(students, studentProfileId);
    if b.Some? && st.Some? {
      var k :| 0 <= k < |students| && students[k] == st.value;
      forall s | s in students && s.profileId == studentProfileId
        ensures s == st.value
      {
        var i :| 0 <= i < |students| && students[i] == s;
        assert students[i].profileId == students[k].profileId;
      }
      var price := ListPrice(services, b.value);
      if voucherCode.Some? && voucherCode.value != [] {
        var check := ValidateVoucher(vouchers, voucherCode.value, price.amountCents, now);
        if Applies(check) {
          AcceptedAmounts(vouchers, voucherCode.value, price.amountCents, now);
        }
      }
    }
  }

  // ---------------------------------------------------------------------------
  // handlePaymentSuccess
  // ---------------------------------------------------------------------------

  /** Every payment of the session marked completed and paid now. */
  function CompleteSession(payments: seq<Payment>, sessionId: string, now: Instant): seq<Payment>
  {
    UpdateWhere(payments, (p: Payment) => p.providerSessionId == Some(sessionId),
                (p: Payment) => p.(status := PaymentCompleted, paidAt := Some(now), updatedAt := now))
  }

  /** The booking marked confirmed now. */
  function ConfirmBooking(bookings: seq<Booking>, id: Id, now: Instant): seq<Booking>
  {
    UpdateWhere(bookings, (b: Booking) => b.id == id,
                (b: Booking) => b.(status := Confirmed, confirmedAt := Some(now), updatedAt := now))
  }

  function SuccessAudit(bookingId: Id, sessionId: string): AuditEntry
  {
    AuditEntry(None, "PAYMENT_SUCCESS", "payment", bookingId, PaymentSuccessPayload(bookingId, sessionId))
  }

  /** `handlePaymentSuccess(stripeSessionId)`; `metadataBookingId` is the
      `bookingId` the provider's session carries, None when it is absent or
      empty. */
  method HandlePaymentSuccess(db: Db, stripeSessionId: string, metadataBookingId: Option<Id>, env: Env)
    returns (r: Result<(), PaymentError>)
    requires db.Valid()
    modifies db`payments, db`bookings, db`audit
    ensures db.Valid()
    ensures metadataBookingId.None? ==>
      r == Err(NoBookingInMetadata) && db.payments == old(db.payments) && db.bookings == old(db.bookings)
      && db.audit == old(db.audit)
    ensures metadataBookingId.Some? ==>
      && r == Ok(())
      && db.payments == CompleteSession(old(db.payments), stripeSessionId, env.now)
      && db.bookings == ConfirmBooking(old(db.bookings), metadataBookingId.value, env.now)
      && db.audit == old(db.audit) + [SuccessAudit(metadataBookingId.value, stripeSessionId)]
  {
    if metadataBookingId.None? {
      return Err(NoBookingInMetadata);
    }
    var bookingId := metadataBookingId.value;
    db.SetPayments(CompleteSession(db.payments, stripeSessionId, env.now));
    db.SetBookings(ConfirmBooking(db.bookings, bookingId, env.now));
    db.audit := db.audit + [SuccessAudit(bookingId, stripeSessionId)];
    r := Ok(());
  }

  /** The success callback completes exactly the session's payments and
      confirms exactly the named booking, whatever state either was in:
      neither a cancelled booking nor a refunded payment is exempt. */
  lemma PaymentSuccessEffects(payments: seq<Payment>, bookings: seq<Booking>, sessionId: string, bookingId: Id,
                              now: Instant)
    ensures var ps := CompleteSession(payments, sessionId, now);
      |ps| == |payments|
      && forall i :: 0 <= i < |payments| ==>
           if payments[i].providerSessionId == Some(sessionId)
           then ps[i].status == PaymentCompleted && ps[i].paidAt == Some(now)
                && ps[i] == payments[i].(status := ps[i].status, paidAt := ps[i].paidAt, updatedAt := now)
           else ps[i] == payments[i]
    ensures var bs := ConfirmBooking(bookings, bookingId, now);
      |bs| == |bookings|
      && forall i :: 0 <= i < |bookings| ==>
           if bookings[i].id == bookingId
           then bs[i].status == Confirmed && bs[i].confirmedAt == Some(now)
                && bs[i] == bookings[i].(status := Confirmed, confirmedAt := Some(now), updatedAt := now)
           else bs[i] == bookings[i]
  {}

  // ---------------------------------------------------------------------------
  // processRefund
  // ---------------------------------------------------------------------------

  function PaymentById(payments: seq<Payment>, id: Id): Option<Payment>
  {
    Find(payments, (p: Payment) => p.id == id)
  }

  /** Why a refund is refused, if it is: the payment must exist, be
      completed, and carry a non-empty provider session reference. Who asks
      is not consulted. */
  function RefundRefusal(existing: Option<Payment>): Option<PaymentError>
  {
    if existing.None? then Some(PaymentNotFound)
    else if existing.value.status != PaymentCompleted then Some(NotCompleted)
    else if existing.value.providerSessionId.None? || existing.value.providerSessionId.value == [] then
      Some(NoSessionReference)
    else None
  }

  /** The payment marked refunded now, in full: the refunded amount is the
      amount the looked-up row was charged. */
  function Refund(payments: seq<Payment>, id: Id, amountCents: int, now: Instant): seq<Payment>
  {
    UpdateWhere(payments, (p: Payment) => p.id == id,
                (p: Payment) => p.(status := Refunded, refundedAt := Some(now), refundedCents := amountCents,
                                  updatedAt := now))
  }

  function RefundAudit(actor: Id, paymentId: Id, paymentIntentId: string): AuditEntry
  {
    AuditEntry(Some(actor), "PAYMENT_REFUNDED", "payment", paymentId, PaymentRefundedPayload(paymentIntentId))
  }

  /** `processRefund(paymentId, instructorProfileId)`; `intent` is the
      payment intent the provider reports for the session once the refund
      has gone through, or the message of the provider call that threw. */
  method ProcessRefund(db: Db, paymentId: Id, instructorProfileId: Id, intent: Result<string, string>, env: Env)
    returns (r: Result<(), PaymentError>)
    requires db.Valid()
    modifies db`payments, db`audit
    ensures db.Valid()
    ensures var existing := PaymentById(old(db.payments), paymentId);
      match RefundRefusal(existing)
      case Some(e) => r == Err(e) && db.payments == old(db.payments) && db.audit == old(db.audit)
      case None =>
        match intent
        case Err(m) => r == Err(ProviderFailed(m)) && db.payments == old(db.payments) && db.audit == old(db.audit)
        case Ok(pi) =>
          && r == Ok(())
          && db.payments == Refund(old(db.payments), paymentId, existing.value.amountCents, env.now)
          && db.audit == old(db.audit) + [RefundAudit(instructorProfileId, paymentId, pi)]
  {
    var existing := PaymentById(db.payments, paymentId);
    var refusal := RefundRefusal(existing);
    if refusal.Some? {
      return Err(refusal.value);
    }
    if intent.Err? {
      return Err(ProviderFailed(intent.error));
    }
    db.SetPayments(Refund(db.payments, paymentId, existing.value.amountCents, env.now));
    db.audit := db.audit + [RefundAudit(instructorProfileId, paymentId, intent.value)];
    r := Ok(());
  }

  /** A refund goes through exactly for a completed payment with a provider
      session reference. */
  lemma RefundRefusalRules(payments: seq<Payment>, id: Id)
    ensures var existing := PaymentById(payments, id);
      RefundRefusal(existing).None? <==>
        existing.Some? && existing.value.status == PaymentCompleted
        && existing.value.providerSessionId.Some? && existing.value.providerSessionId.value != []
    ensures (forall i :: 0 <= i < |payments| ==> payments[i].id != id) ==>
      RefundRefusal(PaymentById(payments, id)) == Some(PaymentNotFound)
  {}

  /** A payment is refunded at most once: after a refund the same request is
      refused, because the payment is no longer completed. */
  lemma RefundIsOneShot(payments: seq<Payment>, id: Id, amountCents: int, now: Instant)
    requires PaymentById(payments, id).Some?
    ensures RefundRefusal(PaymentById(Refund(payments, id, amountCents, now), id)) == Some(NotCompleted)
  {
    var after := Refund(payments, id, amountCents, now);
    var k :| 0 <= k < |payments| && payments[k] == PaymentById(payments, id).value;
    assert after[k].id == id;
    var found := PaymentById(after, id);
    var j :| 0 <= j < |after| && after[j] == found.value;
  }

  /** The refund returns the whole charge and touches no other payment. */
  lemma RefundChangesOnlyTarget(payments: seq<Payment>, id: Id, now: Instant)
    requires PaymentById(payments, id).Some?
    ensures var existing := PaymentById(payments, id).value;
      var after := Refund(payments, id, existing.amountCents, now);
      |after| == |payments|
      && forall i :: 0 <= i < |payments| ==>
           if payments[i].id == id
           then after[i].status == Refunded && after[i].refundedAt == Some(now)
                && after[i].refundedCents == existing.amountCents
                && after[i].amountCents == payments[i].amountCents
           else after[i] == payments[i]
  {}

  /** Since the success callback does not look at a payment's status, a
      replayed callback turns a refunded payment back into a completed one,
      which can then be refunded a second time. */
  lemma ReplayedSuccessReopensRefund(p: Payment, sessionId: string, now: Instant, later: Instant)
    requires p.status == PaymentCompleted && p.providerSessionId == Some(sessionId) && sessionId != []
    ensures var refunded := Refund([p], p.id, p.amountCents, now);
      && RefundRefusal(PaymentById(refunded, p.id)) == Some(NotCompleted)
      && RefundRefusal(PaymentById(CompleteSession(refunded, sessionId, later), p.id)).None?
  {
    var refunded := Refund([p], p.id, p.amountCents, now);
    assert refunded[0].id == p.id;
    var again := CompleteSession(refunded, sessionId, later);
    assert again[0].id == p.id && again[0].status == PaymentCompleted;
  }
}
