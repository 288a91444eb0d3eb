# NexDrive booking, payment and CRM core in Dafny

NexDrive is a platform for driving instructors. Students book lessons in an
instructor's free hours, pay through a checkout (with optional vouchers),
and can be refunded. Instructors keep a CRM of contacts who move through a
lifecycle from prospect to enrolled student. This project models the rules
behind those features and proves what they guarantee:

- **Slot generation and availability.** A day's weekly rule and overrides
  give a window. The window is cut into one-hour slots. Slots that have
  already started, or that overlap a pending or confirmed booking that
  starts the same day, are dropped.
- **Booking creation and status changes.** A booking is written only for a
  slot that is still offered. Each write appends an audit entry. Students
  may only cancel, and only 24 hours ahead.
- **The two HTTP routes in front of them.** These cover parameter
  validation, the 56-day horizon, role-scoped listing, the limit clamp, and
  how errors map to status codes.
- **The payment service.** Vouchers are checked in a fixed order and their
  discounts are computed in whole cents. The checkout records a pending
  payment. The success callback completes the payment and confirms the
  booking. A refund is accepted only for a completed payment.
- **The CRM contact lifecycle table and the CRM service.** The service
  covers search, create, update, stage changes with automatic student
  enrolment, and soft deletion.
- **The local-mode mock booking store and the runtime switches.** The
  switches are local mode, whether Clerk is configured, and how a thrown
  error is classified as a failed dependency.

**How the model is built**

- The relational store is a single class, `Database.Db`, with one sequence
  per table and a key counter. Its invariant `Valid()` says:
  - every key is below the counter;
  - no two bookings, payments or contacts share a key;
  - no profile has two student rows;
  - no two vouchers share a code.
- Each service operation that changes the store is a `method` with a
  `modifies` frame of exactly the tables it writes. Its `ensures` gives the
  new tables in terms of a pure function of the old ones, for example
  `Relabel`, `SetStatus`, `Redeem` or `Refund`. Lemmas then prove the
  promised properties of those functions.
- Pure code is modelled as functions. This covers:
  - the voucher arithmetic;
  - the transition table;
  - the availability filter chain;
  - the mock store;
  - the runtime switches.
- Every call a service makes to something outside this model is a
  parameter. Instants are whole milliseconds. The environment `Env` gives
  the current time and the server's UTC offset. A Stripe call's outcome is
  passed in as a `Result`, and so is an environment variable (as an
  `Option`).

**Behaviours reproduced as written, not corrected**

- Only the first override of a day can block it.
- An opening override has no effect on a day without a rule.
- An override's start and end each fall back to the rule separately.
- Slots are always 60 minutes long, while a booking takes its service's
  duration.
- A window that would hold a slot starting after 24:00 makes slot
  generation throw "Invalid time value". The availability GET then fails
  with an unhandled 500, and booking creation answers 400 with that
  message.
- `createBooking` re-checks availability on the UTC date of the requested
  instant, not its +11:00 date.
- The overlap scan considers only bookings that start on the same day.
- `updateBookingStatus` checks neither the current status nor ownership.
- In `searchContacts`, each `.where()` call replaces the one before it, so a
  search term overrides the lifecycle filter.
- In `createBookingCheckout`, the voucher is used up before Stripe is
  called, so it is spent even when the call fails.

## Model

| member | source | states |
|---|---|---|
| Time.ParseDigitClock | nexdrive-platform/src/lib/services/booking.service.ts:22-26 | "HH:MM" in digits parses to hours·60 + minutes |
| Time.ClockRoundTrip | nexdrive-platform/src/lib/services/booking.service.ts:22-29 | parsing the "HH:MM" text written for a minute below 1440 gives that minute back |
| Time.CivilDayOf | nexdrive-platform/src/lib/services/booking.service.ts:64-65 | every instant lies in exactly one +11:00 civil day, from its 00:00 up to the next day's |
| Time.UtcDay | nexdrive-platform/src/lib/services/booking.service.ts:154-155 | the UTC date of an instant is the day whose midnight-to-midnight span contains it |
| Time.Weekday | nexdrive-platform/src/lib/services/booking.service.ts:48-49 | `getDay()` in the server's zone is always 0 to 6 |
| Time.WeekdayOnCivilServer | nexdrive-platform/src/lib/services/booking.service.ts:48-49 | on a +11:00 server the weekday read is the civil date's own |
| Time.WeekdayOnUtcServer | nexdrive-platform/src/lib/services/booking.service.ts:48-49 | on a UTC server the weekday read is the day before's |
| Time.UtcDayOfCivilMinute | nexdrive-platform/src/lib/services/booking.service.ts:154-156 | a civil minute before 11:00 falls on the previous UTC date, otherwise on the same one |
| Time.EpochIsDayZero | nexdrive-platform/src/app/api/availability/route.ts:19 | the day numbering `new Date(date)` stands for starts at 1970-01-01 |
| Time.NextMonthFollows | nexdrive-platform/src/app/api/availability/route.ts:19 | the first of each month follows the last day of the month before, leap Februaries included |
| Time.NextYearFollows | nexdrive-platform/src/app/api/availability/route.ts:19 | 1 January follows 31 December |
| Time.PastMonthEndRollsOver | nexdrive-platform/src/app/api/availability/route.ts:19 | a day number past the month's end but at most 31 is the same day as the matching day of the next month |
| CrmTypes.StageNamesDistinct | nexdrive-platform/src/lib/types/crm.types.ts:6-13 | two stages have the same stored name exactly when they are the same stage |
| CrmTypes.TableIsTotal | nexdrive-platform/src/lib/types/crm.types.ts:16-24 | every stage has one or two successors, none repeated |
| CrmTypes.ForwardChain | nexdrive-platform/src/lib/types/crm.types.ts:17-22 | each non-inactive successor is one rank further along prospect→…→completed; only completed has none |
| CrmTypes.AnyStageMayLapse | nexdrive-platform/src/lib/types/crm.types.ts:17-22 | a stage may go to inactive exactly when it is not inactive |
| CrmTypes.ReEngageOnly | nexdrive-platform/src/lib/types/crm.types.ts:23 | from inactive the only move is to prospect |
| CrmTypes.NoSelfTransition | nexdrive-platform/src/lib/types/crm.types.ts:16-24 | no stage lists itself |
| Ordering.SortDesc | nexdrive-platform/src/app/api/bookings/route.ts:23 | `ORDER BY … DESC` returns a permutation of its rows |
| Ordering.SortDescSorted | nexdrive-platform/src/app/api/bookings/route.ts:23 | the order is by descending key |
| Ordering.Page | nexdrive-platform/src/app/api/bookings/route.ts:23 | `LIMIT/OFFSET` gives the rows from the offset on, at most limit of them; a negative value is refused |
| Slots.GenerateSlots | nexdrive-platform/src/lib/services/booking.service.ts:20-42 | the while loop returns exactly the slot run of the parsed window and an empty list when either time fails to parse; it throws (`None`) exactly when the window would hold a slot starting after 24:00 |
| Slots.PassesMidnightIff | nexdrive-platform/src/lib/services/booking.service.ts:28-33 | generation throws exactly when some slot of the window's run starts after 24:00 on the day |
| Slots.EarlyEndNeverPasses | nexdrive-platform/src/lib/services/booking.service.ts:28-33 | a window ending no later than one slot after 24:00 never throws |
| Slots.SlotRunIndex | nexdrive-platform/src/lib/services/booking.service.ts:28-38 | the i-th slot starts i slot lengths after the window opens and ends inside it |
| Slots.SlotRunCount | nexdrive-platform/src/lib/services/booking.service.ts:28 | the count is ⌊(end−start)/duration⌋, 0 when the window is shorter than a slot; the leftover is shorter than a slot |
| Slots.SlotRunMember | nexdrive-platform/src/lib/services/booking.service.ts:28-38 | a grid slot is generated exactly when it starts a whole number of slots after the start and fits before the end |
| Slots.SlotRunShape | nexdrive-platform/src/lib/services/booking.service.ts:28-38 | the slots lie wholly in the window, are contiguous, available and each exactly the duration long |
| Slots.NineToFiveParses | nexdrive-platform/src/lib/services/booking.service.ts:22-26 | "09:00", "17:00", "17:30" parse to 540, 1020, 1050 |
| Slots.EightSlotsInAWorkingDay | nexdrive-platform/src/lib/services/booking.service.ts:20-42 | 09:00–17:00 gives eight hourly slots without throwing, and so does 09:00–17:30 |
| Slots.LateWindowThrows | nexdrive-platform/src/lib/services/booking.service.ts:28-33 | a 09:00–26:00 window throws: its 24:00–25:00 slot is followed by one starting at 25:00 |
| Slots.MidnightStartAllowed | nexdrive-platform/src/lib/services/booking.service.ts:28-33 | a 23:00–25:00 window gives exactly the 23:00 and 24:00 slots, the second starting at the next day's midnight |
| Availability.UpcomingMember | nexdrive-platform/src/lib/services/booking.service.ts:88 | a slot survives the time filter exactly when it starts strictly after now |
| Availability.UnclashedMember | nexdrive-platform/src/lib/services/booking.service.ts:105-116 | a slot survives the overlap filter exactly when it overlaps no busy booking |
| Availability.BusyMember | nexdrive-platform/src/lib/services/booking.service.ts:90-103 | a booking is busy exactly when it is the instructor's, pending or confirmed, and starts within the civil day |
| Availability.ClosedOrBlockedDayIsEmpty | nexdrive-platform/src/lib/services/booking.service.ts:51-78 | no active rule for the weekday, or a first override that closes the day, gives an empty list without generating slots |
| Availability.UnparsableWindowIsEmpty | nexdrive-platform/src/lib/services/booking.service.ts:80-85 | a window start or end that does not parse gives an empty list |
| Availability.AvailableSlotsComplete | nexdrive-platform/src/lib/services/booking.service.ts:80-116 | the lookup throws exactly when the window would hold a slot starting after 24:00; otherwise every hourly grid slot of the window that starts after now and clashes with nothing is returned |
| Availability.AvailableSlotsSound | nexdrive-platform/src/lib/services/booking.service.ts:80-116 | every slot of a lookup that does not throw is such a grid slot |
| Availability.SlotRunChronological | nexdrive-platform/src/lib/services/booking.service.ts:28-38 | generated slots start in strictly increasing order |
| Availability.AvailableSlotsChronological | nexdrive-platform/src/lib/services/booking.service.ts:85-118 | the returned slots start in strictly increasing order |
| Availability.ReturnedSlot | nexdrive-platform/src/lib/services/booking.service.ts:85-116 | a returned slot is an hour long, starts after now and overlaps no busy booking |
| Availability.MidnightWindowsNeverThrow | nexdrive-platform/src/lib/services/booking.service.ts:80-85 | when every rule and override window ends by 24:00, the lookup never throws |
| Availability.OfferedStart | nexdrive-platform/src/lib/services/booking.service.ts:80-116 | when windows end by 24:00, an offered start is a civil minute whose hour fits the day and clashes with nothing |
| Availability.ClearOfExisting | nexdrive-platform/src/lib/services/booking.service.ts:109-114 | a booking no longer than the slot, placed in a clash-free slot, does not overlap any booking that holds its time |
| Availability.BookingOfferedSlotKeepsNoDoubleBooking | nexdrive-platform/src/lib/services/booking.service.ts:90-116 | booking an offered slot for a service of at most 60 minutes keeps the instructor free of overlapping bookings |
| Availability.BookedSlotIsWithdrawn | nexdrive-platform/src/lib/services/booking.service.ts:90-116 | once a booking holds a start on a day, that start is no longer offered |
| Availability.MorningSlotsCannotBeBooked | nexdrive-platform/src/lib/services/booking.service.ts:154-160 | with the re-check keyed on the UTC date, no slot before 11:00 civil time can be booked |
| BookingService.Details | nexdrive-platform/src/lib/services/booking.service.ts:239-271 | the projection fails with "Booking not found" exactly when no booking has the key, else returns that booking |
| BookingService.DetailsJoin | nexdrive-platform/src/lib/services/booking.service.ts:247-269 | the service is the booking's own; the student part is present exactly when the booking's student row and its profile are found, and then it carries that profile's name, email and phone |
| BookingService.GetAvailableSlots | nexdrive-platform/src/lib/services/booking.service.ts:44-119 | the lookup returns exactly the availability of the store's rules, overrides and bookings, throwing (`None`) exactly when that availability does |
| BookingService.CreateBooking | nexdrive-platform/src/lib/services/booking.service.ts:121-193 | refused with nothing written, or one pending booking under a fresh key and one BOOKING_CREATED audit |
| BookingService.AdmitRules | nexdrive-platform/src/lib/services/booking.service.ts:125-164 | admission succeeds exactly when the profile has a student, the service is active and the start is still offered on its UTC date; failures in that order, with "Invalid time value" exactly when the re-check's slot generation throws |
| BookingService.CreatedBookingKeepsNoDoubleBooking | nexdrive-platform/src/lib/services/booking.service.ts:154-177 | a booking admitted by the re-check, for a service of at most 60 minutes, keeps the instructor free of overlapping bookings |
| BookingService.FreshBookingFound | nexdrive-platform/src/lib/services/booking.service.ts:166-192 | the new booking is the one the closing lookup finds |
| BookingService.UpdateBookingStatus | nexdrive-platform/src/lib/services/booking.service.ts:195-237 | refused with nothing written, or the status and update time set and one BOOKING_<STATUS> audit with previous and new status |
| BookingService.UpdateRefusalRules | nexdrive-platform/src/lib/services/booking.service.ts:207-220 | a student's update goes through exactly for an existing booking, a cancellation and at least 24 h notice; an instructor's whenever the booking exists |
| BookingService.SetStatusChangesOnlyTarget | nexdrive-platform/src/lib/services/booking.service.ts:222-226 | only the addressed booking changes, and only in status and update time |
| BookingService.SetStatusKeepsKeys | nexdrive-platform/src/lib/services/booking.service.ts:222-226 | every key survives the update, so the booking is still found |
| BookingService.StatusActions | nexdrive-platform/src/lib/services/booking.service.ts:230 | the four audit actions are BOOKING_CONFIRMED, _CANCELLED, _COMPLETED, _NO_SHOW |
| BookingService.ReconfirmingCanDoubleBook | nexdrive-platform/src/lib/services/booking.service.ts:207-226 | an instructor can re-confirm a cancelled booking over one that took its slot |
| AvailabilityRoute.GetRejectsOrAnswers | nexdrive-platform/src/app/api/availability/route.ts:9-23 | 400 for a missing parameter, then a malformed date; a date the parser refuses (month not 1–12, day not 1–31) is a separate outcome; then 400 for a date past the horizon; an unhandled throw (500) exactly when the lookup throws; otherwise 200 with the date, instructor and exactly the available slots |
| AvailabilityRoute.HorizonIsFiftySixUtcDays | nexdrive-platform/src/app/api/availability/route.ts:17-19 | a date the parser accepts is refused as too far ahead exactly when it is more than 56 days after the current UTC date |
| AvailabilityRoute.GetSlotsAreBookable | nexdrive-platform/src/app/api/availability/route.ts:21-22 | every slot a successful GET returns is an hour long, in the future and clear of the day's bookings |
| AvailabilityRoute.Post | nexdrive-platform/src/app/api/availability/route.ts:25-47 | refused with its status and nothing written, or one override or one active rule inserted and 201 |
| AvailabilityRoute.PostRefusalRules | nexdrive-platform/src/app/api/availability/route.ts:26-44 | 401 without a user, 403 without an instructor record, 400 for a missing date or missing rule fields |
| AvailabilityRoute.ShortWindowOffersNothing | nexdrive-platform/src/app/api/availability/route.ts:44-45 | a stored rule whose window is shorter than a slot, reversed ones included, offers nothing |
| BookingsRoute.ListLimitClamp | nexdrive-platform/src/app/api/bookings/route.ts:17-18 | the limit is the requested one up to 100, 20 by default; the offset defaults to 0 |
| BookingsRoute.PageOfRows | nexdrive-platform/src/app/api/bookings/route.ts:23 | a listed page holds only the given rows, newest first, as many as the limit allows after the offset; a first page leaves out no row newer than one it lists, and lists every row when they all fit |
| BookingsRoute.ListIsScopedToCaller | nexdrive-platform/src/app/api/bookings/route.ts:20-32 | a successful listing is an instructor's or a student's, holds only the caller's own bookings, newest first, at most 100; its first page holds the caller's newest bookings, and all of them when they fit under the limit |
| BookingsRoute.OtherRolesForbidden | nexdrive-platform/src/app/api/bookings/route.ts:34 | admins and parents get 403 |
| BookingsRoute.ConflictOnlyForTakenSlot | nexdrive-platform/src/app/api/bookings/route.ts:54-57 | an error maps to 409 exactly when the slot was taken, every other to 400 |
| BookingsRoute.Create | nexdrive-platform/src/app/api/bookings/route.ts:37-58 | 401, 404 or 400 with nothing written before the service is called; otherwise 409 or 400 with nothing written, or 201 with the booking appended, its audit entry appended and the response the joined details of the new booking |
| PaymentService.UnsignedRoundTrip | nexdrive-platform/src/lib/services/payment.service.ts:60-61 | the two-decimal text of a non-negative cent amount reads back as that amount |
| PaymentService.CentsRoundTrip | nexdrive-platform/src/lib/services/payment.service.ts:60-61 | `(c / 100).toFixed(2)` reads back as exactly c cents, negatives included |
| PaymentService.ValidateVoucherRules | nexdrive-platform/src/lib/services/payment.service.ts:24-45 | accepted exactly when an active voucher has the code and is redeemable now; each rejection message holds exactly when its check fails and every earlier one passes: unknown code, expired, not yet active, used up |
| PaymentService.AcceptedAmounts | nexdrive-platform/src/lib/services/payment.service.ts:47-64 | final = max(0, amount − discount) ≥ 0, the discount is the voucher's, and both texts read back as their cents |
| PaymentService.PercentageRounding | nexdrive-platform/src/lib/services/payment.service.ts:48-49 | a percentage discount is the nearest cent to amount·percent/100, halves rounded up |
| PaymentService.DiscountSplitsAmount | nexdrive-platform/src/lib/services/payment.service.ts:47-56 | fixed-amount and free-lesson discounts plus the final price make the amount; a free lesson costs 0 |
| PaymentService.CreateBookingCheckout | nexdrive-platform/src/lib/services/payment.service.ts:67-133 | refused with nothing written, or the voucher redeemed when it applies and, if the provider answers, one pending payment under a fresh key |
| PaymentService.CheckoutQuoteRules | nexdrive-platform/src/lib/services/payment.service.ts:72-104 | "Booking not found" exactly when no booking has the key; otherwise it goes on exactly when the caller's student owns the booking; the voucher is redeemed exactly when a non-empty code validates with a non-zero discount, and then the amount and discount recorded are the validation's final amount and the voucher's discount; otherwise the list price with no discount |
| PaymentService.RedeemKeepsCodes | nexdrive-platform/src/lib/services/payment.service.ts:99-102 | redeeming keeps the voucher table's codes unique |
| PaymentService.RedeemCountsOneUse | nexdrive-platform/src/lib/services/payment.service.ts:99-102 | redeeming adds exactly one use to the voucher with the code and changes nothing else |
| PaymentService.HandlePaymentSuccess | nexdrive-platform/src/lib/services/payment.service.ts:135-154 | "No bookingId in session metadata" with nothing written, or the session's payments completed, the booking confirmed and one PAYMENT_SUCCESS audit |
| PaymentService.PaymentSuccessEffects | nexdrive-platform/src/lib/services/payment.service.ts:140-146 | exactly the session's payments become completed and exactly the named booking confirmed, whatever their previous state |
| PaymentService.ProcessRefund | nexdrive-platform/src/lib/services/payment.service.ts:156-180 | refused with nothing written, or the payment refunded in full and one PAYMENT_REFUNDED audit |
| PaymentService.RefundRefusalRules | nexdrive-platform/src/lib/services/payment.service.ts:157-162 | a refund goes through exactly for an existing completed payment with a session reference |
| PaymentService.RefundIsOneShot | nexdrive-platform/src/lib/services/payment.service.ts:161-171 | a refunded payment cannot be refunded again |
| PaymentService.RefundChangesOnlyTarget | nexdrive-platform/src/lib/services/payment.service.ts:169-171 | the refund sets refunded, the time and refundedCents = amountCents on that payment only |
| PaymentService.ReplayedSuccessReopensRefund | nexdrive-platform/src/lib/services/payment.service.ts:140-171 | a replayed success callback re-completes a refunded payment, which can then be refunded again |
| CrmService.ContactOf | src/lib/services/crm.service.ts:237-246 | "Contact not found" exactly when no contact has both the key and the instructor, else that contact |
| CrmService.RelabelChangesOnlyTarget | src/lib/services/crm.service.ts:155-159 | a stage change rewrites only the addressed contact's stage and update time |
| CrmService.RelabelledRowIsReturned | src/lib/services/crm.service.ts:155-159 | with unique keys, the row the stage change returns is the looked-up contact with the new stage and time |
| CrmService.SearchWindow | src/lib/services/crm.service.ts:25-59 | limit 20 and offset 0 by default, never a limit above 100 |
| CrmService.SearchResults | src/lib/services/crm.service.ts:27-59 | every result is one of the instructor's contacts that meets the filter, at most limit of them |
| CrmService.SearchOrdered | src/lib/services/crm.service.ts:57 | results are most recently updated first |
| CrmService.SearchComplete | src/lib/services/crm.service.ts:56-59 | from offset 0 with a covering limit every matching contact is returned |
| CrmService.SearchOverridesLifecycle | src/lib/services/crm.service.ts:33-54 | with a non-empty search term the lifecycle filter has no effect |
| CrmService.LinkedProfileRules | src/lib/services/crm.service.ts:72-82 | a contact is linked exactly when a non-empty e-mail is given and some profile has it, and then to a profile with that e-mail |
| CrmService.CreateContact | src/lib/services/crm.service.ts:66-108 | one prospect contact under a fresh key, linked as above, and one CONTACT_CREATED audit |
| CrmService.EditedRowIsReturned | src/lib/services/crm.service.ts:120-124 | with unique keys, the row the update returns is the looked-up contact with the fields merged in |
| CrmService.MergeRules | src/lib/services/crm.service.ts:120-124 | the update is idempotent, an empty one only refreshes the time, and key, owner, link and stage are kept |
| CrmService.UpdateContact | src/lib/services/crm.service.ts:112-135 | "Contact not found" with nothing written, or the fields merged into that contact and one CONTACT_UPDATED audit |
| CrmService.EnrollContact | src/lib/services/crm.service.ts:179-209 | a student and a STUDENT_ENROLLED audit exactly when the contact has a profile without a student, else nothing |
| CrmService.EnrolmentKeepsOneStudentPerProfile | src/lib/services/crm.service.ts:184-200 | enrolment never gives a profile a second student |
| CrmService.AdvanceLifecycle | src/lib/services/crm.service.ts:139-175 | refused with nothing written, or the stage set, one LIFECYCLE_CHANGED audit, and enrolment on a change to enrolled |
| CrmService.AdvanceRules | src/lib/services/crm.service.ts:145-153 | a change goes through exactly when the contact is the instructor's and the table allows it; never to the same stage; completed only to inactive |
| CrmService.AllowedLists | src/lib/services/crm.service.ts:151 | a refusal quotes "lead, inactive" for prospect, "inactive" for completed, "prospect" for inactive |
| CrmService.SoftDeleteContact | src/lib/services/crm.service.ts:213-233 | "Contact not found" with nothing written, or the contact inactive and one CONTACT_DELETED audit |
| CrmService.SoftDeleteBypassesTable | src/lib/services/crm.service.ts:218-224 | an inactive contact that the table would refuse is still soft-deleted |
| MockBookings.SliceWindow | nexdrive-platform/src/lib/mock/bookings.ts:54 | `slice` with non-negative bounds gives the elements from start up to end, as far as the array reaches |
| MockBookings.MockListWindow | nexdrive-platform/src/lib/mock/bookings.ts:53-55 | the list is base[offset, offset+limit), both samples by default |
| MockBookings.NegativeOffsetCountsFromEnd | nexdrive-platform/src/lib/mock/bookings.ts:54 | offset −1 gives the last sample |
| MockBookings.MockLookup | nexdrive-platform/src/lib/mock/bookings.ts:57-60 | a lookup finds exactly the two sample ids, returning that sample |
| MockBookings.CreatedMockBooking | nexdrive-platform/src/lib/mock/bookings.ts:62-78 | pending, unconfirmed, created = updated, 90 minutes exactly for mock-service-90 and 60 otherwise, the request's fields kept |
| MockBookings.CreatedIsNeverStored | nexdrive-platform/src/lib/mock/bookings.ts:62-65 | a created booking's id is never one a lookup finds |
| MockBookings.UpdatedMockBooking | nexdrive-platform/src/lib/mock/bookings.ts:80-95 | null exactly for an unknown id; else status and update time set, confirmedAt set exactly on confirmed, all else kept |
| Runtime.LocalModeRules | nexdrive-platform/src/lib/runtime.ts:1-10 | local mode is on exactly when the trimmed, lower-cased value is 1, true, yes or on; off when unset; the mode is local exactly then |
| Runtime.LocalModeExample | nexdrive-platform/src/lib/runtime.ts:4-5 | " Yes " switches local mode on |
| Runtime.ClerkRules | nexdrive-platform/src/lib/runtime.ts:12-16 | Clerk is configured exactly when both keys are set and not all blanks |
| Runtime.SomeContainedExists | nexdrive-platform/src/lib/runtime.ts:38 | `some(includes)` holds exactly when one pattern occurs in the message |
| Runtime.DependencyErrorRules | nexdrive-platform/src/lib/runtime.ts:36-39 | a dependency error exactly when the lower-cased message contains one of the nine patterns; an Error and a string with the same text classify alike |
| Runtime.PatternsAreLowerCase | nexdrive-platform/src/lib/runtime.ts:24-34 | every pattern is already lower case |
| Runtime.RefusedConnectionIsDependencyError | nexdrive-platform/src/lib/runtime.ts:31 | an "ECONNREFUSED" error is a dependency error |
| Runtime.UnknownThrownValue | nexdrive-platform/src/lib/runtime.ts:18-22 | a value that is neither an Error nor a string is reported as "Unknown error", which is not a dependency error |
| Runtime.PayloadMessage | nexdrive-platform/src/lib/runtime.ts:43 | the error text is the dependency's name followed by " dependency is unavailable" |
| Runtime.PayloadFields | nexdrive-platform/src/lib/runtime.ts:41-48 | the payload names the dependency and its details are the thrown message, the same text the classification reads |
| Runtime.PayloadMode | nexdrive-platform/src/lib/runtime.ts:45 | the payload's mode is local exactly when local mode is on |

## Left out

- Concurrency. Each store call is one atomic sequential step, so the
  read-then-insert race in `createBooking` is not modelled.
- Connection wiring and Drizzle query building are not modelled. Each query
  is a filter over in-memory sequences.
- When rows tie on the sort key, the database may return them in any order.
  The model fixes one order, the one its insertion sort produces; the
  proved properties do not depend on it.
- Two library behaviours are not modelled:
  - `Number()` on text other than digit strings (signs, decimals, blanks,
    exponents);
  - string parsing in `new Date(...)`.
- Clock times are taken to be "HH:MM" in digits, and dates are integer day
  numbers.
- A `YYYY-MM-DD` date whose day is past the month's end but at most 31 is
  accepted by the JavaScript date parser and rolls over (2026-02-30 is
  2 March), and the model does the same. A month outside 1–12 or a day
  outside 1–31 gives an invalid `Date`. The GET answers that with a
  separate outcome and does not follow it on to the database.
- Daylight saving is not modelled. The civil offset is the fixed +11:00 the
  source writes, and the server's zone is a fixed offset.
- A window that ends after 24:00 while no slot starts after 24:00 gives
  slots running into the next day. Such windows are excluded only from the
  no-overlap theorem.
- Case folding and trimming are ASCII only, plus the common Unicode blanks.
  Full Unicode case mapping and whitespace classes are not modelled.
- `%` and `_` inside a CRM search term are ILIKE wildcards in the database.
  Here they match only themselves.
- Stripe is not modelled. Session creation, `getSession` and `refund` are
  outcomes passed in as parameters, and a `getSession` failure in the
  success callback is outside the model.
- Amounts are whole numbers.
  - Floating-point edge cases of `Math.round` and `toFixed` are not
    modelled: values of 1e21 and above, and non-integer amounts.
  - `Math.round(a·p/100)` is written as ⌊(a·p + 50)/100⌋.
- The mock store and `updateBookingStatus` read the clock once per call,
  where the source reads it separately for `Date.now()` and the ISO
  string.
- The mock store is modelled on values only.
  - Object identity and cloning are not modelled.
  - The sample list is a constant, so creating or updating a mock booking
    never changes what later calls see. This matches the source.
- Lifecycle values other than the seven in the table, such as `alumni` and
  `lost`, are not modelled. The transition lookup would throw on them.
- Extra keys in an update request's spread, outside the six contact fields,
  are not modelled.
- CrmService.UpdateContact and CrmService.AdvanceLifecycle return the
  looked-up contact with the change applied, not the row the database
  returns. Ids are primary keys, so the two agree (CrmService.EditedRowIsReturned
  and CrmService.RelabelledRowIsReturned).
- BookingService.CreateBooking evaluates the availability function
  directly rather than calling the `GetAvailableSlots` method. The method's
  contract proves the two agree.
- PaymentService.ProcessRefund, like the source, never checks that the
  refunding instructor owns the payment.
- PaymentService.DiscountSplitsAmount states the split only for amounts of
  zero or more. For a negative amount the discount can exceed the amount,
  which the source's callers never pass.
- PaymentService.CheckoutQuoteRules assumes what the store's unique index
  guarantees: one student per profile.
- A negative limit or offset is refused by the database. The model makes
  that refusal a `None` result instead of modelling the database error.
