/** The relational store the services share, held in memory: one sequence
    per table, in insertion order, and the counter that issues primary keys.
    Each service call is one sequential step over it. */
module Database {
  import opened Records

  /** No two students share a profile (the unique index on `students.profile_id`). */
  predicate OneStudentPerProfile(students: seq<Student>)
  {
    forall i, j :: 0 <= i < j < |students| ==> students[i].profileId != students[j].profileId
  }

  /** No two vouchers share a code (the unique index on `vouchers.code`). */
  predicate UniqueVoucherCodes(vouchers: seq<Voucher>)
  {
    forall i, j :: 0 <= i < j < |vouchers| ==> vouchers[i].code != vouchers[j].code
  }

  /** No two bookings share a key (the primary key on `bookings.id`). */
  predicate UniqueBookingIds(bookings: seq<Booking>)
  {
    forall i, j :: 0 <= i < j < |bookings| ==> bookings[i].id != bookings[j].id
  }

  /** No two payments share a key (the primary key on `payments.id`). */
  predicate UniquePaymentIds(payments: seq<Payment>)
  {
    forall i, j :: 0 <= i < j < |payments| ==> payments[i].id != payments[j].id
  }

  /** No two contacts share a key (the primary key on `crm_contacts.id`). */
  predicate UniqueContactIds(contacts: seq<Contact>)
  {
    forall i, j :: 0 <= i < j < |contacts| ==> contacts[i].id != contacts[j].id
  }

  class Db {
    var profiles: seq<Profile>
    var instructors: seq<Instructor>
    var students: seq<Student>
    var services: seq<Service>
    var rules: seq<AvailabilityRule>
    var overrides: seq<AvailabilityOverride>
    var bookings: seq<Booking>
    var vouchers: seq<Voucher>
    var payments: seq<Payment>
    var contacts: seq<Contact>
    /** `audit_log`, append-only. */
    var audit: seq<AuditEntry>
    /** The next unused primary key. */
    var nextId: nat

    /** Every key in use is below `nextId`, so a key drawn from the counter
        is fresh; the bookings, payments and contacts tables keep their
        primary keys, the students table its unique profile index and the
        vouchers table its unique codes. */
    ghost predicate Valid()
      reads this
    {
      (forall i :: 0 <= i < |students| ==> students[i].id < nextId)
      && (forall i :: 0 <= i < |rules| ==> rules[i].id < nextId)
      && (forall i :: 0 <= i < |overrides| ==> overrides[i].id < nextId)
      && (forall i :: 0 <= i < |bookings| ==> bookings[i].id < nextId)
      && (forall i :: 0 <= i < |payments| ==> payments[i].id < nextId)
      && (forall i :: 0 <= i < |contacts| ==> contacts[i].id < nextId)
      && UniqueBookingIds(bookings)
      && UniquePaymentIds(payments)
      && UniqueContactIds(contacts)
      && OneStudentPerProfile(students)
      && UniqueVoucherCodes(vouchers)
    }

    constructor ()
      ensures Valid()
      ensures profiles == [] && instructors == [] && students == [] && services == []
      ensures rules == [] && overrides == [] && bookings == [] && vouchers == []
      ensures payments == [] && contacts == [] && audit == [] && nextId == 0
    {
      profiles, instructors, students, services := [], [], [], [];
      rules, overrides, bookings, vouchers := [], [], [], [];
      payments, contacts, audit, nextId := [], [], [], 0;
    }

    /** Draws a fresh primary key (`defaultRandom()`). */
    method NewId() returns (id: Id)
      modifies this`nextId
      ensures id == old(nextId) && nextId == id + 1
    {
      id := nextId;
      nextId := nextId + 1;
    }

    /** Rewrites the bookings table in place: every row keeps its key. */
    method SetBookings(bs: seq<Booking>)
      requires Valid()
      requires |bs| == |bookings| && forall i :: 0 <= i < |bs| ==> bs[i].id == bookings[i].id
      modifies this`bookings
      ensures Valid() && bookings == bs
    {
      bookings := bs;
    }

    /** Rewrites the payments table in place: every row keeps its key. */
    method SetPayments(ps: seq<Payment>)
      requires Valid()
      requires |ps| == |payments| && forall i :: 0 <= i < |ps| ==> ps[i].id == payments[i].id
      modifies this`payments
      ensures Valid() && payments == ps
    {
      payments := ps;
    }

    /** Rewrites the vouchers table, keeping codes unique. */
    method SetVouchers(vs: seq<Voucher>)
      requires Valid() && UniqueVoucherCodes(vs)
      modifies this`vouchers
      ensures Valid() && vouchers == vs
    {
      vouchers := vs;
    }

    /** Inserts a payment under a fresh key. */
    method InsertPayment(p: Payment) returns (id: Id)
      requires Valid()
      modifies this`payments, this`nextId
      ensures Valid()
      ensures id == old(nextId) && nextId == id + 1
      ensures payments == old(payments) + [p.(id := id)]
    {
      id := NewId();
      payments := payments + [p.(id := id)];
    }

    /** Rewrites the contacts table in place: every row keeps its key. */
    method SetContacts(cs: seq<Contact>)
      requires Valid()
      requires |cs| == |contacts| && forall i :: 0 <= i < |cs| ==> cs[i].id == contacts[i].id
      modifies this`contacts
      ensures Valid() && contacts == cs
    {
      contacts := cs;
    }

    /** Inserts a contact under a fresh key. */
    method InsertContact(c: Contact) returns (id: Id)
      requires Valid()
      modifies this`contacts, this`nextId
      ensures Valid()
      ensures id == old(nextId) && nextId == id + 1
      ensures contacts == old(contacts) + [c.(id := id)]
    {
      id := NewId();
      contacts := contacts + [c.(id := id)];
    }

    /** Inserts a student for a profile that has none yet. */
    method InsertStudent(s: Student) returns (id: Id)
      requires Valid()
      requires forall i :: 0 <= i < |students| ==> students[i].profileId != s.profileId
      modifies this`students, this`nextId
      ensures Valid()
      ensures id == old(nextId) && nextId == id + 1
      ensures students == old(students) + [s.(id := id)]
    {
      id := NewId();
      students := students + [s.(id := id)];
    }

    /** Inserts a weekly availability rule under a fresh key. */
    method InsertRule(r: AvailabilityRule) returns (id: Id)
      requires Valid()
      modifies this`rules, this`nextId
      ensures Valid()
      ensures id == old(nextId) && nextId == id + 1
      ensures rules == old(rules) + [r.(id := id)]
    {
      id := NewId();
      rules := rules + [r.(id := id)];
    }

    /** Inserts an availability override under a fresh key. */
    method InsertOverride(o: AvailabilityOverride) returns (id: Id)
      requires Valid()
      modifies this`overrides, this`nextId
      ensures Valid()
      ensures id == old(nextId) && nextId == id + 1
      ensures overrides == old(overrides) + [o.(id := id)]
    {
      id := NewId();
      overrides := overrides + [o.(id := id)];
    }

    /** Inserts a booking under a fresh key. */
    method InsertBooking(b: Booking) returns (id: Id)
      requires Valid()
      modifies this`bookings, this`nextId
      ensures Valid()
      ensures id == old(nextId) && nextId == id + 1
      ensures bookings == old(bookings) + [b.(id := id)]
      ensures forall i :: 0 <= i < |old(bookings)| ==> old(bookings)[i].id < id
    {
      id := NewId();
      bookings := bookings + [b.(id := id)];
    }
  }
}
