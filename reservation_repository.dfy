/**
 * The one reservation query the stay lifecycle depends on. The reservation
 * repository's own source is not part of this model; the query's meaning is
 * read off its derived-query name `findByStayAndCheckoutDateAfter`.
 */
module ReservationRepository {
  import opened Entities
  import opened Tables

  /** A reservation is active on `today` when it checks out strictly later. */
  predicate ActiveOn(r: Reservation, today: Day) {
    r.checkoutDate > today
  }

  /**
   * `findByStayAndCheckoutDateAfter(stay, today)`: the reservations of the stay
   * whose checkout date is strictly after `today`.
   */
  function FindByStayAndCheckoutDateAfter(rs: seq<Reservation>, stay: StayId, today: Day): (r: seq<Reservation>)
    ensures forall x :: x in r <==> x in rs && x.stay == stay && x.checkoutDate > today
    ensures r == [] <==> forall x :: x in rs && x.stay == stay ==> !ActiveOn(x, today)
  {
    var r := Select(rs, (x: Reservation) => x.stay == stay && ActiveOn(x, today));
    assert r != [] ==> r[0] in r;
    r
  }

  /** A reservation that checks out today, or earlier, never blocks. */
  lemma CheckoutTodayIsInactive(rs: seq<Reservation>, x: Reservation, today: Day)
    requires x in rs && x.checkoutDate <= today
    ensures x !in FindByStayAndCheckoutDateAfter(rs, x.stay, today)
  {
  }
}
