/**
 * The stay lifecycle service: owner-scoped lookup and listing, publishing a
 * stay with its uploaded images and its location, and the guarded delete.
 *
 * The service's repositories are the fields of `StayService`: the stay table,
 * the reservation table and the location table. The image store and the
 * geocoder are functions given to the service when it is built.
 */
module StayLifecycle {
  import opened Entities
  import opened Tables
  import opened StayRepository
  import opened ReservationRepository

  /** The geocoder keys every location by the stay id it is asked about. */
  ghost predicate LocatesById(locate: (StayId, string) -> Location) {
    forall id, address :: locate(id, address).stayId == id
  }

  /** Every active reservation refers to a stay that is still stored. */
  ghost predicate ActiveReservationsHaveStays(stays: seq<Stay>, rs: seq<Reservation>, today: Day) {
    forall x :: x in rs && ActiveOn(x, today) ==> x.stay in Ids(stays)
  }

  /**
   * The loop of `add` that wraps each media link as an image of the stay:
   * one image per link, in the order of the links, each pointing back at `stay`.
   */
  method WrapImages(mediaLinks: seq<Url>, stay: StayId) returns (stayImages: seq<StayImage>)
    ensures |stayImages| == |mediaLinks|
    ensures forall i :: 0 <= i < |mediaLinks| ==> stayImages[i].url == mediaLinks[i] && stayImages[i].stay == stay
  {
    stayImages := [];
    for i := 0 to |mediaLinks|
      invariant |stayImages| == i
      invariant forall k :: 0 <= k < i ==> stayImages[k] == StayImage(mediaLinks[k], stay)
    {
      stayImages := stayImages + [StayImage(mediaLinks[i], stay)];
    }
  }

  /**
   * The delete guard is what keeps active reservations anchored: removing a
   * stay none of whose reservations is active leaves every active reservation
   * pointing at a stored stay.
   */
  lemma DeleteKeepsActiveReservationsAnchored(stays: seq<Stay>, rs: seq<Reservation>, id: StayId, today: Day)
    requires ActiveReservationsHaveStays(stays, rs, today)
    requires FindByStayAndCheckoutDateAfter(rs, id, today) == []
    ensures ActiveReservationsHaveStays(DeleteById(stays, id), rs, today)
  {
  }

  class StayService {
    var stays: seq<Stay>
    var reservations: seq<Reservation>
    var locations: map<StayId, Location>
    /** `ImageStorageService.save`: the link under which an uploaded image is stored. */
    const upload: Blob -> Url
    /** `GeoCodingService.getLatLng`: the location of a stay with the given id and address. */
    const locate: (StayId, string) -> Location

    ghost predicate Valid()
      reads this
    {
      UniqueIds(stays) && LocatesById(locate)
    }

    constructor (upload: Blob -> Url, locate: (StayId, string) -> Location,
                 stays: seq<Stay>, reservations: seq<Reservation>, locations: map<StayId, Location>)
      requires UniqueIds(stays) && LocatesById(locate)
      ensures Valid()
      ensures this.upload == upload && this.locate == locate
      ensures this.stays == stays && this.reservations == reservations && this.locations == locations
    {
      this.upload := upload;
      this.locate := locate;
      this.stays := stays;
      this.reservations := reservations;
      this.locations := locations;
    }

    /** `listByUser`: exactly the stored stays hosted by `username`. */
    function ListByUser(username: Username): (r: seq<Stay>)
      reads this
      ensures forall s :: s in r <==> s in stays && s.host == username
    {
      FindByHost(stays, username)
    }

    /**
     * `findByIdAndHost`: the stay when it exists and `username` hosts it;
     * `StayNotExistException` otherwise, whichever of the two is the reason.
     */
    function FindByIdAndHost(stayId: StayId, username: Username): (r: Result<Stay>)
      reads this
      ensures r.Ok? <==> exists s :: s in stays && s.id == stayId && s.host == username
      ensures r.Ok? ==> r.value in stays && r.value.id == stayId && r.value.host == username
      ensures r.Err? ==> r.error == StayNotExist
    {
      match StayRepository.FindByIdAndHost(stays, stayId, username)
      case None => Err(StayNotExist)
      case Some(stay) => Ok(stay)
    }

    /**
     * `add`: uploads every image, attaches the links to the stay in input
     * order, saves the stay under a fresh id, then saves the location that the
     * geocoder gives for that id. Returns the stay as saved.
     */
    method Add(stay: Stay, images: seq<Blob>) returns (saved: Stay)
      requires Valid()
      modifies this
      ensures Valid()
      ensures saved.id !in old(Ids(stays))
      ensures saved.name == stay.name && saved.description == stay.description
      ensures saved.address == stay.address && saved.guestNumber == stay.guestNumber
      ensures saved.host == stay.host
      ensures |saved.images| == |images|
      ensures forall i :: 0 <= i < |images| ==> saved.images[i] == StayImage(upload(images[i]), saved.id)
      ensures stays == old(stays) + [saved]
      ensures ListByUser(stay.host) == old(ListByUser(stay.host)) + [saved]
      ensures reservations == old(reservations)
      ensures locations == old(locations)[saved.id := locate(saved.id, stay.address)]
      ensures locations[saved.id].stayId == saved.id
    {
      var mediaLinks := seq(|images|, i requires 0 <= i < |images| => upload(images[i]));
      // The back-reference of every image is the key the save below gives the stay.
      FreshIdExists(stays);
      var id: StayId :| id !in Ids(stays);
      var stayImages := WrapImages(mediaLinks, id);
      saved := stay.(id := id, images := stayImages);
      AppendFreshKeepsUniqueIds(stays, saved);
      AppendedIsListed(stays, saved);
      stays := stays + [saved];
      var location := locate(saved.id, saved.address);
      locations := locations[location.stayId := location];
    }

    /**
     * `delete`: fails with `StayNotExistException` when the stay is missing or
     * hosted by someone else, with `StayDeleteException` when one of its
     * reservations checks out after `today`, and otherwise removes that stay.
     */
    method Delete(stayId: StayId, username: Username, today: Day) returns (r: Result<()>)
      requires Valid()
      modifies this
      ensures Valid()
      ensures r == Err(StayNotExist) <==> StayRepository.FindByIdAndHost(old(stays), stayId, username).None?
      ensures r == Err(StayDelete) <==>
                StayRepository.FindByIdAndHost(old(stays), stayId, username).Some? &&
                FindByStayAndCheckoutDateAfter(reservations, stayId, today) != []
      ensures r.Ok? <==>
                StayRepository.FindByIdAndHost(old(stays), stayId, username).Some? &&
                FindByStayAndCheckoutDateAfter(reservations, stayId, today) == []
      ensures r.Ok? ==> stays == DeleteById(old(stays), stayId) && stayId !in Ids(stays)
      ensures r.Ok? ==> forall u :: ListByUser(u) == DeleteById(old(ListByUser(u)), stayId)
      ensures r.Err? ==> stays == old(stays)
      ensures reservations == old(reservations) && locations == old(locations)
      ensures old(ActiveReservationsHaveStays(stays, reservations, today)) ==>
                ActiveReservationsHaveStays(stays, reservations, today)
    {
      var found := StayRepository.FindByIdAndHost(stays, stayId, username);
      if found.None? {
        return Err(StayNotExist);
      }
      var active := FindByStayAndCheckoutDateAfter(reservations, found.value.id, today);
      if |active| > 0 {
        return Err(StayDelete);
      }
      DeleteByIdKeepsUniqueIds(stays, stayId);
      if ActiveReservationsHaveStays(stays, reservations, today) {
        DeleteKeepsActiveReservationsAnchored(stays, reservations, stayId, today);
      }
      forall u ensures FindByHost(DeleteById(stays, stayId), u) == DeleteById(FindByHost(stays, u), stayId) {
        DeleteThenList(stays, stayId, u);
      }
      stays := DeleteById(stays, stayId);
      r := Ok(());
    }
  }
}
