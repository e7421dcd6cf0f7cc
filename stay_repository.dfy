/**
 * The stay table and the queries the stay repository derives from its method
 * names. The table is a sequence of stays whose ids are pairwise distinct; a
 * query returns the matching stays in table order.
 */
module StayRepository {
  import opened Entities
  import opened Tables

  /** No two rows of the table share an id (the id is the table's primary key). */
  ghost predicate UniqueIds(t: seq<Stay>) {
    forall i, j :: 0 <= i < j < |t| ==> t[i].id != t[j].id
  }

  /** The ids in use. */
  function Ids(t: seq<Stay>): set<StayId> {
    set s | s in t :: s.id
  }

  /** `findByHost(user)`: every stay whose host is `host`, and only those. */
  function FindByHost(t: seq<Stay>, host: Username): (r: seq<Stay>)
    ensures forall s :: s in r <==> s in t && s.host == host
  {
    Select(t, (s: Stay) => s.host == host)
  }

  /**
   * `findByIdAndHost(id, host)`: the stay with that id when `host` owns it,
   * and nothing (Java `null`) when the id is missing or the owner differs.
   */
  function FindByIdAndHost(t: seq<Stay>, id: StayId, host: Username): (r: Option<Stay>)
    ensures r.Some? <==> exists s :: s in t && s.id == id && s.host == host
    ensures r.Some? ==> r.value in t && r.value.id == id && r.value.host == host
    ensures r.Some? && UniqueIds(t) ==> forall s :: s in t && s.id == id ==> s == r.value
  {
    var matches := Select(t, (s: Stay) => s.id == id && s.host == host);
    if matches == [] then None
    else
      assert matches[0] in matches;
      Some(matches[0])
  }

  /**
   * `findByIdInAndGuestNumberGreaterThanEqual(ids, n)`: the stays whose id is
   * among `ids` and that take at least `n` guests.
   */
  function FindByIdInAndGuestNumberGreaterThanEqual(t: seq<Stay>, ids: seq<StayId>, n: int): (r: seq<Stay>)
    ensures forall s :: s in r <==> s in t && s.id in ids && s.guestNumber >= n
  {
    Select(t, (s: Stay) => s.id in ids && s.guestNumber >= n)
  }

  /** `deleteById(id)`: the table without the row whose id is `id`. */
  function DeleteById(t: seq<Stay>, id: StayId): (r: seq<Stay>)
    ensures forall s :: s in r <==> s in t && s.id != id
    ensures id !in Ids(r)
  {
    Select(t, (s: Stay) => s.id != id)
  }

  /** The largest id in use (0 for an empty table). */
  function MaxId(t: seq<Stay>): (m: int)
    ensures forall s :: s in t ==> s.id <= m
  {
    if t == [] then 0
    else var rest := MaxId(t[1..]); if t[0].id > rest then t[0].id else rest
  }

  /** The store can always hand out an id that no stored stay has. */
  lemma FreshIdExists(t: seq<Stay>)
    ensures exists id: StayId :: id !in Ids(t)
  {
    assert MaxId(t) + 1 !in Ids(t);
  }

  /** Removing a row keeps the primary key unique. */
  lemma {:induction false} DeleteByIdKeepsUniqueIds(t: seq<Stay>, id: StayId)
    requires UniqueIds(t)
    ensures UniqueIds(DeleteById(t, id))
  {
    if t != [] {
      DeleteByIdKeepsUniqueIds(t[1..], id);
      var rest := DeleteById(t[1..], id);
      if t[0].id != id {
        assert DeleteById(t, id) == [t[0]] + rest;
        forall j | 0 <= j < |rest| ensures t[0].id != rest[j].id {
          assert rest[j] in t[1..];
        }
      } else {
        assert DeleteById(t, id) == rest;
      }
    }
  }

  /** Appending a row under a fresh id keeps the primary key unique. */
  lemma AppendFreshKeepsUniqueIds(t: seq<Stay>, s: Stay)
    requires UniqueIds(t) && s.id !in Ids(t)
    ensures UniqueIds(t + [s])
  {
  }

  /** A stay found by id and host is also listed among that host's stays. */
  lemma FoundIsListed(t: seq<Stay>, id: StayId, host: Username)
    requires FindByIdAndHost(t, id, host).Some?
    ensures FindByIdAndHost(t, id, host).value in FindByHost(t, host)
  {
  }

  /**
   * Asking for a stay owned by someone else gives the same answer as asking
   * for an id that does not exist: ownership is not leaked.
   */
  lemma NotOwnedLooksMissing(t: seq<Stay>, id: StayId, owner: Username, other: Username, missing: StayId)
    requires UniqueIds(t)
    requires exists s :: s in t && s.id == id && s.host == owner
    requires owner != other
    requires missing !in Ids(t)
    ensures FindByIdAndHost(t, id, other) == FindByIdAndHost(t, missing, other) == None
  {
  }

  /**
   * Raising the guest minimum narrows the earlier result: the new result is
   * the earlier one filtered again, so it is a subset, and all of it is stored.
   */
  lemma GuestMinimumNarrows(t: seq<Stay>, ids: seq<StayId>, n: int, m: int)
    requires n <= m
    ensures FindByIdInAndGuestNumberGreaterThanEqual(t, ids, m)
         == Select(FindByIdInAndGuestNumberGreaterThanEqual(t, ids, n), (s: Stay) => s.guestNumber >= m)
    ensures forall s :: s in FindByIdInAndGuestNumberGreaterThanEqual(t, ids, m) ==>
              s in FindByIdInAndGuestNumberGreaterThanEqual(t, ids, n) && s in t
  {
    SelectThen(t, (s: Stay) => s.id in ids && s.guestNumber >= n, (s: Stay) => s.guestNumber >= m,
      (s: Stay) => s.id in ids && s.guestNumber >= m);
  }

  /** A stay appended under host `host` is listed last among that host's stays. */
  lemma {:induction false} AppendedIsListed(t: seq<Stay>, s: Stay)
    ensures FindByHost(t + [s], s.host) == FindByHost(t, s.host) + [s]
  {
    SelectAppend(t, [s], (x: Stay) => x.host == s.host);
  }

  /** After deleting `id`, the host's listing is the earlier listing without `id`. */
  lemma {:induction false} DeleteThenList(t: seq<Stay>, id: StayId, host: Username)
    ensures FindByHost(DeleteById(t, id), host) == DeleteById(FindByHost(t, host), id)
  {
    SelectCommutes(t, (s: Stay) => s.id != id, (s: Stay) => s.host == host);
  }
}
