/** The guest-account sweep (`cleanup_expired_guest_users`): list the first
    rows of the user directory, pick the guest accounts older than a day, and
    delete each through the credential table, counting the deletions that
    succeeded. */
module GuestCleanup {
  import opened Common
  import opened Auths

  /** The sweep lists `get_users(skip=0, limit=10000)`. */
  const ListingLimit: nat := 10000

  /** A guest account is eligible once it is strictly older than a day. */
  predicate Eligible(u: User, now: int) {
    u.userType == Some("guest") && now - u.createdAt > Day
  }

  /** The rows the sweep considers. */
  function Listing(users: seq<User>): (r: seq<User>)
    ensures |r| <= ListingLimit
    ensures |r| <= |users| && r == users[..|r|]
    ensures |users| <= ListingLimit ==> r == users
  {
    if |users| <= ListingLimit then users else users[..ListingLimit]
  }

  /** The ids handed to `delete_auth_by_id`, in listing order. */
  function Attempts(listing: seq<User>, now: int): seq<string>
  {
    if listing == [] then []
    else
      var last := listing[|listing| - 1];
      Attempts(listing[..|listing| - 1], now) + (if Eligible(last, now) then [last.id] else [])
  }

  /** The ids whose deletion the directory reports as successful. */
  function Removed(listing: seq<User>, now: int, userDeleted: string -> bool): set<string>
  {
    if listing == [] then {}
    else
      var last := listing[|listing| - 1];
      Removed(listing[..|listing| - 1], now, userDeleted)
      + (if Eligible(last, now) && userDeleted(last.id) then {last.id} else {})
  }

  /** Only eligible listed rows whose deletion succeeded are removed, and all of them are. */
  lemma {:induction false} RemovedExactly(listing: seq<User>, now: int, userDeleted: string -> bool)
    ensures forall x :: x in Removed(listing, now, userDeleted) ==>
              exists u :: u in listing && u.id == x && Eligible(u, now) && userDeleted(u.id)
    ensures forall u :: u in listing && Eligible(u, now) && userDeleted(u.id) ==>
              u.id in Removed(listing, now, userDeleted)
  {
    if listing != [] {
      var init := listing[..|listing| - 1];
      RemovedExactly(init, now, userDeleted);
      assert listing == init + [listing[|listing| - 1]];
      assert forall u :: u in init ==> u in listing;
    }
  }

  /** The number of successful deletions. */
  function Successes(listing: seq<User>, now: int, userDeleted: string -> bool): nat
  {
    if listing == [] then 0
    else
      var last := listing[|listing| - 1];
      Successes(listing[..|listing| - 1], now, userDeleted) + (if Eligible(last, now) && userDeleted(last.id) then 1 else 0)
  }

  /** Every id in `Attempts` belongs to an eligible listed row, and every
      eligible listed row is attempted. */
  lemma {:induction false} AttemptsAreEligible(listing: seq<User>, now: int)
    ensures forall x :: x in Attempts(listing, now) ==> exists u :: u in listing && u.id == x && Eligible(u, now)
    ensures forall u :: u in listing && Eligible(u, now) ==> u.id in Attempts(listing, now)
  {
    if listing != [] {
      var init := listing[..|listing| - 1];
      AttemptsAreEligible(init, now);
      assert listing == init + [listing[|listing| - 1]];
      assert forall u :: u in init ==> u in listing;
    }
  }

  /** One more listed row, in terms of the rows before it. */
  lemma Unfold(listing: seq<User>, i: nat, now: int, userDeleted: string -> bool)
    requires i < |listing|
    ensures var u, prefix, longer := listing[i], listing[..i], listing[..i + 1];
      && Attempts(longer, now) == Attempts(prefix, now) + (if Eligible(u, now) then [u.id] else [])
      && Successes(longer, now, userDeleted)
         == Successes(prefix, now, userDeleted) + (if Eligible(u, now) && userDeleted(u.id) then 1 else 0)
      && Removed(longer, now, userDeleted)
         == Removed(prefix, now, userDeleted) + (if Eligible(u, now) && userDeleted(u.id) then {u.id} else {})
  {
    assert listing[..i + 1][..i] == listing[..i];
  }

  /** The sweep's state after the first `i` listed rows. */
  predicate SweptThrough(st: Store, listing: seq<User>, i: nat, now: int, userDeleted: string -> bool,
                         cur: Store, count: nat, attempted: seq<string>)
    requires i <= |listing|
  {
    && attempted == Attempts(listing[..i], now)
    && count == Successes(listing[..i], now, userDeleted)
    && cur.auths == st.auths - Removed(listing[..i], now, userDeleted)
    && cur.users == WithoutIds(st.users, Removed(listing[..i], now, userDeleted))
  }

  /** One iteration of the sweep: judge row `i`, delete it if eligible, count a success. */
  method SweepStep(st: Store, listing: seq<User>, i: nat, now: int, userDeleted: string -> bool,
                   cur: Store, count: nat, attempted: seq<string>)
    returns (cur': Store, count': nat, attempted': seq<string>)
    requires i < |listing|
    requires SweptThrough(st, listing, i, now, userDeleted, cur, count, attempted)
    ensures SweptThrough(st, listing, i + 1, now, userDeleted, cur', count', attempted')
  {
    var u := listing[i];
    Unfold(listing, i, now, userDeleted);
    ghost var before := Removed(listing[..i], now, userDeleted);
    ghost var after := Removed(listing[..i + 1], now, userDeleted);
    cur', count', attempted' := cur, count, attempted;
    if Eligible(u, now) {
      var outcome := DeleteAuthById(cur, u.id, userDeleted(u.id));
      assert outcome.1 ==> outcome.0.users == WithoutIds(cur.users, {u.id});
      cur' := outcome.0;
      attempted' := attempted + [u.id];
      if outcome.1 {
        count' := count + 1;
        WithoutIdsTwice(st.users, before, {u.id});
        assert st.auths - before - {u.id} == st.auths - (before + {u.id});
        assert after == before + {u.id};
      } else {
        assert after == before;
      }
    } else {
      assert after == before;
    }
  }

  /** The loop of the sweep over a fixed listing. */
  method SweepListing(st: Store, listing: seq<User>, now: int, userDeleted: string -> bool)
    returns (st': Store, count: nat, attempted: seq<string>)
    requires WellFormed(st)
    ensures attempted == Attempts(listing, now)
    ensures count == Successes(listing, now, userDeleted)
    ensures st'.auths == st.auths - Removed(listing, now, userDeleted)
    ensures st'.users == WithoutIds(st.users, Removed(listing, now, userDeleted))
    ensures WellFormed(st')
    ensures Paired(st) ==> Paired(st')
  {
    st', count, attempted := st, 0, [];
    WithoutNoIds(st.users);
    var i := 0;
    while i < |listing|
      invariant 0 <= i <= |listing|
      invariant SweptThrough(st, listing, i, now, userDeleted, st', count, attempted)
    {
      st', count, attempted := SweepStep(st, listing, i, now, userDeleted, st', count, attempted);
      i := i + 1;
    }
    assert listing[..|listing|] == listing;
    RemovalKeepsInvariants(st, Removed(listing, now, userDeleted));
  }

  /** Deleting a set of accounts from both tables keeps them well formed and paired. */
  lemma RemovalKeepsInvariants(st: Store, gone: set<string>)
    requires WellFormed(st)
    ensures WellFormed(Store(st.auths - gone, WithoutIds(st.users, gone)))
    ensures Paired(st) ==> Paired(Store(st.auths - gone, WithoutIds(st.users, gone)))
  {
  }

  /** `cleanup_expired_guest_users`. The directory's listing and `now` are taken
      once; each eligible row goes to `DeleteAuthById`, whose outcome
      `userDeleted` decides, and a failed deletion does not stop the loop. A
      failing listing (`listingFails`) stands for the exception the sweep
      catches: it reports 0 and deletes nothing. `attempted` lists the ids the
      sweep handed to deletion. */
  method CleanupExpiredGuestUsers(st: Store, now: int, listingFails: bool, userDeleted: string -> bool)
    returns (st': Store, count: nat, attempted: seq<string>)
    requires WellFormed(st)
    ensures listingFails ==> st' == st && count == 0 && attempted == []
    ensures !listingFails ==> attempted == Attempts(Listing(st.users), now)
    ensures !listingFails ==> count == Successes(Listing(st.users), now, userDeleted)
    ensures !listingFails ==> st'.auths == st.auths - Removed(Listing(st.users), now, userDeleted)
    ensures !listingFails ==> st'.users == WithoutIds(st.users, Removed(Listing(st.users), now, userDeleted))
    ensures WellFormed(st')
    ensures Paired(st) ==> Paired(st')
  {
    if listingFails {
      st', count, attempted := st, 0, [];
    } else {
      st', count, attempted := SweepListing(st, Listing(st.users), now, userDeleted);
    }
  }

  /** What the sweep spares: every row that is not an old guest, and every
      row past the listing limit, stays in the directory. */
  lemma SweepSpares(st: Store, now: int, userDeleted: string -> bool)
    requires WellFormed(st)
    ensures var kept := WithoutIds(st.users, Removed(Listing(st.users), now, userDeleted));
            && (forall u :: u in st.users && !Eligible(u, now) ==> u in kept)
            && (forall i :: ListingLimit <= i < |st.users| ==> st.users[i] in kept)
  {
    var listing := Listing(st.users);
    forall u | u in st.users && !Eligible(u, now)
      ensures u.id !in Removed(listing, now, userDeleted)
    {
      SurvivorNotRemoved(st.users, listing, now, userDeleted, u);
    }
    forall i | ListingLimit <= i < |st.users|
      ensures st.users[i].id !in Removed(listing, now, userDeleted)
    {
      BeyondListingNotRemoved(st.users, now, userDeleted, i);
    }
  }

  /** With unique ids, a row that is not eligible shares its id with no
      removed row, so it survives. */
  lemma SurvivorNotRemoved(users: seq<User>, listing: seq<User>, now: int, userDeleted: string -> bool, u: User)
    requires UniqueIds(users)
    requires forall v :: v in listing ==> v in users
    requires u in users && !Eligible(u, now)
    ensures u.id !in Removed(listing, now, userDeleted)
  {
    RemovedExactly(listing, now, userDeleted);
    var i :| 0 <= i < |users| && users[i] == u;
    forall v | v in listing && Eligible(v, now) ensures v.id != u.id {
      var j :| 0 <= j < |users| && users[j] == v;
      assert v.id == u.id ==> i == j;
    }
  }

  /** Rows past the listing limit are never deleted. */
  lemma BeyondListingNotRemoved(users: seq<User>, now: int, userDeleted: string -> bool, i: nat)
    requires UniqueIds(users)
    requires ListingLimit <= i < |users|
    ensures users[i].id !in Removed(Listing(users), now, userDeleted)
  {
    var listing := Listing(users);
    RemovedExactly(listing, now, userDeleted);
    forall v | v in listing ensures v.id != users[i].id {
      var j :| 0 <= j < |listing| && listing[j] == v;
      assert users[j] == v;
    }
  }

  /** The age limit is strict: a guest exactly a day old is kept, one second
      older is eligible, and a non-guest is never eligible. */
  lemma EligibilityBoundary(u: User, now: int)
    ensures u.userType == Some("guest") && now - u.createdAt == Day ==> !Eligible(u, now)
    ensures u.userType == Some("guest") && now - u.createdAt == Day + 1 ==> Eligible(u, now)
    ensures u.userType != Some("guest") ==> !Eligible(u, now)
  {
  }
}
