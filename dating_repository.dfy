/** The queries of the dating repository: key lookups, the relationship
    sets of a user, and the user-discovery query that filters the Users
    table before it is handed to the pager. */
module DatingRepository {
  import opened Wrappers
  import opened Calendar
  import opened Linq
  import opened Models

  // ---------------------------------------------------------------------
  // Key lookups: the first row with the key, or null.

  /** The like `userId` gave `recipientId`, if any. The pair is ordered:
      the edge the other way round is a different row. */
  function GetLike(store: Store, userId: int, recipientId: int): (r: Option<Like>)
    ensures r.Some? <==> Like(userId, recipientId) in store.likes
    ensures r.Some? ==> r.value == Like(userId, recipientId)
  {
    FirstOrDefault(store.likes, (l: Like) => l.likerId == userId && l.likeeId == recipientId)
  }

  /** Among the photos of user `id`, the first one marked main, if any. */
  function GetMainPhotoForUser(store: Store, id: int): (r: Option<Photo>)
    ensures r.Some? ==> r.value in store.photos && r.value.userId == id && r.value.isMain
    ensures r.None? <==> forall p | p in store.photos && p.userId == id :: !p.isMain
  {
    FirstOrDefault(Where(store.photos, (p: Photo) => p.userId == id), (p: Photo) => p.isMain)
  }

  /** The photo with primary key `id`, if any. */
  function GetPhoto(store: Store, id: int): (r: Option<Photo>)
    ensures r.Some? ==> r.value in store.photos && r.value.id == id
    ensures r.None? <==> forall p | p in store.photos :: p.id != id
  {
    FirstOrDefault(store.photos, (p: Photo) => p.id == id)
  }

  /** The user with primary key `id`, if any. */
  function GetUser(store: Store, id: int): (r: Option<User>)
    ensures r.Some? ==> r.value in store.users && r.value.id == id
    ensures r.None? <==> forall u | u in store.users :: u.id != id
  {
    FirstOrDefault(store.users, (u: User) => u.id == id)
  }

  /** With `Id` a primary key, looking a user up by its id finds it. */
  lemma GetUserFindsUser(store: Store, u: User)
    requires ValidStore(store) && u in store.users
    ensures GetUser(store, u.id) == Some(u)
  {
  }

  /** With `Id` a primary key, looking a photo up by its id finds it. */
  lemma GetPhotoFindsPhoto(store: Store, p: Photo)
    requires ValidStore(store) && p in store.photos
    ensures GetPhoto(store, p.id) == Some(p)
  {
  }

  /** A user with exactly one main photo gets that photo back. */
  lemma MainPhotoIsUnique(store: Store, id: int, main: Photo)
    requires main in store.photos && main.userId == id && main.isMain
    requires forall p | p in store.photos && p.userId == id && p.isMain :: p == main
    ensures GetMainPhotoForUser(store, id) == Some(main)
  {
  }

  // ---------------------------------------------------------------------
  // Relationship sets.

  /** `Include(x => x.Likers)`: the likes whose likee is `u`. */
  function LikersOf(store: Store, u: User): (r: seq<Like>)
    ensures forall l :: l in r <==> l in store.likes && l.likeeId == u.id
  {
    Where(store.likes, (l: Like) => l.likeeId == u.id)
  }

  /** `Include(x => x.Likees)`: the likes whose liker is `u`. */
  function LikeesOf(store: Store, u: User): (r: seq<Like>)
    ensures forall l :: l in r <==> l in store.likes && l.likerId == u.id
  {
    Where(store.likes, (l: Like) => l.likerId == u.id)
  }

  /** The ids of the users who liked `id` (`likers`) or whom `id` liked
      (otherwise). The user is loaded first and dereferenced without a
      check, so an unknown `id` throws instead of giving no ids. */
  function GetUserLikes(store: Store, id: int, likers: bool): (r: Result<seq<int>, Exception>)
    ensures r.Failure? <==> forall u | u in store.users :: u.id != id
    ensures r.Failure? ==> r.error == NullReferenceException
    ensures r.Success? && likers ==> forall x :: x in r.value <==> Like(x, id) in store.likes
    ensures r.Success? && !likers ==> forall x :: x in r.value <==> Like(id, x) in store.likes
  {
    match GetUser(store, id)
    case None => Failure(NullReferenceException)
    case Some(user) =>
      if likers then
        var s := Where(LikersOf(store, user), (l: Like) => l.likeeId == id);
        var r := Select(s, (l: Like) => l.likerId);
        Success(r)
      else
        var s := Where(LikeesOf(store, user), (l: Like) => l.likerId == id);
        var r := Select(s, (l: Like) => l.likeeId);
        Success(r)
  }

  /** Because `(LikerId, LikeeId)` is a key, no id is listed twice. */
  lemma GetUserLikesDistinct(store: Store, id: int, likers: bool)
    requires ValidStore(store)
    requires GetUserLikes(store, id, likers).Success?
    ensures Distinct(GetUserLikes(store, id, likers).value)
  {
    var user := GetUser(store, id).value;
    assert Distinct(store.likes);
    if likers {
      var loaded := LikersOf(store, user);
      WhereDistinct(store.likes, (l: Like) => l.likeeId == user.id);
      var s := Where(loaded, (l: Like) => l.likeeId == id);
      WhereDistinct(loaded, (l: Like) => l.likeeId == id);
      SelectDistinct(s, (l: Like) => l.likerId);
    } else {
      var loaded := LikeesOf(store, user);
      WhereDistinct(store.likes, (l: Like) => l.likerId == user.id);
      var s := Where(loaded, (l: Like) => l.likerId == id);
      WhereDistinct(loaded, (l: Like) => l.likerId == id);
      SelectDistinct(s, (l: Like) => l.likeeId);
    }
  }

  // ---------------------------------------------------------------------
  // Age range.

  const DefaultMinAge := 18
  const DefaultMaxAge := 99

  /** The date-of-birth constraint of a discovery query. */
  datatype AgeFilter = AnyAge | BornBetween(minDob: Date, maxDob: Date) {
    /** Both ends of the window are inclusive. */
    predicate Admits(dob: Date) {
      match this
      case AnyAge => true
      case BornBetween(lo, hi) => AtOrBefore(lo, dob) && AtOrBefore(dob, hi)
    }
  }

  /** The date-of-birth window for ages `minAge`..`maxAge` on `today`. The
      default pair 18/99 means no constraint at all; any other pair gives
      the window from `today` less `maxAge + 1` years to `today` less
      `minAge` years, and throws when either end leaves the years
      `DateTime` can hold. */
  function AgeFilterFor(today: Date, minAge: int, maxAge: int): (r: Result<AgeFilter, Exception>)
    requires ValidDate(today)
    ensures r == Success(AnyAge) <==> minAge == DefaultMinAge && maxAge == DefaultMaxAge
    ensures r.Failure? <==>
              && (minAge != DefaultMinAge || maxAge != DefaultMaxAge)
              && !(MinYear <= today.year - maxAge - 1 && today.year - minAge <= MaxYear
                   && MinYear <= today.year - minAge && today.year - maxAge - 1 <= MaxYear)
    ensures r.Failure? ==> r.error == ArgumentOutOfRangeException
    ensures r.Success? && r.value.BornBetween? ==>
              r.value == BornBetween(ShiftYears(today, -(maxAge + 1)), ShiftYears(today, -minAge))
  {
    if minAge != DefaultMinAge || maxAge != DefaultMaxAge then
      var minDob :- AddYears(today, -maxAge - 1);
      var maxDob :- AddYears(today, -minAge);
      Success(BornBetween(minDob, maxDob))
    else
      Success(AnyAge)
  }

  /** What the window means in ages: a date of birth passes when the
      person is at least `minAge` and at most `maxAge` years old today,
      and also when it is exactly the lower end, `today` less
      `maxAge + 1` years as `AddYears` computes it. That person's
      `(maxAge + 1)`-th birthday is today, or, when today is 29 February
      and the lower end falls in a year that is not a leap year, was the
      day before. */
  lemma AgeWindowMeaning(today: Date, minAge: int, maxAge: int, dob: Date)
    requires ValidDate(today)
    requires AgeFilterFor(today, minAge, maxAge).Success?
    requires AgeFilterFor(today, minAge, maxAge).value.BornBetween?
    ensures var f := AgeFilterFor(today, minAge, maxAge).value;
            f.Admits(dob) <==>
              && minAge <= CompletedYears(today, dob)
              && (CompletedYears(today, dob) <= maxAge || dob == f.minDob)
  {
  }

  // ---------------------------------------------------------------------
  // User discovery.

  /** The arguments `PagedList<User>.CreateAsync` receives: the filtered
      users and the paging parameters unchanged. */
  datatype PageRequest = PageRequest(source: seq<User>, pageNumber: int, countPerPage: int)

  /** `u.Id != userId` */
  function NotUser(userId: int): User -> bool {
    (u: User) => u.id != userId
  }

  /** `u.Gender == gender` */
  function HasGender(gender: string): User -> bool {
    (u: User) => u.gender == gender
  }

  /** `ids.Contains(u.Id)` */
  function IdIn(ids: seq<int>): User -> bool {
    (u: User) => u.id in ids
  }

  /** `u.DateOfBirth >= minDob && u.DateOfBirth <= maxDob` */
  function BornWithin(f: AgeFilter): User -> bool {
    (u: User) => f.Admits(u.dateOfBirth)
  }

  /** The discovery query: the users other than `userId` of the given
      gender, restricted to the requester's likers and/or likees when
      asked, and to an age window unless the ages are 18/99; the result
      goes to the pager. The likees step passes `likers` where `likees`
      would be expected, so with both flags set it loads the likers again. */
  function GetUsers(store: Store, today: Date, pageNumber: int, countPerPage: int, userId: int,
                    gender: string, minAge: int, maxAge: int, likers: bool, likees: bool)
    : (r: Result<PageRequest, Exception>)
    requires ValidDate(today)
    ensures r.Success? ==> r.value.pageNumber == pageNumber && r.value.countPerPage == countPerPage
    ensures r.Success? ==> |r.value.source| <= |store.users|
    ensures r.Success? ==> forall u | u in r.value.source :: u in store.users && u.id != userId && u.gender == gender
  {
    var notSelf := Where(store.users, NotUser(userId));
    var sameGender := Where(notSelf, HasGender(gender));
    var liking :-
      if likers then
        var userLikers :- GetUserLikes(store, userId, likers);
        Success(Where(sameGender, IdIn(userLikers)))
      else Success(sameGender);
    var liked :-
      if likees then
        var userLikees :- GetUserLikes(store, userId, likers);
        Success(Where(liking, IdIn(userLikees)))
      else Success(liking);
    var window :- AgeFilterFor(today, minAge, maxAge);
    var aged := if window.BornBetween? then Where(liked, BornWithin(window)) else liked;
    Success(PageRequest(aged, pageNumber, countPerPage))
  }

  /** The candidates as one predicate: not the requester, the requested
      gender, liked the requester (`likers`), liked by the requester
      (`likees`), born inside `window`. */
  function Qualifies(store: Store, userId: int, gender: string, likers: bool, likees: bool,
                     window: AgeFilter): User -> bool
  {
    (u: User) =>
      && u.id != userId
      && u.gender == gender
      && (likers ==> Like(u.id, userId) in store.likes)
      && (likees ==> Like(userId, u.id) in store.likes)
      && window.Admits(u.dateOfBirth)
  }

  /** The query keeps, in storage order, exactly the users that satisfy the
      conjunction of its filters, except that the likees condition is
      dropped when the likers flag is also set. */
  lemma GetUsersMeetsSpec(store: Store, today: Date, pageNumber: int, countPerPage: int, userId: int,
                          gender: string, minAge: int, maxAge: int, likers: bool, likees: bool)
    requires ValidDate(today)
    requires GetUsers(store, today, pageNumber, countPerPage, userId, gender, minAge, maxAge, likers, likees).Success?
    ensures AgeFilterFor(today, minAge, maxAge).Success?
    ensures GetUsers(store, today, pageNumber, countPerPage, userId, gender, minAge, maxAge, likers, likees).value.source
            == Where(store.users, Qualifies(store, userId, gender, likers, likees && !likers,
                                            AgeFilterFor(today, minAge, maxAge).value))
  {
    var users := store.users;
    var window := AgeFilterFor(today, minAge, maxAge).value;
    var spec := Qualifies(store, userId, gender, likers, likees && !likers, window);

    var p1: User -> bool := (u: User) => u.id != userId && u.gender == gender;
    var sameGender := Where(Where(users, NotUser(userId)), HasGender(gender));
    WhereFuse(users, NotUser(userId), HasGender(gender), p1);

    var p2: User -> bool := (u: User) => p1(u) && (likers ==> Like(u.id, userId) in store.likes);
    var liking := sameGender;
    if likers {
      var ids := GetUserLikes(store, userId, true).value;
      liking := Where(sameGender, IdIn(ids));
      WhereFuse(users, p1, IdIn(ids), p2);
    } else {
      WhereCongruent(users, p1, p2);
    }
    assert liking == Where(users, p2);

    var p3: User -> bool :=
      (u: User) => p2(u) && (likees && !likers ==> Like(userId, u.id) in store.likes);
    var liked := liking;
    if likees {
      var ids := GetUserLikes(store, userId, likers).value;
      liked := Where(liking, IdIn(ids));
      if likers {
        WhereAll(liking, IdIn(ids));
        WhereCongruent(users, p2, p3);
      } else {
        WhereFuse(users, p2, IdIn(ids), p3);
      }
    } else {
      WhereCongruent(users, p2, p3);
    }
    assert liked == Where(users, p3);

    if window.BornBetween? {
      WhereFuse(users, p3, BornWithin(window), spec);
    } else {
      WhereCongruent(users, p3, spec);
    }
  }

  /** When the query throws: a relationship flag with an unknown requester
      is a null dereference (checked first); otherwise a non-default age
      pair whose window leaves the years `DateTime` can hold. */
  lemma GetUsersFailure(store: Store, today: Date, pageNumber: int, countPerPage: int, userId: int,
                        gender: string, minAge: int, maxAge: int, likers: bool, likees: bool)
    requires ValidDate(today)
    ensures var r := GetUsers(store, today, pageNumber, countPerPage, userId, gender, minAge, maxAge, likers, likees);
            r.Failure? <==>
              || ((likers || likees) && GetUser(store, userId).None?)
              || AgeFilterFor(today, minAge, maxAge).Failure?
    ensures (likers || likees) && GetUser(store, userId).None? ==>
              GetUsers(store, today, pageNumber, countPerPage, userId, gender, minAge, maxAge, likers, likees)
              == Failure(NullReferenceException)
  {
  }

  /** With both flags set, the likers set is applied twice and the likees
      set is never read: the result is that of the likers flag alone. */
  lemma BothFlagsActAsLikers(store: Store, today: Date, pageNumber: int, countPerPage: int, userId: int,
                             gender: string, minAge: int, maxAge: int)
    requires ValidDate(today)
    ensures GetUsers(store, today, pageNumber, countPerPage, userId, gender, minAge, maxAge, true, true)
         == GetUsers(store, today, pageNumber, countPerPage, userId, gender, minAge, maxAge, true, false)
  {
    var r := GetUserLikes(store, userId, true);
    if r.Success? {
      var sameGender := Where(Where(store.users, NotUser(userId)), HasGender(gender));
      var liking := Where(sameGender, IdIn(r.value));
      WhereIdempotent(sameGender, IdIn(r.value));
      assert Where(liking, IdIn(r.value)) == liking;
    }
  }

  /** With `likers` alone, every user returned liked the requester. */
  lemma LikersFlagKeepsLikers(store: Store, today: Date, pageNumber: int, countPerPage: int, userId: int,
                              gender: string, minAge: int, maxAge: int)
    requires ValidDate(today)
    requires GetUsers(store, today, pageNumber, countPerPage, userId, gender, minAge, maxAge, true, false).Success?
    ensures forall u | u in GetUsers(store, today, pageNumber, countPerPage, userId, gender, minAge, maxAge, true, false).value.source
              :: Like(u.id, userId) in store.likes
  {
  }

  /** With `likees` alone, every user returned was liked by the requester. */
  lemma LikeesFlagKeepsLikees(store: Store, today: Date, pageNumber: int, countPerPage: int, userId: int,
                              gender: string, minAge: int, maxAge: int)
    requires ValidDate(today)
    requires GetUsers(store, today, pageNumber, countPerPage, userId, gender, minAge, maxAge, false, true).Success?
    ensures forall u | u in GetUsers(store, today, pageNumber, countPerPage, userId, gender, minAge, maxAge, false, true).value.source
              :: Like(userId, u.id) in store.likes
  {
  }

  /** Without relationship flags the Likes table is never read: any other
      table gives the same answer, and an unknown requester is no error. */
  lemma NoFlagsReadNoLikes(store: Store, otherLikes: seq<Like>, today: Date, pageNumber: int, countPerPage: int,
                           userId: int, gender: string, minAge: int, maxAge: int)
    requires ValidDate(today)
    ensures GetUsers(store, today, pageNumber, countPerPage, userId, gender, minAge, maxAge, false, false)
         == GetUsers(store.(likes := otherLikes), today, pageNumber, countPerPage, userId, gender, minAge, maxAge, false, false)
    ensures GetUsers(store, today, pageNumber, countPerPage, userId, gender, minAge, maxAge, false, false).Failure?
            ==> AgeFilterFor(today, minAge, maxAge).Failure?
  {
  }

  /** With the default pair 18/99 the age step never throws, and the
      result ignores both today's date and every date of birth:
      membership is decided by the other filters alone. */
  lemma DefaultAgesIgnoreBirthDates(store: Store, today: Date, otherToday: Date, pageNumber: int, countPerPage: int,
                                    userId: int, gender: string, likers: bool, likees: bool)
    requires ValidDate(today) && ValidDate(otherToday)
    requires GetUsers(store, today, pageNumber, countPerPage, userId, gender, 18, 99, likers, likees).Success?
    ensures GetUsers(store, today, pageNumber, countPerPage, userId, gender, 18, 99, likers, likees)
         == GetUsers(store, otherToday, pageNumber, countPerPage, userId, gender, 18, 99, likers, likees)
    ensures forall u | u in store.users ::
              u in GetUsers(store, today, pageNumber, countPerPage, userId, gender, 18, 99, likers, likees).value.source
              <==> && u.id != userId && u.gender == gender
                   && (likers ==> Like(u.id, userId) in store.likes)
                   && (likees && !likers ==> Like(userId, u.id) in store.likes)
  {
  }

  /** Any pair other than 18/99, even one that differs in a single bound,
      applies the window: every user returned was born between `today`
      less `maxAge + 1` years and `today` less `minAge` years, inclusive. */
  lemma OtherAgesApplyWindow(store: Store, today: Date, pageNumber: int, countPerPage: int, userId: int,
                             gender: string, minAge: int, maxAge: int, likers: bool, likees: bool)
    requires ValidDate(today)
    requires minAge != 18 || maxAge != 99
    requires GetUsers(store, today, pageNumber, countPerPage, userId, gender, minAge, maxAge, likers, likees).Success?
    ensures forall u | u in GetUsers(store, today, pageNumber, countPerPage, userId, gender, minAge, maxAge, likers, likees).value.source
              :: AtOrBefore(ShiftYears(today, -(maxAge + 1)), u.dateOfBirth)
                 && AtOrBefore(u.dateOfBirth, ShiftYears(today, -minAge))
  {
  }

  // ---------------------------------------------------------------------
  // Worked examples.

  /** A like is looked up in one direction only. */
  lemma GetLikeIsDirected()
    ensures var store := Store([], [], [Like(2, 1)]);
            GetLike(store, 2, 1) == Some(Like(2, 1)) && GetLike(store, 1, 2) == None
  {
  }

  /** Ages 20 to 25 on 15 June 2020: born 15 June 2000 (turns 20 today)
      passes, born a day later does not; born 15 June 1994 (turns 26
      today) passes too, at the inclusive lower end. */
  lemma AgeWindowExample()
    ensures var f := AgeFilterFor(Date(2020, 6, 15), 20, 25);
            && f == Success(BornBetween(Date(1994, 6, 15), Date(2000, 6, 15)))
            && f.value.Admits(Date(2000, 6, 15))
            && !f.value.Admits(Date(2000, 6, 16))
            && f.value.Admits(Date(1994, 6, 15))
            && !f.value.Admits(Date(1994, 6, 14))
            && CompletedYears(Date(2020, 6, 15), Date(1994, 6, 15)) == 26
  {
  }

  /** On 29 February 2024, with ages 20 to 25, the lower end is clamped to
      28 February 1998; that person was already 26 the day before, and is
      still admitted. */
  lemma LeapDayLowerEnd()
    ensures var f := AgeFilterFor(Date(2024, 2, 29), 20, 25);
            && f == Success(BornBetween(Date(1998, 2, 28), Date(2004, 2, 29)))
            && f.value.Admits(Date(1998, 2, 28))
            && !f.value.Admits(Date(1998, 2, 27))
            && CompletedYears(Date(2024, 2, 28), Date(1998, 2, 28)) == 26
  {
  }

  /** Filtering the users 1, 2, 3 by a predicate only user 2 satisfies. */
  lemma OnlySecondQualifies(a: User, b: User, c: User, q: User -> bool)
    requires !q(a) && q(b) && !q(c)
    ensures Where([a, b, c], q) == [b]
  {
    assert [a, b, c][1..] == [b, c] && [b, c][1..] == [c] && [c][1..] == [];
    assert Where([c], q) == [];
    assert Where([b, c], q) == [b] + Where([c], q);
    assert Where([a, b, c], q) == Where([b, c], q);
  }

  /** Requester 1 asks for the women who liked her, default ages; only
      user 2 has liked user 1. */
  lemma LikersExample(today: Date, d: Date)
    requires ValidDate(today)
    ensures var store := Store([User(1, "female", d), User(2, "female", d), User(3, "female", d)], [], [Like(2, 1)]);
            GetUsers(store, today, 1, 10, 1, "female", 18, 99, true, false)
            == Success(PageRequest([User(2, "female", d)], 1, 10))
  {
    var store := Store([User(1, "female", d), User(2, "female", d), User(3, "female", d)], [], [Like(2, 1)]);
    assert GetUser(store, 1).Some?;
    GetUsersMeetsSpec(store, today, 1, 10, 1, "female", 18, 99, true, false);
    OnlySecondQualifies(User(1, "female", d), User(2, "female", d), User(3, "female", d),
                        Qualifies(store, 1, "female", true, false, AnyAge));
  }

  /** With both flags set, a user who liked the requester is returned
      although the requester never liked them back, so the pair is not
      mutual. */
  lemma BothFlagsExample(today: Date, d: Date)
    requires ValidDate(today)
    ensures var store := Store([User(1, "female", d), User(2, "female", d), User(3, "female", d)], [], [Like(2, 1)]);
            && GetUsers(store, today, 1, 10, 1, "female", 18, 99, true, true)
               == Success(PageRequest([User(2, "female", d)], 1, 10))
            && !Qualifies(store, 1, "female", true, true, AnyAge)(User(2, "female", d))
  {
    var store := Store([User(1, "female", d), User(2, "female", d), User(3, "female", d)], [], [Like(2, 1)]);
    BothFlagsActAsLikers(store, today, 1, 10, 1, "female", 18, 99);
    LikersExample(today, d);
  }
}
