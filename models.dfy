/** The entities the repository reads, and the database they live in. */
module Models {
  import opened Calendar
  import opened Linq

  /** A member: the fields the discovery query reads. */
  datatype User = User(id: int, gender: string, dateOfBirth: Date)

  /** A profile photo; `userId` is the foreign key to its owner. */
  datatype Photo = Photo(id: int, url: string, isMain: bool, userId: int)

  /** A directed "like" edge: `likerId` liked `likeeId`. */
  datatype Like = Like(likerId: int, likeeId: int)

  /** The tables of the database context, in storage order. The
      navigation collections (a user's photos, likers and likees) are not
      stored in `User`: they are the rows whose foreign key names it. */
  datatype Store = Store(users: seq<User>, photos: seq<Photo>, likes: seq<Like>)

  /** `Id` is the primary key of Users. */
  ghost predicate UniqueUserIds(users: seq<User>) {
    forall i, j | 0 <= i < j < |users| :: users[i].id != users[j].id
  }

  /** `Id` is the primary key of Photos. */
  ghost predicate UniquePhotoIds(photos: seq<Photo>) {
    forall i, j | 0 <= i < j < |photos| :: photos[i].id != photos[j].id
  }

  /** `(LikerId, LikeeId)` is the composite primary key of Likes: no
      ordered pair is stored twice. */
  ghost predicate UniqueLikeKeys(likes: seq<Like>) {
    Distinct(likes)
  }

  /** What the database's keys guarantee about its contents. */
  ghost predicate ValidStore(store: Store) {
    && UniqueUserIds(store.users)
    && UniquePhotoIds(store.photos)
    && UniqueLikeKeys(store.likes)
  }
}
