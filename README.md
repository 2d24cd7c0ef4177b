# DatingApp.API: repository queries and registration rules

This project models two parts of the DatingApp.API backend in Dafny.

The first is the read side of `DatingRepository`:
- the key lookups `GetLike`, `GetMainPhotoForUser`, `GetPhoto` and `GetUser`;
- the relationship sets `GetUserLikes`, meaning who liked a user and whom the user liked;
- the user-discovery query `GetUsers`. It removes the requester, keeps one gender, optionally keeps only the requester's likers or likees, and applies a date-of-birth window derived from `minAge`/`maxAge` unless the pair is the default 18/99. The filtered users then go to the pager.

The second is the data-annotation validation of `UserForRegisterDto`: `Username` is `[Required]`; `Password` is `[Required]` and `[StringLength(8, MinimumLength = 4)]` with a fixed message.

The database is a value `Store(users, photos, likes)`. Each table is a sequence in storage order; the model reads rows in that order. The queries are pure functions over it, and an exception the source would throw is a `Failure` result. The modules are:
- `Wrappers`: Option and Result.
- `Calendar`: the part of `DateTime` the query uses.
- `Linq`: `Where`, `Select`, `FirstOrDefault` and their laws.
- `Models`: the entities and the key constraints.
- `DatingRepository`: the queries.
- `Registration`: the validator.

Behaviour of the code the model reproduces rather than fixes:
- The lower date-of-birth bound is `today − (maxAge + 1)` years and both ends are inclusive. `AgeWindowMeaning` proves what the window admits: people aged `minAge` to `maxAge`, plus those born exactly on `today` less `maxAge + 1` years as `AddYears` computes it. Their `(maxAge + 1)`-th birthday is today, or, when today is 29 February and that year is not a leap year, it was the day before (`LeapDayLowerEnd`).
- Only the exact pair 18/99 skips the age filter.
- The likees step calls `GetUserLikes(userId, likers)`. With both flags set, the likers set is applied twice and the likees set is never read (`BothFlagsActAsLikers`, `BothFlagsExample`). One might expect a conjunction of both memberships (mutual likes); the code does not compute it, and neither does the model.
- `GetUserLikes` dereferences the loaded user without a null check. An unknown requester with either relationship flag is therefore a `NullReferenceException`: the code throws rather than giving an empty set.
- `DateTime.AddYears` throws `ArgumentOutOfRangeException` when the resulting year leaves 1..9999. So a non-default age pair far enough from today makes the query fail. It clamps 29 February to 28 February in a year that is not a leap year.

## Model

| member | source | states |
|---|---|---|
| `Calendar.AddYears` | DatingApp.API/Data/DatingRepository.cs:77-78 | `AddYears(n)` succeeds exactly when the year lands in 1..9999. On success it gives a valid date with the year moved by `n` and the month kept. The day is kept except that 29 February becomes 28 February in a year that is not a leap year. On failure it reports ArgumentOutOfRange. |
| `Linq.Where` | DatingApp.API/Data/DatingRepository.cs:60-61 | The result holds exactly the input elements that satisfy the predicate, and is no longer than the input. |
| `Linq.FirstOrDefault` | DatingApp.API/Data/DatingRepository.cs:38 | It gives none exactly when no element matches. Otherwise it gives a matching element of the input that is preceded by no other match. |
| `Linq.WhereFuse` | DatingApp.API/Data/DatingRepository.cs:59-81 | Two `Where` filters applied one after the other equal one `Where` by their conjunction. |
| `Linq.Select` | DatingApp.API/Data/DatingRepository.cs:93-95 | The projection has one entry per input row, in order, each the projected field of that row, and every entry comes from some input row. |
| `Linq.WhereDistinct` | DatingApp.API/Data/DatingRepository.cs:93 | Filtering a sequence without repetitions gives one without repetitions. |
| `DatingRepository.GetLike` | DatingApp.API/Data/DatingRepository.cs:36-39 | It finds an edge exactly when the ordered pair `(userId, recipientId)` is in the Likes table, and then the edge is that pair. |
| `DatingRepository.GetLikeIsDirected` | DatingApp.API/Data/DatingRepository.cs:38 | With only the edge 2→1 stored, `GetLike(2, 1)` finds it and `GetLike(1, 2)` finds nothing. |
| `DatingRepository.GetMainPhotoForUser` | DatingApp.API/Data/DatingRepository.cs:41-44 | A returned photo belongs to user `id` and is marked main. It returns none exactly when no photo of that user is main. |
| `DatingRepository.MainPhotoIsUnique` | DatingApp.API/Data/DatingRepository.cs:43 | If a user has exactly one main photo, that photo is returned. |
| `DatingRepository.GetPhoto` | DatingApp.API/Data/DatingRepository.cs:46-49 | A returned photo has the requested id. It returns none exactly when no photo has that id. |
| `DatingRepository.GetPhotoFindsPhoto` | DatingApp.API/Data/DatingRepository.cs:48 | With photo ids unique, looking up a stored photo's id returns that photo. |
| `DatingRepository.GetUser` | DatingApp.API/Data/DatingRepository.cs:51-55 | A returned user has the requested id. It returns none exactly when no user has that id. |
| `DatingRepository.GetUserFindsUser` | DatingApp.API/Data/DatingRepository.cs:53 | With user ids unique, looking up a stored user's id returns that user. |
| `DatingRepository.LikersOf` | DatingApp.API/Data/DatingRepository.cs:88 | The loaded `Likers` collection holds exactly the Likes rows whose likee is the user. |
| `DatingRepository.LikeesOf` | DatingApp.API/Data/DatingRepository.cs:89 | The loaded `Likees` collection holds exactly the Likes rows whose liker is the user. |
| `DatingRepository.GetUserLikes` | DatingApp.API/Data/DatingRepository.cs:85-97 | It throws NullReference exactly when no user has the id. With `likers`, an id is listed iff that user liked `id`. Otherwise an id is listed iff `id` liked that user. |
| `DatingRepository.GetUserLikesDistinct` | DatingApp.API/Data/DatingAppContext.cs:39 | Since `(LikerId, LikeeId)` is the key of Likes, no id is listed twice. |
| `DatingRepository.AgeFilterFor` | DatingApp.API/Data/DatingRepository.cs:75-79 | There is no age constraint iff the pair is exactly 18/99. Any other pair gives the window from `today − (maxAge + 1)` years to `today − minAge` years. It throws ArgumentOutOfRange exactly when that pair takes an end outside years 1..9999. |
| `DatingRepository.AgeWindowMeaning` | DatingApp.API/Data/DatingRepository.cs:77-80 | A date of birth is admitted iff the person is at least `minAge` today and either at most `maxAge` or born exactly on the lower bound, `today` less `maxAge + 1` years as `AddYears` computes it. That person's `(maxAge + 1)`-th birthday is today, or on 29 February it may have been the day before. |
| `DatingRepository.AgeWindowExample` | DatingApp.API/Data/DatingRepository.cs:77-80 | For ages 20 to 25 on 2020-06-15, the window is [1994-06-15, 2000-06-15], inclusive at both ends. 2000-06-16 and 1994-06-14 are excluded. |
| `DatingRepository.LeapDayLowerEnd` | DatingApp.API/Data/DatingRepository.cs:77-80 | On 2024-02-29 with ages 20 to 25, the window is [1998-02-28, 2004-02-29]. 1998-02-28 is admitted although that person was already 26 on 2024-02-28; 1998-02-27 is excluded. |
| `DatingRepository.GetUsers` | DatingApp.API/Data/DatingRepository.cs:57-83 | `pageNumber` and `countPerPage` reach the pager unchanged. Every user returned is in the Users table, is not the requester, and has exactly the requested gender. |
| `DatingRepository.GetUsersMeetsSpec` | DatingApp.API/Data/DatingRepository.cs:59-81 | On success the result is the Users table, in storage order, filtered by one conjunction. Each user must not be the requester, must have the gender, must have liked the requester if `likers` is set, must have been liked by the requester if only `likees` is set, and must be inside the age filter. |
| `DatingRepository.GetUsersFailure` | DatingApp.API/Data/DatingRepository.cs:63-78 | The query throws iff a relationship flag is set and the requester does not exist, or the age window throws. The null dereference comes first. |
| `DatingRepository.BothFlagsActAsLikers` | DatingApp.API/Data/DatingRepository.cs:69-73 | With both flags set, the result equals the result with only `likers` set. |
| `DatingRepository.BothFlagsExample` | DatingApp.API/Data/DatingRepository.cs:71 | With both flags, a user who liked the requester is returned even though the requester never liked them back. |
| `DatingRepository.LikersFlagKeepsLikers` | DatingApp.API/Data/DatingRepository.cs:63-67 | With `likers` alone, every user returned liked the requester. |
| `DatingRepository.LikeesFlagKeepsLikees` | DatingApp.API/Data/DatingRepository.cs:69-73 | With `likees` alone, every user returned was liked by the requester. |
| `DatingRepository.NoFlagsReadNoLikes` | DatingApp.API/Data/DatingRepository.cs:63-73 | Without relationship flags, the result does not depend on the Likes table, and an unknown requester is no error. |
| `DatingRepository.DefaultAgesIgnoreBirthDates` | DatingApp.API/Data/DatingRepository.cs:75 | For 18/99 the result does not depend on today's date. A stored user is returned iff the other filters hold, whatever the date of birth. |
| `DatingRepository.OtherAgesApplyWindow` | DatingApp.API/Data/DatingRepository.cs:75-80 | For any pair other than 18/99, including one that differs in a single bound, every user returned was born within the inclusive window. |
| `DatingRepository.LikersExample` | DatingApp.API/Data/DatingRepository.cs:63-67 | Requester 1 asks for women who liked her, with default ages and likes {2→1}. Among users 1, 2 and 3, exactly user 2 is returned. |
| `Registration.RequiredErrors` | DatingApp.API/DTOs/UserForRegisterDto.cs:11 | `[Required]` fails, with one error for the field, exactly when the value is null or blank. |
| `Registration.PasswordLengthErrors` | DatingApp.API/DTOs/UserForRegisterDto.cs:15 | A null password passes `StringLength`. Otherwise it fails, with the fixed message, exactly when its length is outside 4..8. |
| `Registration.Validate` | DatingApp.API/DTOs/UserForRegisterDto.cs:11-16 | Each rule's error is reported iff that rule fails. The request is error-free iff none of the three is reported. |
| `Registration.ValidRegistration` | DatingApp.API/DTOs/UserForRegisterDto.cs:11-16 | A valid request has a non-null username and a non-null password, and a password whose length is outside 4..8 is never valid. |
| `Registration.ValidRegistrationIff` | DatingApp.API/DTOs/UserForRegisterDto.cs:11-16 | A request is valid iff the username is non-null and not blank, the password is non-null and not blank, and the password has 4 to 8 UTF-16 code units. |
| `Registration.NullIsRejected` | DatingApp.API/DTOs/UserForRegisterDto.cs:11-16 | A null username or a null password is invalid. |
| `Registration.PasswordLengthOutOfRange` | DatingApp.API/DTOs/UserForRegisterDto.cs:15 | A password shorter than 4 or longer than 8 is rejected with "you must specify a password between 4 and 8 characters". |
| `Registration.PasswordBoundsInclusive` | DatingApp.API/DTOs/UserForRegisterDto.cs:15 | For a non-blank username and a non-blank password of single-unit characters, validity holds exactly for lengths 4 to 8. Both ends are included. |
| `Registration.UsernameLengthIsFree` | DatingApp.API/DTOs/UserForRegisterDto.cs:11-12 | Any two non-blank usernames give the same verdict. The username has no length constraint. |
| `Registration.Trim` | DatingApp.API/DTOs/UserForRegisterDto.cs:11 | The trimmed string is empty iff the input is all white space. Otherwise it neither starts nor ends with white space. |
| `Registration.Utf16Length` | DatingApp.API/DTOs/UserForRegisterDto.cs:15 | The length lies between the character count and twice the count. It equals the count when every character is in the Basic Multilingual Plane. |

## Left out

- Paging: `PagedList<User>.CreateAsync` is not part of this model. `GetUsers` ends with the `PageRequest` it would receive: the filtered users and the paging arguments unchanged. Slicing and page metadata are not modelled. A non-positive page size is not rejected.
- `Add<T>`, `Delete<T>` and `SaveAll`: one-line wrappers over the Entity Framework change tracker and `SaveChangesAsync`, with no logic of their own.
- `async`/`Task`, the `Include` eager loading and the LINQ-to-SQL translation: the store is an in-memory value. String equality (`Gender`) follows the database collation in the source; the model compares exactly. A user's navigation collections (photos, likers, likees) are the rows whose foreign key names that user.
- Row order: the source applies no `OrderBy` before paging (DatingApp.API/Data/DatingRepository.cs:82) or before `FirstOrDefault` (lines 38, 43, 48, 53), so the database chooses the order and which users land on which page is unspecified. The model fixes storage order, which makes its first match and its page contents one particular choice among those the database may make.
- `DateTime.Today`: clock input, passed as the `today` parameter. The source reads the clock once for each end of the window (DatingApp.API/Data/DatingRepository.cs:77 and :78); the model uses one date for both, so a query that runs across midnight is not modelled.
- Time of day: dates of birth are calendar dates at midnight. A stored time of day, which would move a birth on the upper bound's day outside the window, is not modelled.
- Null `Gender` values and a null `gender` argument: gender is a non-null string compared exactly.
- 32-bit `int` arithmetic: `-maxAge - 1` wraps only for `int.MinValue`, and there the wrapped value equals the exact one. Every extreme age makes `AddYears` throw in both readings, so unbounded integers give the same behaviour.
- `CalculateAge` is not part of this model. `Calendar.CompletedYears`, the usual completed-years age, is defined here only to state what the window means.
- `AutoMapperProfiles.cs`: declarative mapping configuration; its main-photo lookup through `FirstOrDefault(...).Url` is library behaviour.
- `DatingAppContext.cs`: only the composite key of Likes (`UniqueLikeKeys`) is carried over. The connection string, the restrict-delete rules (enforced by the database) and the other mappings are not.
- Negative ages and `minAge > maxAge` are not checked, by the code or by the model.
- Unpaired UTF-16 surrogates: a Dafny `char` is a Unicode scalar value, so a C# string holding a lone surrogate cannot be expressed. `Utf16Length`, `Trim` and the length rule cover well-formed strings only.
- The validator's message for `[Required]` is framework text and is represented only by the error kind. The order in which the framework runs the attributes is taken as their declaration order.
