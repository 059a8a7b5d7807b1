# Filmorate in-memory core, modelled in Dafny

Filmorate is a small film-rating service. Users befriend each other and like films, and the service lists the most popular films. This project models its in-memory layer and the business rules of the services above it:

- **User store** (`storage/user`): users in a map keyed by id, with ids allocated as max + 1. An update copies only the non-null fields, via `UserUtil.userFieldsUpdate`. Friendships are a per-user map from friend id to a status:
  - an UNCONFIRMED request writes one edge;
  - a CONFIRMED one writes both edges;
  - removal drops only the owner's edge.
- **Film store** (`storage/film`):
  - films in a map keyed by id, each with a set of liking user ids;
  - MPA ratings and genres resolved against the store's own private seeded catalogs, with genres kept in a TreeSet ordered by id;
  - `findPopular`, which sorts by like count, descending, and cuts off at a limit.
- **Genre and MPA catalogs**: seeded by `GenreUtil` (ids 1..6) and `MpaUtil` (ids 1..5). They have:
  - max + 1 ids;
  - updates that ignore blank values;
  - `contains` by id, since genres and ratings are equal when their ids are.
- **Services**:
  - `FilmService` checks ids and referenced MPA/genres before delegating, and resolves users before a like.
  - `GenreService` and `MpaService` keep names unique.
- **Older variants**: `storage/InMemoryUserStorage`, `storage/InMemoryFilmStorage` and `service/UserService`. These throw rather than return empty results. The user store puts a user back when its email check fails. `UserService` keeps a two-way friend set.

Users and films are classes whose fields the code changes in place. Value snapshots (`UserData`, `FilmData`) state what a change does. Merges, renames and outcomes are specification functions; the methods are proved against those functions, and lemmas prove properties of the functions. Genres and ratings are datatypes. A Java `null` is `None` of an `Option`. An exception is an `Err` of a `Result`, one of `NotFound`, `ConditionsNotMet` or `DuplicatedData`.

Where results come from a `HashMap`, the model lists them in ascending id order. The Java order is unspecified.

Places where the code does something other than what its interfaces' comments say follow the code:
- `storage/user/UserStorage.java` describes friend removal as two-way. `InMemoryUserStorage.removeFriend` drops one edge, and `UserStorage.RemoveFriend` does the same.
- In the older stores, `findById` and `deleteById` test `containsKey` before the null check. A null id is therefore NotFound, and that ConditionsNotMet branch can never be taken.
- `FilmService` checks references against the injected catalogs. The film store resolves them against its own private copies, which stay at the seed. `FilmServices.NewGenreUnknownToFilmStore` shows a film that passes the service's check but is refused by the store.
- The film store's `update` stores the request's genres as given: it does not resolve them or order them by id.
- When `update` hits an unknown MPA id, `FilmUtil` has already merged the request into the stored film (`UpdateOutcome` keeps that merged film on the error path too).

## Model

All source paths are below `src/main/java/ru/yandex/practicum/filmorate/`, written out in full in the table.

| member | source | states |
|---|---|---|
| Common.NextId | src/main/java/ru/yandex/practicum/filmorate/storage/user/InMemoryUserStorage.java:213-219 | the next id is larger than every key and is no key; it is 1 for an empty map and otherwise one more than an existing key, so exactly max + 1 |
| Common.SortedKeys | src/main/java/ru/yandex/practicum/filmorate/util/GenreUtil.java:69 | TreeMap iteration: the keys strictly ascending, each exactly once |
| UserUtil.MergedUser | src/main/java/ru/yandex/practicum/filmorate/util/UserUtil.java:8-26 | the merged user keeps its id and friends |
| UserUtil.UserFieldsUpdate | src/main/java/ru/yandex/practicum/filmorate/util/UserUtil.java:8-26 | returns `oldUser` itself, changed in place to the merge of its old state with the request |
| UserUtil.MergedUserFields | src/main/java/ru/yandex/practicum/filmorate/util/UserUtil.java:9-24 | each of email, login, name and birthday is the request's exactly when that is non-null, the old value otherwise |
| UserUtil.MergedUserAllNull | src/main/java/ru/yandex/practicum/filmorate/util/UserUtil.java:8-26 | an all-null request leaves the user unchanged |
| UserUtil.MergedUserIdempotent | src/main/java/ru/yandex/practicum/filmorate/util/UserUtil.java:8-26 | applying the same request twice equals applying it once |
| FilmUtil.MergedFilm | src/main/java/ru/yandex/practicum/filmorate/util/FilmUtil.java:59-85 | the merged film keeps its id and likes |
| FilmUtil.FilmFieldsUpdate | src/main/java/ru/yandex/practicum/filmorate/util/FilmUtil.java:59-85 | returns `oldFilm` itself, changed in place to the merge of its old state with the request |
| FilmUtil.MergedFilmFields | src/main/java/ru/yandex/practicum/filmorate/util/FilmUtil.java:60-83 | each of name, description, release date, duration, MPA and genres is the request's exactly when that is non-null |
| FilmUtil.MergedFilmAllNull | src/main/java/ru/yandex/practicum/filmorate/util/FilmUtil.java:59-85 | an all-null request leaves the film unchanged |
| FilmUtil.MergedFilmIdempotent | src/main/java/ru/yandex/practicum/filmorate/util/FilmUtil.java:59-85 | applying the same request twice equals applying it once |
| GenreUtil.FillGenres | src/main/java/ru/yandex/practicum/filmorate/util/GenreUtil.java:68-87 | the loop yields keys exactly 1..6, each genre carrying its key as id and the i-th name of the table |
| GenreUtil.SeedGenreKeys | src/main/java/ru/yandex/practicum/filmorate/util/GenreUtil.java:79-84 | the seed's key set is exactly {1..6} |
| GenreUtil.SeedGenreNamesDistinct | src/main/java/ru/yandex/practicum/filmorate/util/GenreUtil.java:70-77 | the six seeded names are pairwise distinct |
| GenreUtil.SeedGenresInOrder | src/main/java/ru/yandex/practicum/filmorate/util/GenreUtil.java:69-84 | in key order the seed lists Комедия, Драма, Мультфильм, Триллер, Документальный, Боевик |
| GenreUtil.CatalogInOrder | src/main/java/ru/yandex/practicum/filmorate/util/GenreUtil.java:69-84 | any catalog with keys 1..6 and the table's names lists them in table order |
| MpaUtil.FillMpa | src/main/java/ru/yandex/practicum/filmorate/util/MpaUtil.java:78-106 | the loop yields keys exactly 1..5, each rating carrying its key as id, the i-th name and the i-th description |
| MpaUtil.SeedMpaKeys | src/main/java/ru/yandex/practicum/filmorate/util/MpaUtil.java:97-103 | the seed's key set is exactly {1..5} |
| MpaUtil.SeedMpaNamesDistinct | src/main/java/ru/yandex/practicum/filmorate/util/MpaUtil.java:81-87 | the five seeded names are pairwise distinct |
| MpaUtil.SeedMpaInOrder | src/main/java/ru/yandex/practicum/filmorate/util/MpaUtil.java:79-103 | in key order the seed lists G, PG, PG-13, R, NC-17 |
| MpaUtil.CatalogInOrder | src/main/java/ru/yandex/practicum/filmorate/util/MpaUtil.java:79-103 | any catalog with keys 1..5 and the table's names lists them in table order |
| GenreStorage.RenamedGenre | src/main/java/ru/yandex/practicum/filmorate/storage/genres/InMemoryGenreStorage.java:113-120 | the id is kept; the name changes exactly when the new one is non-null and non-blank, and the genre is unchanged otherwise |
| GenreStorage.RenamedGenreIdempotent | src/main/java/ru/yandex/practicum/filmorate/storage/genres/InMemoryGenreStorage.java:115-118 | renaming twice with the same request equals renaming once |
| GenreStorage.InMemoryGenreStorage.constructor | src/main/java/ru/yandex/practicum/filmorate/storage/genres/InMemoryGenreStorage.java:50 | the store starts as the GenreUtil seed |
| GenreStorage.InMemoryGenreStorage.NextGenreId | src/main/java/ru/yandex/practicum/filmorate/storage/genres/InMemoryGenreStorage.java:165-171 | the next id is above every key and is no key |
| GenreStorage.FirstCreatedGenreId | src/main/java/ru/yandex/practicum/filmorate/storage/genres/InMemoryGenreStorage.java:165-171 | on the seed the first created genre gets id 7 |
| GenreStorage.InMemoryGenreStorage.Create | src/main/java/ru/yandex/practicum/filmorate/storage/genres/InMemoryGenreStorage.java:62-67 | the genre gets the next id and is stored under it; every other entry is unchanged |
| GenreStorage.InMemoryGenreStorage.FindById | src/main/java/ru/yandex/practicum/filmorate/storage/genres/InMemoryGenreStorage.java:76-79 | found exactly when the id is a key, and then the genre stored under it, carrying that id |
| GenreStorage.InMemoryGenreStorage.FindAll | src/main/java/ru/yandex/practicum/filmorate/storage/genres/InMemoryGenreStorage.java:90-93 | exactly the stored genres, once each, in ascending id order |
| GenreStorage.InMemoryGenreStorage.Update | src/main/java/ru/yandex/practicum/filmorate/storage/genres/InMemoryGenreStorage.java:107-121 | an unknown id returns empty and changes nothing; a known one is replaced by its rename |
| GenreStorage.InMemoryGenreStorage.RemoveById | src/main/java/ru/yandex/practicum/filmorate/storage/genres/InMemoryGenreStorage.java:135-138 | returns the prior entry, or empty, and the key is gone afterwards |
| GenreStorage.InMemoryGenreStorage.Contains | src/main/java/ru/yandex/practicum/filmorate/storage/genres/InMemoryGenreStorage.java:150-153 | holds exactly when the genre's id is a key; the name is ignored |
| GenreStorage.InMemoryGenreStorage.ContainsIsEqualityById | src/main/java/ru/yandex/practicum/filmorate/storage/genres/InMemoryGenreStorage.java:151-153 | `contains` holds exactly when some stored genre equals the given one under id-only equality |
| MpaStorage.RevisedMpa | src/main/java/ru/yandex/practicum/filmorate/storage/mpa/InMemoryMpaStorage.java:112-124 | the id is kept; description and name each change independently, only to a non-null, non-blank value |
| MpaStorage.RevisedMpaBlankRequest | src/main/java/ru/yandex/practicum/filmorate/storage/mpa/InMemoryMpaStorage.java:114-120 | a request with no usable name or description leaves the rating unchanged |
| MpaStorage.RevisedMpaIdempotent | src/main/java/ru/yandex/practicum/filmorate/storage/mpa/InMemoryMpaStorage.java:114-120 | revising twice with the same request equals revising once |
| MpaStorage.InMemoryMpaStorage.constructor | src/main/java/ru/yandex/practicum/filmorate/storage/mpa/InMemoryMpaStorage.java:49 | the store starts as the MpaUtil seed |
| MpaStorage.InMemoryMpaStorage.NextMpaId | src/main/java/ru/yandex/practicum/filmorate/storage/mpa/InMemoryMpaStorage.java:169-175 | the next id is above every key and is no key |
| MpaStorage.FirstCreatedMpaId | src/main/java/ru/yandex/practicum/filmorate/storage/mpa/InMemoryMpaStorage.java:169-175 | on the seed the first created rating gets id 6 |
| MpaStorage.InMemoryMpaStorage.Create | src/main/java/ru/yandex/practicum/filmorate/storage/mpa/InMemoryMpaStorage.java:61-66 | the rating gets the next id and is stored under it |
| MpaStorage.InMemoryMpaStorage.FindById | src/main/java/ru/yandex/practicum/filmorate/storage/mpa/InMemoryMpaStorage.java:75-78 | found exactly when the id is a key, and then the rating stored under it |
| MpaStorage.InMemoryMpaStorage.FindAll | src/main/java/ru/yandex/practicum/filmorate/storage/mpa/InMemoryMpaStorage.java:89-92 | exactly the stored ratings, once each, in ascending id order |
| MpaStorage.InMemoryMpaStorage.Update | src/main/java/ru/yandex/practicum/filmorate/storage/mpa/InMemoryMpaStorage.java:106-125 | an unknown id returns empty and changes nothing; a known one is replaced by its revision |
| MpaStorage.InMemoryMpaStorage.RemoveById | src/main/java/ru/yandex/practicum/filmorate/storage/mpa/InMemoryMpaStorage.java:139-142 | returns the prior entry, or empty, and the key is gone afterwards |
| MpaStorage.InMemoryMpaStorage.Contains | src/main/java/ru/yandex/practicum/filmorate/storage/mpa/InMemoryMpaStorage.java:154-157 | holds exactly when the rating's id is a key |
| MpaStorage.InMemoryMpaStorage.ContainsIsEqualityById | src/main/java/ru/yandex/practicum/filmorate/storage/mpa/InMemoryMpaStorage.java:155-157 | `contains` holds exactly when some stored rating equals the given one under id-only equality |
| UserStorage.StoredUsers | src/main/java/ru/yandex/practicum/filmorate/storage/user/InMemoryUserStorage.java:178 | `users::get` per id: the stored user when the id is a key, null otherwise |
| UserStorage.StoredUsersFound | src/main/java/ru/yandex/practicum/filmorate/storage/user/InMemoryUserStorage.java:174-180 | every user found is stored and carries the id asked for, every stored id asked for is found, and every unstored id asked for gives a null |
| UserStorage.InMemoryUserStorage.NextUserId | src/main/java/ru/yandex/practicum/filmorate/storage/user/InMemoryUserStorage.java:213-219 | above every key, no key, 1 on an empty store |
| UserStorage.InMemoryUserStorage.Create | src/main/java/ru/yandex/practicum/filmorate/storage/user/InMemoryUserStorage.java:57-62 | the user gets the next id and the store maps that id to it; nothing else changes |
| UserStorage.InMemoryUserStorage.FindById | src/main/java/ru/yandex/practicum/filmorate/storage/user/InMemoryUserStorage.java:71-74 | found exactly when the id is a key |
| UserStorage.InMemoryUserStorage.FindAll | src/main/java/ru/yandex/practicum/filmorate/storage/user/InMemoryUserStorage.java:81-84 | every stored user, once each |
| UserStorage.InMemoryUserStorage.Update | src/main/java/ru/yandex/practicum/filmorate/storage/user/InMemoryUserStorage.java:96-106 | an unknown id returns empty and changes nothing; a known user takes exactly the request's non-null fields, keeps its id and friends and stays under its key |
| UserStorage.InMemoryUserStorage.RemoveById | src/main/java/ru/yandex/practicum/filmorate/storage/user/InMemoryUserStorage.java:115-118 | returns the pre-removal user, or empty; the key is gone and other entries are unchanged |
| UserStorage.InMemoryUserStorage.AddFriend | src/main/java/ru/yandex/practicum/filmorate/storage/user/InMemoryUserStorage.java:133-142 | UNCONFIRMED writes only the user's edge and leaves the friend's map unchanged; CONFIRMED writes both edges as CONFIRMED |
| UserStorage.InMemoryUserStorage.RemoveFriend | src/main/java/ru/yandex/practicum/filmorate/storage/user/InMemoryUserStorage.java:157-161 | only the key of the friend leaves the user's map; the friend's map is untouched |
| UserStorage.InMemoryUserStorage.FindFriends | src/main/java/ru/yandex/practicum/filmorate/storage/user/InMemoryUserStorage.java:173-180 | one entry per key of the friend map, in ascending key order: the stored user under that key, or null when the key is not stored; each user found is a stored friend, and every stored friend is found |
| UserStorage.InMemoryUserStorage.FindCommonFriends | src/main/java/ru/yandex/practicum/filmorate/storage/user/InMemoryUserStorage.java:193-202 | one entry per id in both friend key sets, in ascending order: the stored user under that id, or null when it is not stored; exactly the stored users whose ids lie in the intersection |
| FilmStorage.MpaLookup | src/main/java/ru/yandex/practicum/filmorate/storage/film/InMemoryFilmStorage.java:235-238 | the catalog's rating for the requested id, NotFound when the id is unknown |
| GenreSet.CatalogEntries | src/main/java/ru/yandex/practicum/filmorate/storage/film/InMemoryFilmStorage.java:252-254 | each requested genre replaced by its catalog entry, NotFound exactly when some id is unknown |
| GenreSet.EntriesKeepIds | src/main/java/ru/yandex/practicum/filmorate/storage/film/InMemoryFilmStorage.java:252-254 | catalog entries carry the ids they were looked up by |
| GenreSet.InsertByIdElements | src/main/java/ru/yandex/practicum/filmorate/storage/film/InMemoryFilmStorage.java:255 | adding to the id-ordered set adds exactly the new id and no foreign element |
| GenreSet.InsertByIdIncreasing | src/main/java/ru/yandex/practicum/filmorate/storage/film/InMemoryFilmStorage.java:255 | adding keeps the set strictly ascending by id |
| GenreSet.InsertByIdPresent | src/main/java/ru/yandex/practicum/filmorate/storage/film/InMemoryFilmStorage.java:255 | adding a genre whose id is already there changes nothing: the first entry stays |
| GenreSet.ToTreeSetSpec | src/main/java/ru/yandex/practicum/filmorate/storage/film/InMemoryFilmStorage.java:251-256 | the collected set is strictly ascending by id, has exactly the input's ids, and holds only input elements |
| GenreSet.ResolveGenres | src/main/java/ru/yandex/practicum/filmorate/storage/film/InMemoryFilmStorage.java:251-256 | `getGenres`: NotFound exactly when some id is unknown; otherwise catalog entries, ascending by id with no duplicate id, covering exactly the requested ids |
| FilmStorage.CreateOutcome | src/main/java/ru/yandex/practicum/filmorate/storage/film/InMemoryFilmStorage.java:75-87 | the film gets the id; it fails exactly when the MPA or a genre id is unknown; otherwise the MPA and a non-empty genre list are replaced by catalog entries, and a null or empty list is kept as given |
| FilmStorage.UpdateOutcome | src/main/java/ru/yandex/practicum/filmorate/storage/film/InMemoryFilmStorage.java:124-143 | the FilmUtil merge, then the catalog MPA; fails exactly when the MPA id is unknown; genres are taken from the request as given; id and likes kept |
| Popularity.SortByLikes | src/main/java/ru/yandex/practicum/filmorate/storage/film/InMemoryFilmStorage.java:203-206 | a permutation of the input in non-increasing order of like count |
| Popularity.InsertKeepsOrder | src/main/java/ru/yandex/practicum/filmorate/storage/film/InMemoryFilmStorage.java:206 | inserting by like count keeps the list non-increasing |
| Popularity.PrefixKeepsOrder | src/main/java/ru/yandex/practicum/filmorate/storage/film/InMemoryFilmStorage.java:207 | cutting at the limit keeps order and distinctness |
| Popularity.CutOffIsLeast | src/main/java/ru/yandex/practicum/filmorate/storage/film/InMemoryFilmStorage.java:206-207 | nothing after the cut-off has more likes than the last one kept |
| FilmStorage.PopularOrder | src/main/java/ru/yandex/practicum/filmorate/storage/film/InMemoryFilmStorage.java:203-206 | every film id exactly once, in non-increasing order of likes |
| FilmStorage.PopularOrderCovers | src/main/java/ru/yandex/practicum/filmorate/storage/film/InMemoryFilmStorage.java:204-206 | each stored id appears in the sorted order |
| FilmStorage.PopularIds | src/main/java/ru/yandex/practicum/filmorate/storage/film/InMemoryFilmStorage.java:202-209 | min(limit, number of films) distinct stored ids, non-increasing in likes |
| FilmStorage.PopularIdsCutOff | src/main/java/ru/yandex/practicum/filmorate/storage/film/InMemoryFilmStorage.java:202-209 | no omitted film has more likes than the last one returned |
| Common.ValuesAt | src/main/java/ru/yandex/practicum/filmorate/storage/film/InMemoryFilmStorage.java:204-208 | the stored values for the ids, in that order (also the `getUser` mapping of the older user service) |
| FilmStorage.FilmsAtMissing | src/main/java/ru/yandex/practicum/filmorate/storage/film/InMemoryFilmStorage.java:204-208 | a stored film that is not listed was not asked for |
| FilmStorage.FilmsAtStored | src/main/java/ru/yandex/practicum/filmorate/storage/film/InMemoryFilmStorage.java:204-208 | each listed film is stored and carries the id asked for |
| FilmStorage.FilmsAtOrdered | src/main/java/ru/yandex/practicum/filmorate/storage/film/InMemoryFilmStorage.java:202-209 | the listed films are distinct and non-increasing in their like sets' sizes |
| FilmStorage.InMemoryFilmStorage.constructor | src/main/java/ru/yandex/practicum/filmorate/storage/film/InMemoryFilmStorage.java:49-61 | no films; the private catalogs are the GenreUtil and MpaUtil seeds |
| FilmStorage.InMemoryFilmStorage.NextFilmId | src/main/java/ru/yandex/practicum/filmorate/storage/film/InMemoryFilmStorage.java:220-226 | above every key, no key, 1 on an empty store |
| FilmStorage.InMemoryFilmStorage.Create | src/main/java/ru/yandex/practicum/filmorate/storage/film/InMemoryFilmStorage.java:74-87 | the film ends as `CreateOutcome` says; on success it is stored under its new id, and on an unknown reference NotFound with the map unchanged |
| FilmStorage.InMemoryFilmStorage.FindById | src/main/java/ru/yandex/practicum/filmorate/storage/film/InMemoryFilmStorage.java:96-99 | found exactly when the id is a key |
| FilmStorage.InMemoryFilmStorage.FindAll | src/main/java/ru/yandex/practicum/filmorate/storage/film/InMemoryFilmStorage.java:106-109 | every stored film, once each |
| FilmStorage.InMemoryFilmStorage.Update | src/main/java/ru/yandex/practicum/filmorate/storage/film/InMemoryFilmStorage.java:124-143 | an unknown id returns empty and changes nothing; a known film ends as `UpdateOutcome` says and stays under its key |
| FilmStorage.InMemoryFilmStorage.RemoveById | src/main/java/ru/yandex/practicum/filmorate/storage/film/InMemoryFilmStorage.java:152-155 | returns the prior film, or empty, and the key is gone afterwards |
| FilmStorage.InMemoryFilmStorage.AddLike | src/main/java/ru/yandex/practicum/filmorate/storage/film/InMemoryFilmStorage.java:167-172 | the user's id joins the likes set and the film is stored under its id |
| FilmStorage.InMemoryFilmStorage.RemoveLike | src/main/java/ru/yandex/practicum/filmorate/storage/film/InMemoryFilmStorage.java:184-189 | the user's id leaves the likes set and the film is stored under its id |
| FilmStorage.InMemoryFilmStorage.LikeCounts | src/main/java/ru/yandex/practicum/filmorate/storage/film/InMemoryFilmStorage.java:203 | for each stored film, the size of its likes set |
| FilmStorage.InMemoryFilmStorage.FindPopular | src/main/java/ru/yandex/practicum/filmorate/storage/film/InMemoryFilmStorage.java:201-209 | min(limit, number of films) films |
| FilmStorage.InMemoryFilmStorage.FindPopularStored | src/main/java/ru/yandex/practicum/filmorate/storage/film/InMemoryFilmStorage.java:201-209 | every film returned is a stored one |
| FilmStorage.InMemoryFilmStorage.FindPopularSorted | src/main/java/ru/yandex/practicum/filmorate/storage/film/InMemoryFilmStorage.java:201-209 | the films returned are distinct and in non-increasing order of likes |
| FilmStorage.InMemoryFilmStorage.FindPopularCutOff | src/main/java/ru/yandex/practicum/filmorate/storage/film/InMemoryFilmStorage.java:201-209 | no stored film left out has more likes than the last one returned |
| GenreServices.SeedNamesDistinct | src/main/java/ru/yandex/practicum/filmorate/util/GenreUtil.java:70-77 | the seed catalog starts with distinct names |
| GenreServices.CreateKeepsNamesDistinct | src/main/java/ru/yandex/practicum/filmorate/service/GenreService.java:53-58 | a genre that passes the name check keeps names distinct once stored |
| GenreServices.RenameKeepsNamesDistinct | src/main/java/ru/yandex/practicum/filmorate/service/GenreService.java:98-111 | a rename that passes the duplicate test keeps names distinct |
| GenreServices.RenameClashesExactly | src/main/java/ru/yandex/practicum/filmorate/service/GenreService.java:101-105 | renaming to another genre's name is a clash; keeping one's own name never is |
| GenreServices.LookupByEquals | src/main/java/ru/yandex/practicum/filmorate/service/GenreService.java:139-142 | an id-equality search of a keyed listing succeeds exactly when the id is a key |
| GenreServices.GenreService.ContainsName | src/main/java/ru/yandex/practicum/filmorate/service/GenreService.java:122-126 | holds exactly when some stored genre has this name |
| GenreServices.GenreService.Create | src/main/java/ru/yandex/practicum/filmorate/service/GenreService.java:53-58 | a taken name is DuplicatedData with the store unchanged; otherwise the genre is stored under the next id; distinct names stay distinct |
| GenreServices.GenreService.FindById | src/main/java/ru/yandex/practicum/filmorate/service/GenreService.java:68-75 | a null id is ConditionsNotMet, an unknown one NotFound, a known one its genre |
| GenreServices.GenreService.Update | src/main/java/ru/yandex/practicum/filmorate/service/GenreService.java:98-111 | ConditionsNotMet for a null id and NotFound for an unknown one; DuplicatedData for a new name another genre has; every error leaves the store unchanged; otherwise the store's rename; distinct names stay distinct |
| GenreServices.GenreService.ContainsGenre | src/main/java/ru/yandex/practicum/filmorate/service/GenreService.java:139-142 | holds exactly when the genre's id is a stored key |
| MpaServices.SeedNamesDistinct | src/main/java/ru/yandex/practicum/filmorate/util/MpaUtil.java:81-87 | the seed catalog starts with distinct names |
| MpaServices.CreateKeepsNamesDistinct | src/main/java/ru/yandex/practicum/filmorate/service/MpaService.java:56-61 | a rating that passes the name check keeps names distinct once stored |
| MpaServices.RenameKeepsNamesDistinct | src/main/java/ru/yandex/practicum/filmorate/service/MpaService.java:101-114 | a revision that passes the duplicate test keeps names distinct |
| MpaServices.RenameClashesExactly | src/main/java/ru/yandex/practicum/filmorate/service/MpaService.java:104-108 | renaming to another rating's name is a clash; keeping one's own name never is |
| MpaServices.MpaService.ContainsName | src/main/java/ru/yandex/practicum/filmorate/service/MpaService.java:125-129 | holds exactly when some stored rating has this name |
| MpaServices.MpaService.Create | src/main/java/ru/yandex/practicum/filmorate/service/MpaService.java:56-61 | a taken name is DuplicatedData with the store unchanged; otherwise the rating is stored under the next id; distinct names stay distinct |
| MpaServices.MpaService.FindById | src/main/java/ru/yandex/practicum/filmorate/service/MpaService.java:71-78 | a null id is ConditionsNotMet, an unknown one NotFound, a known one its rating |
| MpaServices.MpaService.Update | src/main/java/ru/yandex/practicum/filmorate/service/MpaService.java:101-114 | ConditionsNotMet for a null id and NotFound for an unknown one; DuplicatedData for a new name another rating has; every error leaves the store unchanged; otherwise the store's revision |
| FilmServices.CheckedFilmIsCreated | src/main/java/ru/yandex/practicum/filmorate/service/FilmService.java:210-221 | while the injected catalogs equal the film store's, a film that passes `checkMpaAndGenre` is created |
| FilmServices.NewGenreUnknownToFilmStore | src/main/java/ru/yandex/practicum/filmorate/service/FilmService.java:214-220 | a film naming a newly created genre (id 7) passes the service's check, yet the film store refuses it |
| FilmServices.FilmService.CheckMpaAndGenre | src/main/java/ru/yandex/practicum/filmorate/service/FilmService.java:210-221 | passes exactly when the MPA is null or known and every genre of a non-empty list is known, so null MPA with null or empty genres always passes |
| FilmServices.FilmService.Create | src/main/java/ru/yandex/practicum/filmorate/service/FilmService.java:77-80 | an unknown reference is NotFound before the store is touched; otherwise the film store's create |
| FilmServices.FilmService.FindById | src/main/java/ru/yandex/practicum/filmorate/service/FilmService.java:90-97 | a null id is ConditionsNotMet, an unknown one NotFound |
| FilmServices.FilmService.Update | src/main/java/ru/yandex/practicum/filmorate/service/FilmService.java:120-129 | a null id is ConditionsNotMet before the reference checks; an unknown reference is NotFound with the film untouched; an unknown id is NotFound; otherwise the store's update |
| FilmServices.FilmService.RemoveById | src/main/java/ru/yandex/practicum/filmorate/service/FilmService.java:139-146 | a null id is ConditionsNotMet, an absent id NotFound; otherwise the removed film |
| FilmServices.FilmService.GetUser | src/main/java/ru/yandex/practicum/filmorate/service/FilmService.java:193-198 | the stored user, NotFound when the id is null or unknown |
| FilmServices.FilmService.AddLike | src/main/java/ru/yandex/practicum/filmorate/service/FilmService.java:156-158 | NotFound or ConditionsNotMet when the film or the user is missing, with nothing changed; otherwise the user's id joins the film's likes |
| FilmServices.FilmService.RemoveLike | src/main/java/ru/yandex/practicum/filmorate/service/FilmService.java:168-170 | the same guards; otherwise the user's id leaves the film's likes |
| FilmServices.FilmService.LikeThenUnlike | src/main/java/ru/yandex/practicum/filmorate/service/FilmService.java:156-170 | a like followed by its removal restores the likes set of a user who had not liked the film |
| FilmServices.FilmService.LikeTwice | src/main/java/ru/yandex/practicum/filmorate/service/FilmService.java:156-158 | liking twice is the same as liking once |
| LegacyFilmStorage.LegacyMergedFilm | src/main/java/ru/yandex/practicum/filmorate/storage/InMemoryFilmStorage.java:46-65 | only name, description, release date and duration change; id, MPA, genres and likes are kept |
| LegacyFilmStorage.LegacyMergeIsMergeWithoutRefs | src/main/java/ru/yandex/practicum/filmorate/storage/InMemoryFilmStorage.java:46-65 | the older merge is the FilmUtil merge of a request with null MPA and genres |
| LegacyFilmStorage.InMemoryFilmStorage.NextFilmId | src/main/java/ru/yandex/practicum/filmorate/storage/InMemoryFilmStorage.java:81-88 | above every key, no key, 1 on an empty store |
| LegacyFilmStorage.InMemoryFilmStorage.Create | src/main/java/ru/yandex/practicum/filmorate/storage/InMemoryFilmStorage.java:18-23 | the film gets the next id and is stored under it |
| LegacyFilmStorage.InMemoryFilmStorage.FindById | src/main/java/ru/yandex/practicum/filmorate/storage/InMemoryFilmStorage.java:25-34 | NotFound unless the id is a key, a null id included |
| LegacyFilmStorage.InMemoryFilmStorage.FindAll | src/main/java/ru/yandex/practicum/filmorate/storage/InMemoryFilmStorage.java:36-39 | every stored film, once each |
| LegacyFilmStorage.InMemoryFilmStorage.Update | src/main/java/ru/yandex/practicum/filmorate/storage/InMemoryFilmStorage.java:41-68 | a null id is ConditionsNotMet, an unknown one NotFound; otherwise exactly the non-null name, description, release date and duration are copied |
| LegacyFilmStorage.InMemoryFilmStorage.DeleteById | src/main/java/ru/yandex/practicum/filmorate/storage/InMemoryFilmStorage.java:70-79 | NotFound unless the id is a key; otherwise the removed film, with the key gone |
| LegacyUserStorage.DefaultName | src/main/java/ru/yandex/practicum/filmorate/storage/InMemoryUserStorage.java:24-26 | the login when the name is null or blank, the name otherwise |
| LegacyUserStorage.HeldWithoutIsHeldByOther | src/main/java/ru/yandex/practicum/filmorate/storage/InMemoryUserStorage.java:53-58 | with the user taken out, the email is in use exactly when another user holds it |
| LegacyUserStorage.TakeOutForCheck | src/main/java/ru/yandex/practicum/filmorate/storage/InMemoryUserStorage.java:53-58 | taking the user out: the email check sees exactly the other users, uniqueness survives, and the user's own email is free |
| LegacyUserStorage.UniqueAfterPut | src/main/java/ru/yandex/practicum/filmorate/storage/InMemoryUserStorage.java:27-28 | storing a user under a fresh key with an email nobody holds keeps emails unique |
| LegacyUserStorage.AbsentKeyNotStored | src/main/java/ru/yandex/practicum/filmorate/storage/InMemoryUserStorage.java:54 | in a keyed map, a user whose id is not a key is not stored at all |
| LegacyUserStorage.InMemoryUserStorage.NextUserId | src/main/java/ru/yandex/practicum/filmorate/storage/InMemoryUserStorage.java:92-99 | above every key, no key, 1 on an empty store |
| LegacyUserStorage.InMemoryUserStorage.IsContainsEmail | src/main/java/ru/yandex/practicum/filmorate/storage/InMemoryUserStorage.java:101-105 | holds exactly when some stored user has the given email |
| LegacyUserStorage.InMemoryUserStorage.Create | src/main/java/ru/yandex/practicum/filmorate/storage/InMemoryUserStorage.java:19-30 | an email in use is DuplicatedData with map and user unchanged; otherwise the name defaults to the login, the id is the next one, and the user is stored under it; unique emails stay unique |
| LegacyUserStorage.InMemoryUserStorage.FindById | src/main/java/ru/yandex/practicum/filmorate/storage/InMemoryUserStorage.java:32-41 | NotFound unless the id is a key, a null id included |
| LegacyUserStorage.InMemoryUserStorage.FindAll | src/main/java/ru/yandex/practicum/filmorate/storage/InMemoryUserStorage.java:43-46 | every stored user, once each |
| LegacyUserStorage.InMemoryUserStorage.PutBackMerged | src/main/java/ru/yandex/practicum/filmorate/storage/InMemoryUserStorage.java:59-76 | the user takes exactly the request's non-null fields and goes back under its id; with its final email free, emails stay unique |
| LegacyUserStorage.InMemoryUserStorage.Update | src/main/java/ru/yandex/practicum/filmorate/storage/InMemoryUserStorage.java:48-79 | ConditionsNotMet for a null id, NotFound for an unknown one; DuplicatedData when another user holds the new email, with the user put back unchanged; keeping one's own email passes; otherwise exactly the non-null fields are copied; the map is the same on every path and unique emails stay unique |
| LegacyUserStorage.InMemoryUserStorage.DeleteById | src/main/java/ru/yandex/practicum/filmorate/storage/InMemoryUserStorage.java:81-90 | NotFound unless the id is a key; otherwise the removed user, with the key gone |
| LegacyUserServices.MergedLegacyUser | src/main/java/ru/yandex/practicum/filmorate/service/UserService.java:63-66 | the storage update keeps id and friend set |
| LegacyUserServices.MergedLegacyUserIsMergedUser | src/main/java/ru/yandex/practicum/filmorate/util/UserUtil.java:8-26 | that update merges fields exactly as `userFieldsUpdate` does |
| LegacyUserServices.MergedLegacyUserSelf | src/main/java/ru/yandex/practicum/filmorate/service/UserService.java:87-88 | updating a stored user with itself changes nothing |
| LegacyUserServices.BefriendLinks | src/main/java/ru/yandex/practicum/filmorate/service/UserService.java:84-85 | after `addFriend` each is in the other's set, and every other set is unchanged |
| LegacyUserServices.UnfriendUnlinks | src/main/java/ru/yandex/practicum/filmorate/service/UserService.java:97-98 | after `removeFriend` neither is in the other's set, and every other set is unchanged |
| LegacyUserServices.BefriendKeepsSymmetric | src/main/java/ru/yandex/practicum/filmorate/service/UserService.java:80-91 | `addFriend` keeps every friendship two-way |
| LegacyUserServices.UnfriendKeepsSymmetric | src/main/java/ru/yandex/practicum/filmorate/service/UserService.java:93-104 | `removeFriend` keeps every friendship two-way |
| LegacyUserServices.UnfriendUndoesBefriend | src/main/java/ru/yandex/practicum/filmorate/service/UserService.java:80-104 | befriending two non-friends and then unfriending them restores every friend set |
| LegacyUserServices.UsersAtFound | src/main/java/ru/yandex/practicum/filmorate/service/UserService.java:106-122 | each user listed is stored and carries the id asked for, and each id asked for is listed |
| LegacyUserServices.UserService.ContainsEmail | src/main/java/ru/yandex/practicum/filmorate/service/UserService.java:25 | holds exactly when the email is non-null and some stored user has it |
| LegacyUserServices.UserService.NextUserId | src/main/java/ru/yandex/practicum/filmorate/service/UserService.java:124-131 | above the id of every stored user, no key, 1 on an empty store |
| LegacyUserServices.UserService.GetUser | src/main/java/ru/yandex/practicum/filmorate/service/UserService.java:133-138 | the stored user, NotFound when the id is null or unknown |
| LegacyUserServices.UserService.FindById | src/main/java/ru/yandex/practicum/filmorate/service/UserService.java:37-44 | a null id is ConditionsNotMet; otherwise the lookup, NotFound when unknown |
| LegacyUserServices.UserService.Create | src/main/java/ru/yandex/practicum/filmorate/service/UserService.java:24-35 | an email in use is DuplicatedData with nothing changed; otherwise the name defaults to the login, the id is the next one, and the user is stored under it |
| LegacyUserServices.UserService.Update | src/main/java/ru/yandex/practicum/filmorate/service/UserService.java:50-67 | ConditionsNotMet for a null id, NotFound for an unknown one; DuplicatedData for a different email already in use, with the user unchanged; otherwise exactly the non-null fields are copied |
| LegacyUserServices.UserService.RemoveById | src/main/java/ru/yandex/practicum/filmorate/service/UserService.java:69-78 | a null id is ConditionsNotMet, an unknown one NotFound; otherwise the removed user, with the key gone |
| LegacyUserServices.UserService.AddFriend | src/main/java/ru/yandex/practicum/filmorate/service/UserService.java:80-91 | NotFound when either user is missing, with no friend set changed; otherwise the friend sets become `Befriend` of the old ones |
| LegacyUserServices.UserService.RemoveFriend | src/main/java/ru/yandex/practicum/filmorate/service/UserService.java:93-104 | NotFound when either user is missing, with no friend set changed; otherwise the friend sets become `Unfriend` of the old ones |
| LegacyUserServices.UserService.FindFriends | src/main/java/ru/yandex/practicum/filmorate/service/UserService.java:106-112 | NotFound when the user or any friend id is not stored; otherwise one stored user per friend id, covering them all |
| LegacyUserServices.UserService.FindCommonFriends | src/main/java/ru/yandex/practicum/filmorate/service/UserService.java:114-122 | NotFound when either user or any shared id is not stored; otherwise exactly the users whose ids are in both friend sets |

## Left out

- Iteration order of `HashMap` values and key sets: the model chooses ascending id order wherever a list comes out. This affects `findAll`, `findFriends`, `findCommonFriends` and the order of ties in `findPopular`.
- `Long` and `Integer` overflow: ids are unbounded integers, so `getNextId` never wraps.
- NullPointerException paths are excluded with `requires`:
  - an MPA or genre without an id in a film (`RefsHaveIds`);
  - a null name given to `containsName` (`GenreService.Create`, `MpaService.Create`);
  - a null email given to the older store's `create` and `isContainsEmail`;
  - a null genre or rating id given to the catalog stores' `update`.
- FilmStorage.InMemoryFilmStorage.FindPopular: the limit is a `nat`; `Stream.limit` throws for a negative limit, and that case is not modelled.
- Genres and ratings are values, and the stores replace them. Java objects shared with a caller would see the setters; the model does not capture that aliasing.
- Null ids in the friend and like mutators: `UserStorage.InMemoryUserStorage.AddFriend` requires the friend (and, for CONFIRMED, the user) to carry an id, and `FilmStorage.InMemoryFilmStorage.AddLike` and `RemoveLike` require the film and the user to carry one. A `HashMap` or `HashSet` accepts a null key, but the services pass only stored objects, which always have ids. A null key in these maps is not modelled.
- Create methods require that the object is not already stored under another key. Storing the same object twice is not modelled.
- The `findAll` and `findPopular` methods of the services only delegate, and are not modelled apart from the stores' versions.
- LegacyUserServices.UserService: the storage interface that `service/UserService.java` calls matches no store in the repository. It is therefore a map inside the service with the lookup, insert, remove and null-preserving update every store of the repository performs. The two `userStorage.update` calls of `addFriend` and `removeFriend` are left out, because `MergedLegacyUserSelf` shows they change nothing.
- LegacyUserStorage.InMemoryUserStorage.Update: the tail after the email check is split into `PutBackMerged`. The four setters are performed through `UserUtil.UserFieldsUpdate`, which sets the same fields in the same order.
- The relational stores (`*DbStorage`, `BaseRepository`), the row mappers, controllers, exception handlers, Spring configuration, logging and the bean-validation annotations are not part of this model.
- Partial state after an exception: on an unknown MPA id, the film store's `update` has already merged the request into the stored film. The model records this (`UpdateOutcome`) and claims no atomicity.
