# Pet social media core, modelled in Dafny

This project models the core of a Flask social network for pets. It covers:

- the domain entities: users, pet users, human users, posts, comments and likes;
- the CSV readers that load pet users and posts and attach posts, likes and comments to their owners;
- the in-memory repository, and the relational repository's operations on comments, likes, followers and listings;
- the column converters of the ORM;
- the authentication services: register, look up, log in and the user dictionary;
- the upload rules and the profile-picture service;
- the `timeago` template filter;
- the pure logic of two browser scripts: the comments panel and the splash background loader.

How each part is modelled:

- Entities whose fields the source updates in place are classes. Their methods state the new value of every field they change. The list updates are stated through the functions of the `Lists` and `Likes` modules, and lemmas there prove the laws those updates keep: idempotence, no duplicates, undo.
- The repositories hold their tables as sequences of rows.
- A call either returns or raises, so each operation's exceptions are values of a `Result` or `Outcome` datatype.
- The clock, the password hash, `secure_filename`, the date parser and other calls into libraries are parameters of the operations that use them.

Modules, one per core file, with shared helpers:

- `Common`: option, result and path values.
- `Text`: Python's `strip`, `split`, `int()` and `str()` on integers, and `lower`.
- `Lists`: list add and remove.
- `Rows`: row-by-row reading that stops at the first failing row.

## Model

| member | source | states |
|---|---|---|
| Animals.FromValue | pets/domainmodel/AnimalType.py:4-12 | `AnimalType(v)` gives a member whose value is `v`; any other string raises |
| Animals.FromValueOfValue | pets/domainmodel/AnimalType.py:4-12 | looking a member up by its value gives the member back, so the eight values are distinct |
| Animals.FromValueTotalOnValues | pets/domainmodel/AnimalType.py:4-12 | a string is refused exactly when it is no member's value |
| Likes.Key | pets/domainmodel/Like.py:16-23 | the three fields `__eq__` compares: id, user id, post id |
| Likes.EqualIffSameKey | pets/domainmodel/Like.py:16-23 | two likes are equal exactly when id, user and post agree, whatever their creation times |
| Likes.NeverEqualsNonLike | pets/domainmodel/Like.py:17-18 | a like never equals a value that is not a like |
| Likes.ChangedFieldUnequal | pets/domainmodel/Like.py:19-23 | changing any one compared field makes two likes unequal |
| Likes.EqualIsEquivalence | pets/domainmodel/Like.py:16-23 | like equality is reflexive, symmetric and transitive |
| Likes.WithLike | pets/domainmodel/Post.py:101-103 | after `add_like` the like is present; the list is unchanged when an equal like was there, else grows by exactly that like at the end |
| Likes.WithoutLike | pets/domainmodel/Post.py:105-107 | `remove_like` changes nothing without an equal like and otherwise removes exactly one element |
| Likes.WithoutLikeIsCut | pets/domainmodel/Post.py:105-107 | the removed element is the first like equal to the argument; the rest keep their order |
| Likes.WithLikeIdempotent | pets/domainmodel/Post.py:101-103 | adding the same like twice is the same as adding it once |
| Likes.WithLikeKeepsDistinct | pets/domainmodel/Post.py:101-103 | `add_like` keeps the likes of a post pairwise unequal |
| Likes.WithoutLikeKeepsDistinct | pets/domainmodel/Post.py:105-107 | `remove_like` keeps them pairwise unequal and leaves no like equal to the removed one |
| Likes.RemoveUndoesAdd | pets/domainmodel/Post.py:101-107 | removing a like just added (one with no equal before) restores the list |
| Likes.FreshLikeGrows | pets/domainmodel/Post.py:101-103 | a like with no equal grows the list by one and lands at its end |
| Likes.WithLikes | pets/adapters/datareaders/posts_reader.py:41-43 | after a run of `add_like` calls every added like has an equal in the list, and the likes that were there stay in front |
| Likes.WithLikesSnoc | pets/adapters/datareaders/posts_reader.py:41-43 | one more `add_like` after a run extends the run |
| Likes.WithLikesFresh | pets/adapters/datareaders/posts_reader.py:41-43 | pairwise unequal likes, none with an equal present, are all appended in order |
| Likes.FilterKeepsDistinct | pets/domainmodel/Post.py:101-107 | keeping some of a list of pairwise unequal likes keeps them pairwise unequal |
| Lists.Added | pets/domainmodel/Post.py:120-122 | the membership-guarded append of the list fields: the element ends up present, and the list grows by one exactly when it was absent |
| Lists.Removed | pets/domainmodel/Post.py:124-126 | the guarded `list.remove`: nothing changes for an absent element, else one element goes |
| Lists.RemovedIsCut | pets/domainmodel/Post.py:124-126 | the removed element is the first occurrence; the others keep their order |
| Lists.RemovedMultiset | pets/domainmodel/Post.py:124-126 | a remove takes exactly one copy of the element out of the list's multiset |
| Lists.AddedIdempotent | pets/domainmodel/Post.py:120-122 | a second add of the same element changes nothing |
| Lists.AddedKeepsNoDup | pets/domainmodel/User.py:94-104 | a list with no duplicates keeps none after an add |
| Lists.RemovedKeepsNoDup | pets/domainmodel/PetUser.py:76-78 | a remove keeps the list free of duplicates and the element absent afterwards |
| Lists.RemovedFromEnd | pets/domainmodel/HumanUser.py:63-69 | removing an element just appended restores the list |
| Lists.RemoveUndoesAdd | pets/domainmodel/HumanUser.py:51-57 | adding an absent element and removing it again restores the list |
| Lists.AddedAll | pets/adapters/datareaders/pet_user_reader.py:53-55 | after a run of guarded adds every element is present and the earlier elements stay in front |
| Lists.AddedAllIdempotent | pets/adapters/datareaders/pet_user_reader.py:51-55 | repeating a run of guarded adds changes nothing |
| Lists.AddedAllFresh | pets/adapters/datareaders/pet_user_reader.py:51-55 | distinct elements, none already present, are all appended in order |
| Lists.AddedAllPresent | pets/adapters/datareaders/pet_user_reader.py:51-55 | adding elements that are all present changes nothing |
| Lists.FilterKeepsSelected | pets/adapters/database_repository.py:142-151 | the filter of a query keeps every row that satisfies its condition |
| Lists.FilterSnoc | pets/adapters/database_repository.py:271-278 | the filter of a table with one more row is the old filter plus that row when it qualifies |
| Lists.FilterKeepsNoDup | pets/adapters/datareaders/pet_user_reader.py:51-55 | filtering a list without duplicates gives one without duplicates |
| DomainModel.Comment.constructor | pets/domainmodel/Comment.py:14-26 | every field holds its argument |
| DomainModel.Comment.SetCommentString | pets/domainmodel/Comment.py:44-46 | the setter replaces the text and nothing else |
| DomainModel.Comment.AddLike | pets/domainmodel/Comment.py:52-53 | `add_like` always appends, so the list grows by one even for a like already present |
| DomainModel.User.constructor | pets/domainmodel/User.py:24-48 | the fields hold the arguments; a missing list is empty and a missing picture path is the empty path, whose text is "." |
| DomainModel.User.SetUsername | pets/domainmodel/User.py:58-60 | the setter replaces the username and nothing else |
| DomainModel.User.SetEmail | pets/domainmodel/User.py:66-68 | the setter replaces the email and nothing else |
| DomainModel.User.SetPasswordHash | pets/domainmodel/User.py:74-76 | the setter replaces the password hash and nothing else |
| DomainModel.User.SetProfilePicturePath | pets/domainmodel/User.py:82-84 | the setter replaces the picture path and nothing else |
| DomainModel.User.SetBio | pets/domainmodel/User.py:117-119 | the setter replaces the bio and nothing else |
| DomainModel.User.LikePost | pets/domainmodel/User.py:94-96 | the liked posts become `Added(old, post)`, so a post is never listed twice |
| DomainModel.User.Follow | pets/domainmodel/User.py:102-104 | the followed users become `Added(old, user)` |
| DomainModel.User.AddComment | pets/domainmodel/User.py:110-111 | `add_comment` always appends |
| DomainModel.PetUser.constructor | pets/domainmodel/PetUser.py:18-54 | the fields hold the arguments; a missing creation time is the current time; missing posts and follower ids are empty |
| DomainModel.PetUser.AddPost | pets/domainmodel/PetUser.py:72-74 | a post is added once; a value that is not a post changes nothing |
| DomainModel.PetUser.DeletePost | pets/domainmodel/PetUser.py:76-78 | the posts become `Removed(old, post)`; a value that is not a post changes nothing |
| DomainModel.PetUser.AddFollower | pets/domainmodel/PetUser.py:80-84 | an integer id is added once; any other value changes nothing |
| DomainModel.PetUser.RemoveFollower | pets/domainmodel/PetUser.py:86-88 | the follower ids become `Removed(old, id)` |
| DomainModel.HumanUser.constructor | pets/domainmodel/HumanUser.py:15-45 | the fields hold the arguments; missing favourites are empty and the friend list always starts empty |
| DomainModel.HumanUser.AddFavouriteAnimal | pets/domainmodel/HumanUser.py:51-53 | an animal type is added once; any other value changes nothing |
| DomainModel.HumanUser.RemoveFavouriteAnimal | pets/domainmodel/HumanUser.py:55-57 | a listed animal type is removed; any other value changes nothing |
| DomainModel.HumanUser.AddFriend | pets/domainmodel/HumanUser.py:63-65 | a user is added once; any other value changes nothing |
| DomainModel.HumanUser.RemoveFriend | pets/domainmodel/HumanUser.py:67-69 | a listed user is removed; any other value changes nothing |
| DomainModel.Post.constructor | pets/domainmodel/Post.py:25-51 | the fields hold the arguments; missing comment and like lists are empty |
| DomainModel.Post.AddLike | pets/domainmodel/Post.py:101-103 | the likes become `WithLike(old, like)`: appended only when no like with the same id, user and post is present |
| DomainModel.Post.RemoveLike | pets/domainmodel/Post.py:105-107 | the likes become `WithoutLike(old, like)`: the first equal like is cut out |
| DomainModel.Post.AddComment | pets/domainmodel/Post.py:109-111 | the comments become `Added(old, comment)` |
| DomainModel.Post.RemoveComment | pets/domainmodel/Post.py:113-115 | the comments become `Removed(old, comment)` |
| DomainModel.Post.IncrementViews | pets/domainmodel/Post.py:117-118 | one more view; nothing else changes |
| DomainModel.Post.AddTag | pets/domainmodel/Post.py:120-122 | the tags become `Added(old, tag)` |
| DomainModel.Post.RemoveTag | pets/domainmodel/Post.py:124-126 | the tags become `Removed(old, tag)` |
| DomainModel.Post.TagUser | pets/domainmodel/Post.py:128-130 | the tagged users become `Added(old, user)` |
| DomainModel.Post.UntagUser | pets/domainmodel/Post.py:132-134 | the tagged users become `Removed(old, user)` |
| Rows.ReadAll | pets/adapters/datareaders/posts_reader.py:19-36 | reading every row gives one record per row, or the first row's exception |
| Rows.ReadAllRowByRow | pets/adapters/datareaders/posts_reader.py:19-36 | the read succeeds exactly when every row converts, record k coming from row k; a failure is the error of the first failing row |
| Rows.ReadAllStep | pets/adapters/datareaders/posts_reader.py:19-36 | one more row extends a successful read by its record, or fails with its error |
| Rows.ReadAllFailsFrom | pets/adapters/datareaders/posts_reader.py:19-36 | once a prefix of the rows fails, the whole read fails with the same error |
| Rows.Cell | pets/adapters/datareaders/posts_reader.py:20-34 | `row[name]` gives the cell, and a missing column raises `KeyError` |
| Rows.IntCell | pets/adapters/datareaders/posts_reader.py:25-28 | `int(row[name])` succeeds exactly when the cell parses, and gives the parsed value |
| PostsReading.ParseIntsPair | pets/adapters/datareaders/posts_reader.py:21 | two parsable cells give the pair of their values |
| PostsReading.SplitSize | pets/adapters/datareaders/posts_reader.py:21 | `"a, b".split(", ")` gives back the two pieces when neither holds a comma |
| PostsReading.SizeRoundTrip | pets/adapters/datareaders/posts_reader.py:20-23 | a size written as "w, h" reads back as (w, h), and an empty cell reads as (0, 0) |
| PostsReading.TagsRoundTrip | pets/adapters/datareaders/posts_reader.py:31 | joining the comma-split tags with commas gives the cell back |
| PostsReading.FieldsToRow | pets/adapters/datareaders/posts_reader.py:24-35 | the row a post's fields are written as has every column, each holding that field's text |
| PostsReading.IntCellOf | pets/adapters/datareaders/posts_reader.py:25-28 | an integer cell written from n reads back as n |
| PostsReading.IntCellsOf | pets/adapters/datareaders/posts_reader.py:25-28 | the id, user id and views cells read back as the written numbers |
| PostsReading.SizeCellOfPair | pets/adapters/datareaders/posts_reader.py:20-21 | a written size cell reads back as the size |
| PostsReading.RowOfCells | pets/adapters/datareaders/posts_reader.py:20-35 | a row whose cells read as a post's fields gives that post |
| PostsReading.WrittenCellsRead | pets/adapters/datareaders/posts_reader.py:20-31 | every written cell of a post reads back as its field |
| PostsReading.RowOfWrittenCells | pets/adapters/datareaders/posts_reader.py:20-35 | a row holding a post's written cells reads back as that post |
| PostsReading.RowRoundTrip | pets/adapters/datareaders/posts_reader.py:20-35 | writing a post's fields as a row and reading it gives the fields back |
| PostsReading.PostIndex | pets/adapters/datareaders/posts_reader.py:40 | the id index sends every id to a listed post with that id |
| PostsReading.PostIndexCovers | pets/adapters/datareaders/posts_reader.py:40 | every listed id is indexed, and a post whose id no later post repeats is the one indexed |
| PostsReading.IndexOfUniqueIds | pets/adapters/datareaders/posts_reader.py:40 | with unique ids, each post's id leads to it and no other id does |
| PostsReading.LikesRoutedStep | pets/adapters/datareaders/posts_reader.py:41-43 | one more like goes to a post exactly when the index sends its post id there |
| PostsReading.CommentsRoutedStep | pets/adapters/datareaders/posts_reader.py:47-49 | one more comment goes to a post exactly when the index sends its post id there |
| PostsReading.LikesStep | pets/adapters/datareaders/posts_reader.py:41-43 | one loop step keeps each post's likes equal to its start plus the likes routed to it so far |
| PostsReading.CommentsStep | pets/adapters/datareaders/posts_reader.py:47-49 | one loop step keeps each post's comments equal to its start plus the comments routed to it so far |
| PostsReading.RoutedToOwnPost | pets/adapters/datareaders/posts_reader.py:39-49 | with unique post ids, a post is handed exactly the likes and comments carrying its id, in order |
| PostsReading.AssignedLikesAreRows | pets/adapters/datareaders/posts_reader.py:39-43 | a post without likes ends with exactly the pairwise unequal likes of its id |
| PostsReading.AssignedCommentsAreRows | pets/adapters/datareaders/posts_reader.py:45-49 | a post without comments ends with exactly the comments of its id |
| PostsReading.PostsReader.constructor | pets/adapters/datareaders/posts_reader.py:13-14 | the reader starts without posts |
| PostsReading.PostsReader.AppendPost | pets/adapters/datareaders/posts_reader.py:24-36 | a fresh post built from the fields is appended |
| PostsReading.PostsReader.AppendRows | pets/adapters/datareaders/posts_reader.py:19-36 | the loop appends one fresh post per row, built from that row's fields, up to the first failing row, whose error it reports |
| PostsReading.PostsReader.ReadPosts | pets/adapters/datareaders/posts_reader.py:16-37 | `read_posts` returns the posts exactly when every row reads; the posts kept are the old ones plus one per row read; an error is that of the first failing row, and the rows before it stay appended |
| PostsReading.PostsReader.RouteLike | pets/adapters/datareaders/posts_reader.py:42-43 | only the post the index names gets the like, through `add_like` |
| PostsReading.PostsReader.RouteComment | pets/adapters/datareaders/posts_reader.py:48-49 | only the post the index names gets the comment, through `add_comment` |
| PostsReading.PostsReader.AssignLikes | pets/adapters/datareaders/posts_reader.py:39-43 | each post's likes become its old likes plus, through `add_like`, the likes routed to it, in order |
| PostsReading.PostsReader.AssignComments | pets/adapters/datareaders/posts_reader.py:45-49 | each post's comments become its old comments plus the comments routed to it, each added once |
| PetUsersReading.ParseFollowerIds | pets/adapters/datareaders/pet_user_reader.py:28-33 | a blank follower cell gives no ids |
| PetUsersReading.FollowerTextNoSpace | pets/adapters/datareaders/pet_user_reader.py:28 | follower ids written with commas hold no whitespace |
| PetUsersReading.FollowerPiecesOfStrings | pets/adapters/datareaders/pet_user_reader.py:30 | the kept pieces of written ids are their texts |
| PetUsersReading.FollowerIdsRoundTrip | pets/adapters/datareaders/pet_user_reader.py:28-33 | any list of ids written with commas reads back as the same list |
| PetUsersReading.FieldsToRow | pets/adapters/datareaders/pet_user_reader.py:35-47 | the written row has the picture column exactly when there is a path, and each cell holds its field's text |
| PetUsersReading.RowOfCells | pets/adapters/datareaders/pet_user_reader.py:21-47 | a row whose cells read as a pet user's fields gives that user |
| PetUsersReading.WrittenCellsRead | pets/adapters/datareaders/pet_user_reader.py:21-36 | the written creation time, follower ids and id read back |
| PetUsersReading.RowOfWrittenCells | pets/adapters/datareaders/pet_user_reader.py:21-47 | a row of written cells reads back as the user |
| PetUsersReading.RowRoundTrip | pets/adapters/datareaders/pet_user_reader.py:21-47 | writing a pet user's fields and reading them back gives the fields |
| PetUsersReading.UserIndex | pets/adapters/datareaders/pet_user_reader.py:52 | the id index sends every id to a listed user with that id |
| PetUsersReading.UserIndexCovers | pets/adapters/datareaders/pet_user_reader.py:52 | every listed id is indexed, and a user whose id no later user repeats is the one indexed |
| PetUsersReading.IndexOfUniqueIds | pets/adapters/datareaders/pet_user_reader.py:52 | with unique ids, each user's id leads to them and no other id does |
| PetUsersReading.PostsRoutedStep | pets/adapters/datareaders/pet_user_reader.py:53-55 | one more post goes to a user exactly when the index sends its author id there |
| PetUsersReading.PostsStep | pets/adapters/datareaders/pet_user_reader.py:53-55 | one loop step keeps each user's posts equal to the start plus the posts routed so far |
| PetUsersReading.RoutedToOwner | pets/adapters/datareaders/pet_user_reader.py:51-55 | with unique user ids, a user is handed exactly the posts carrying their id |
| PetUsersReading.AssignedPostsAreOwn | pets/adapters/datareaders/pet_user_reader.py:51-55 | a user without posts ends with exactly their own posts, in order |
| PetUsersReading.AssignPostsTwice | pets/adapters/datareaders/pet_user_reader.py:51-55 | assigning the same posts again changes nothing |
| PetUsersReading.AssignPostsAsWritten | pets/adapters/datareaders/pet_user_reader.py:52 | as written, the index reads `user.user_id`, so any non-empty list of users raises `AttributeError` |
| PetUsersReading.AssignPostsDiscrepancy | pets/adapters/datareaders/pet_user_reader.py:51-55 | one user with one post: the written call raises while the intended one hands the user the post |
| PetUsersReading.ReadPetUsersAsWritten | pets/adapters/datareaders/pet_user_reader.py:17-50 | as written, a failing row raises its error, a reader left holding no user returns, and any other read raises `AttributeError` from the print at line 49 |
| PetUsersReading.ReadPetUsersDiscrepancy | pets/adapters/datareaders/pet_user_reader.py:17-50 | one converting row read by a new reader: the intended read gives its fields, the written one raises |
| PetUsersReading.PetUserReader.constructor | pets/adapters/datareaders/pet_user_reader.py:13-14 | the reader starts without users |
| PetUsersReading.PetUserReader.AppendUser | pets/adapters/datareaders/pet_user_reader.py:35-48 | a fresh pet user built from the fields, a dog, is appended |
| PetUsersReading.PetUserReader.AppendRows | pets/adapters/datareaders/pet_user_reader.py:20-48 | the loop appends one fresh user per row up to the first failing row, whose error it reports |
| PetUsersReading.PetUserReader.ReadPetUsers | pets/adapters/datareaders/pet_user_reader.py:17-50 | returns the users exactly when every row reads; the rows before a failing row stay appended and the error is that row's |
| PetUsersReading.PetUserReader.RoutePost | pets/adapters/datareaders/pet_user_reader.py:54-55 | only the user the index names gets the post, through `add_post` |
| PetUsersReading.PetUserReader.AssignPosts | pets/adapters/datareaders/pet_user_reader.py:51-55 | each user's posts become their old posts plus the posts routed to them, each added once |
| MemoryRepo.FirstWithId | pets/adapters/memory_repository.py:67-71 | the position of the first element with the id, or none exactly when no element has it; the search of every lookup by id |
| MemoryRepo.FirstPostAfterAppend | pets/adapters/memory_repository.py:60-71 | appending a post keeps an earlier match, and otherwise finds the new post when its id matches |
| MemoryRepo.FoundAfterAddPost | pets/adapters/memory_repository.py:60-71 | an added post can be looked up by its id |
| MemoryRepo.MemoryRepository.constructor | pets/adapters/memory_repository.py:13-17 | all four lists start empty |
| MemoryRepo.MemoryRepository.AddAnimalUser | pets/adapters/memory_repository.py:19-20 | appends to the animal users only |
| MemoryRepo.MemoryRepository.AddHumanUser | pets/adapters/memory_repository.py:22-23 | appends to the human users only |
| MemoryRepo.MemoryRepository.FindByName | pets/adapters/memory_repository.py:25-35 | the first user with the name, or none exactly when no user has it |
| MemoryRepo.MemoryRepository.GetHumanUserByName | pets/adapters/memory_repository.py:25-29 | the first human user with the name, or none exactly when none has it |
| MemoryRepo.MemoryRepository.GetAnimalUserByName | pets/adapters/memory_repository.py:31-35 | the first animal user with the name, or none exactly when none has it |
| MemoryRepo.MemoryRepository.GetHumanUserById | pets/adapters/memory_repository.py:39-43 | the first human user with the id, or none |
| MemoryRepo.MemoryRepository.GetAnimalUserByIdAsWritten | pets/adapters/memory_repository.py:46-50 | as written, every call raises `AttributeError` for the misspelt list |
| MemoryRepo.MemoryRepository.GetAnimalUserById | pets/adapters/memory_repository.py:46-50 | as intended: the first animal user with the id, or none |
| MemoryRepo.AnimalLookupDiscrepancy | pets/adapters/memory_repository.py:46-50 | the intended lookup finds every stored animal user by its id, where the written one raises for any id |
| MemoryRepo.MemoryRepository.GetAnimalUsers | pets/adapters/memory_repository.py:54-55 | the repository's own list object, so later adds show through it and appends made through it change the store |
| MemoryRepo.MemoryRepository.GetHumanUsers | pets/adapters/memory_repository.py:57-58 | the repository's own list object, so later adds show through it and appends made through it change the store |
| MemoryRepo.UserList.Append | pets/adapters/memory_repository.py:20 | `list.append` on a stored list: one more user at the end |
| MemoryRepo.AppendThroughReturnedList | pets/adapters/memory_repository.py:57-58 | appending to the list `get_human_users` returned appends to the stored human users and leaves the animal users alone |
| MemoryRepo.ReturnedListSeesLaterAdds | pets/adapters/memory_repository.py:19-20 | a list `get_animal_users` returned earlier holds the animal users added afterwards |
| MemoryRepo.MemoryRepository.AddPost | pets/adapters/memory_repository.py:60-61 | appends to the posts only |
| MemoryRepo.MemoryRepository.DeletePost | pets/adapters/memory_repository.py:64-65 | removes the first occurrence; raises `ValueError` and changes nothing exactly when the post is absent |
| MemoryRepo.MemoryRepository.GetPostById | pets/adapters/memory_repository.py:67-71 | the first post with the id, or none |
| MemoryRepo.DeleteUndoesAdd | pets/adapters/memory_repository.py:60-65 | deleting a post just added restores the posts |
| Orm.TagsBind | pets/adapters/orm.py:27-30 | `None` is stored as NULL, any other value as its JSON |
| Orm.TagsResult | pets/adapters/orm.py:32-35 | NULL reads as the empty list, anything else as the stored JSON |
| Orm.TagsRoundTrip | pets/adapters/orm.py:27-35 | tags stored and read back are the same tags; a stored `None` reads as `[]` |
| Orm.ListBind | pets/adapters/orm.py:93-96 | `None` is stored as NULL, any other value as its JSON |
| Orm.ListResult | pets/adapters/orm.py:98-101 | NULL reads as the empty list |
| Orm.ListRoundTrip | pets/adapters/orm.py:93-101 | a list of ids reads back as itself; `None` reads back as `[]` |
| Orm.SizeBind | pets/adapters/orm.py:108-111 | `None` is NULL, an empty size is stored as [0, 0], any other as its list |
| Orm.SizeResult | pets/adapters/orm.py:113-117 | NULL reads as (0, 0); a list reads as its tuple, and a string as the tuple of its characters; null, a boolean or a number raises |
| Orm.SizeRoundTrip | pets/adapters/orm.py:108-117 | (w, h) reads back as (w, h); an empty or missing size reads as (0, 0) |
| Orm.SizeListRoundTrip | pets/adapters/orm.py:108-117 | any non-empty size reads back element by element |
| Orm.AnimalBind | pets/adapters/orm.py:57-64 | a member is stored as its value, a string as itself, `None` as NULL |
| Orm.AnimalResult | pets/adapters/orm.py:66-71 | NULL reads as `None`; a read member is the one whose value was stored; an unknown string raises |
| Orm.AnimalRoundTrip | pets/adapters/orm.py:57-71 | a member, or its value as a string, reads back as the member; an unknown string raises on read |
| Orm.PathBind | pets/adapters/orm.py:78-81 | a path is stored as its text, `None` as NULL |
| Orm.PathResult | pets/adapters/orm.py:83-86 | a stored text reads as its path, NULL as `None` |
| Orm.PathRoundTrip | pets/adapters/orm.py:78-86 | a path reads back as itself; a stored empty text comes back as "." |
| Orm.DateTimeBind | pets/adapters/orm.py:42-45 | a timestamp is stored as its text, `None` as NULL |
| Orm.DateTimeResult | pets/adapters/orm.py:47-50 | a stored text reads as its timestamp, NULL as `None` |
| Orm.DateTimeRoundTrip | pets/adapters/orm.py:42-50 | every timestamp, and `None`, reads back as itself |
| DatabaseRepo.BlankIndexesSound | pets/adapters/database_repository.py:89-95 | every reported index names a user whose username is missing or blank |
| DatabaseRepo.BlankIndexesComplete | pets/adapters/database_repository.py:89-95 | every user with a missing or blank username is reported |
| DatabaseRepo.BlankIndexesIncreasing | pets/adapters/database_repository.py:89-95 | the indexes are reported in increasing order |
| DatabaseRepo.BlankIndexesExact | pets/adapters/database_repository.py:89-95 | the reported indexes are exactly the blank usernames' positions, in order |
| DatabaseRepo.InvalidIndexes | pets/adapters/database_repository.py:89-95 | the loop collects exactly `BlankIndexes` |
| DatabaseRepo.FilterShares | pets/adapters/database_repository.py:296-330 | the rows a query matches and the rows it leaves add up to the table |
| DatabaseRepo.NoHitKeepsAll | pets/adapters/database_repository.py:296-330 | a query that matches nothing leaves the table whole |
| DatabaseRepo.FilterFullLength | pets/adapters/database_repository.py:296-330 | a filter that keeps as many rows as the table keeps them all |
| DatabaseRepo.DeleteOneExact | pets/adapters/database_repository.py:296-330 | a successful `.one()` delete matched at most one row, removed every matching row and kept every other row |
| DatabaseRepo.Thumbnails | pets/adapters/database_repository.py:342-351 | one dictionary per post, holding its id, media path text and media type |
| DatabaseRepo.CommentsOfExact | pets/adapters/database_repository.py:271-287 | a comment is listed for a post exactly when it is stored with that post's id |
| DatabaseRepo.CommentsOfAfterAdd | pets/adapters/database_repository.py:271-287 | a new comment is listed at the end for its own post and for no other |
| DatabaseRepo.ThumbnailsExact | pets/adapters/database_repository.py:332-351 | the thumbnails are photos of that user, and every photo of the user has one |
| DatabaseRepo.MaxCommentId | pets/adapters/database_repository.py:355 | the largest stored comment id, held by some comment |
| DatabaseRepo.NextCommentId | pets/adapters/database_repository.py:353-356 | 1 for an empty table; otherwise one more than the largest id, so above every stored id |
| DatabaseRepo.OwnCommentAtMostOne | pets/adapters/database_repository.py:314-330 | with unique comment ids, the ownership query matches at most one row, so the delete never raises |
| DatabaseRepo.FreshIdKeepsUnique | pets/adapters/database_repository.py:353-374 | a comment created with the next id keeps the comment ids unique |
| DatabaseRepo.SqlRepository.AddPetUsers | pets/adapters/database_repository.py:88-107 | raises, adding nothing, exactly when some username is missing or blank, naming exactly those indexes; otherwise adds every user in order |
| DatabaseRepo.SqlRepository.GetNextCommentId | pets/adapters/database_repository.py:353-356 | the next comment id of the table |
| DatabaseRepo.SqlRepository.CreateComment | pets/adapters/database_repository.py:358-374 | appends and returns a comment with the next id, the post, the author, the given time, the text and no likes; ids stay unique |
| DatabaseRepo.SqlRepository.IsFollowing | pets/adapters/database_repository.py:414-426 | true exactly when the association table holds the edge |
| DatabaseRepo.SqlRepository.FollowUser | pets/adapters/database_repository.py:394-412 | the edge is added once; when it was new, both users' cached lists gain the other, and otherwise nothing changes |
| DatabaseRepo.SqlRepository.DeleteComment | pets/adapters/database_repository.py:314-330 | deletes the comment only when its id and author match, does nothing without a match, and raises on several matches; the comment ids stay unique |
| DatabaseRepo.FilterKeepsUniqueIds | pets/adapters/database_repository.py:314-330 | keeping some of the comments keeps their ids unique |
| DatabaseRepo.SqlRepository.DeleteLike | pets/adapters/database_repository.py:296-312 | deletes the like of that user on that post, does nothing without one, and raises on several |
| DatabaseRepo.SqlRepository.GetCommentsByPost | pets/adapters/database_repository.py:271-278 | the comments stored for the post's id, in table order |
| DatabaseRepo.SqlRepository.GetCommentsForPost | pets/adapters/database_repository.py:280-287 | the comments stored for the id, in table order |
| DatabaseRepo.SqlRepository.GetPhotoPosts | pets/adapters/database_repository.py:142-151 | the posts whose media type is "photo" |
| DatabaseRepo.SqlRepository.GetPostsThumbnails | pets/adapters/database_repository.py:332-351 | the thumbnails of the user's photo posts |
| DatabaseRepo.PhotoPostsExact | pets/adapters/database_repository.py:142-151 | a post is listed exactly when it is stored and is a photo |
| DatabaseRepo.FollowIdempotent | pets/adapters/database_repository.py:394-412 | following twice leaves the same edges as once, the edge is present, and no edge is ever duplicated |
| DatabaseRepo.CreatedCommentListed | pets/adapters/database_repository.py:271-287 | a created comment is listed last for its post |
| AuthServices.FindByName | pets/blueprints/authentication/services.py:28 | the pet user with the name, or none exactly when nobody has it |
| AuthServices.FindById | pets/blueprints/authentication/services.py:60 | the pet user with the id, or none exactly when nobody has it |
| AuthServices.UserToDict | pets/blueprints/authentication/services.py:66-73 | exactly the four keys, holding the email, the username and the password hash |
| AuthServices.UserIdReadsBack | pets/blueprints/authentication/services.py:68 | the id stored as text reads back through `int()` as the user's id |
| AuthServices.AddUserAsWritten | pets/blueprints/authentication/services.py:22-37 | as written, `add_user` always raises: `AttributeError` exactly when the name is taken, since printing the found user reads its missing `user_id`; otherwise the `User` call raises for missing arguments |
| AuthServices.AddUserAsWrittenRejectsFreshName | pets/blueprints/authentication/services.py:35 | a fresh name on an empty store fails as written |
| AuthServices.AddUserAsWrittenTakenName | pets/blueprints/authentication/services.py:28-32 | a taken name fails as written with `AttributeError`, not `NameNotUniqueException` |
| AuthServices.UserStore.TotalUserSize | pets/adapters/database_repository.py:172-219 | the count of pet users plus the count of `users` rows, so each pet user, who also has a `users` row (orm.py:139, 208), counts at least twice |
| AuthServices.AddUser | pets/blueprints/authentication/services.py:22-37 | as intended: a taken name raises and changes nothing; otherwise one account is appended with the user total as its id, the name, the email and the hashed password, it adds a `users` row, and the total grows by two |
| AuthServices.RegisterTwo | pets/blueprints/authentication/services.py:30-37 | two registrations on an empty store give ids 0 and 2 |
| AuthServices.GetUser | pets/blueprints/authentication/services.py:40-47 | raises `UnknownUserException` exactly when nobody has the name; otherwise the dictionary of the user the lookup by name returns |
| AuthServices.AuthenticateUser | pets/blueprints/authentication/services.py:50-56 | passes exactly when the user exists and the hash check accepts the password; otherwise raises `AuthenticationException` |
| AuthServices.GetUserById | pets/blueprints/authentication/services.py:59-63 | raises exactly when nobody has the id; otherwise the dictionary of the user the lookup by id returns, whose id reads back |
| AuthServices.FindAfterAppend | pets/blueprints/authentication/services.py:28-37 | registering someone keeps every earlier lookup and makes the new name findable |
| AuthServices.RegisterThenAuthenticate | pets/blueprints/authentication/services.py:22-56 | after a registration the new user can log in with their password, and other users are found as before |
| Upload.Extension | pets/blueprints/upload/upload.py:22 | the lower-cased text after the last dot, and none exactly when there is no dot |
| Upload.ExtensionOfName | pets/blueprints/upload/upload.py:22 | the extension of "stem.ext" is ext lower-cased, whatever dots the stem holds |
| Upload.AllowedFileOfName | pets/blueprints/upload/upload.py:18-22 | "stem.ext" is accepted exactly when ext, in any case, is one of the seven; a name without a dot never is |
| Upload.MediaType | pets/blueprints/upload/upload.py:174-176 | "photo" exactly for the four image extensions, "video" for any other |
| Upload.FinalFilename | pets/blueprints/upload/upload.py:124 | the url after its last slash, which holds no slash |
| Upload.ResizeBox | pets/blueprints/upload/upload.py:72-75 | one of the two UHD boxes, landscape exactly when the photo is not portrait |
| Upload.TagList | pets/blueprints/upload/upload.py:172 | at most one tag per piece, each non-empty with no whitespace at either end |
| Upload.TagListAvoids | pets/blueprints/upload/upload.py:172 | trimming introduces no character the pieces avoid |
| Upload.UploadTagsClean | pets/blueprints/upload/upload.py:172 | every tag read from the form is non-empty, comma-free and trimmed |
| Upload.TagListOfClean | pets/blueprints/upload/upload.py:172 | clean tags pass through unchanged |
| Upload.UploadTagsOfJoin | pets/blueprints/upload/upload.py:172 | clean tags joined with commas read back as the same tags |
| Upload.LowerKeepsDotOut | pets/blueprints/upload/upload.py:50 | lower-casing adds no dot |
| Upload.ExtensionIsLower | pets/blueprints/upload/upload.py:50 | an extension holds no dot and is already lower-case |
| Upload.PreviewedMediaType | pets/blueprints/upload/upload.py:49-63 | the preview file is finalised as a photo exactly when the preview took the image branch |
| Upload.VideoExtensions | pets/blueprints/upload/upload.py:18 | the accepted extensions that are not photos are mp4, mov and avi |
| Upload.PreviewUrlAccepted | pets/blueprints/upload/upload.py:102-124 | the preview url passes the same user's finalise check and names the preview file |
| ProfilePictures.AllowedFileIsImage | pets/blueprints/user/services.py:9-14 | a picture accepted for a profile is accepted by the upload and posted as a photo |
| ProfilePictures.VideoRefused | pets/blueprints/user/services.py:9-14 | a video upload is never a profile picture |
| ProfilePictures.Prefix | pets/blueprints/user/services.py:25 | the prefix starts with "user_" and ends with "_" |
| ProfilePictures.PrefixChars | pets/blueprints/user/services.py:25 | the id's digits sit right after "user_", followed by "_" |
| ProfilePictures.PrefixesApart | pets/blueprints/user/services.py:23-26 | no picture of another user starts with this user's prefix, so the clean-up never removes someone else's picture |
| ProfilePictures.RemoveStep | pets/blueprints/user/services.py:24-26 | one step of the clean-up keeps the kept files in front of the unvisited ones |
| ProfilePictures.PictureFolder.constructor | pets/blueprints/user/services.py:21-22 | the folder holds the given names |
| ProfilePictures.PictureFolder.RemovePictures | pets/blueprints/user/services.py:23-26 | every file with the prefix is removed; the others stay in order |
| ProfilePictures.PictureFolder.SaveFile | pets/blueprints/user/services.py:16-38 | nothing changes for a missing or non-image upload; otherwise the user's old pictures go, the upload is saved under the prefix, and the profile path points at it |
| ProfilePictures.OnePictureAfterSave | pets/blueprints/user/services.py:16-38 | after a save the folder holds exactly one picture of the user, the new one, and every other file |
| TimeAgo.Classify | pets/utilities/timeago.py:22-33 | "Just now" exactly under a minute, then whole minutes 1-59, hours 1-23, days 1-6, each the floor of the elapsed time, then the date |
| TimeAgo.ClassifyMonotone | pets/utilities/timeago.py:22-33 | more elapsed time never gives an earlier bucket nor a smaller count in the same bucket |
| TimeAgo.Pad2 | pets/utilities/timeago.py:33 | a two-digit field that reads back as its number |
| TimeAgo.ClassifyWellFormed | pets/utilities/timeago.py:22-33 | every bucket has its count in range |
| TimeAgo.RenderLast | pets/utilities/timeago.py:22-33 | each text ends with its unit letter, or with a digit for a date |
| TimeAgo.CountText | pets/utilities/timeago.py:26-32 | a count with its unit gives the count back |
| TimeAgo.Pad2Injective | pets/utilities/timeago.py:33 | two-digit fields are distinct for distinct numbers |
| TimeAgo.DateSlices | pets/utilities/timeago.py:33 | the date text is day, month and year, two digits each, between slashes |
| TimeAgo.DateText | pets/utilities/timeago.py:33 | a date text gives back its day, month and year |
| TimeAgo.RenderDeterminesBucket | pets/utilities/timeago.py:22-33 | no two buckets the filter can give are shown alike |
| TimeAgo.RemoveZ | pets/utilities/timeago.py:9 | the text with every Z removed |
| TimeAgo.TimeAgo | pets/utilities/timeago.py:4-33 | an unparsable string comes back as it was, a non-date value as its text, and a moment as the text of its elapsed bucket |
| TimeAgo.TrailingZIgnored | pets/utilities/timeago.py:9 | a trailing Z does not change the result |
| TimeAgo.StringAndMomentAgree | pets/utilities/timeago.py:6-13 | a string and the moment it names are shown alike |
| CommentsView.EscapeConcat | pets/static/js/feed/comments.js:26-28 | escaping a concatenation escapes each part |
| CommentsView.EscapeClean | pets/static/js/feed/comments.js:26-28 | text without special characters is its own escape |
| CommentsView.EscapeNoRaw | pets/static/js/feed/comments.js:26-28 | escaped text holds no raw <, >, double or single quote |
| CommentsView.EntityAt | pets/static/js/feed/comments.js:27 | a recognised entity is 4 to 6 characters long and lies within the text |
| CommentsView.EntityOfEscape | pets/static/js/feed/comments.js:27 | the escape of a special character starts with its entity, and a plain one with none |
| CommentsView.UnescapeStep | pets/static/js/feed/comments.js:27 | reading back one escaped character and then the rest |
| CommentsView.UnescapeEscape | pets/static/js/feed/comments.js:26-28 | escaping loses nothing: the entities read back as the original text |
| CommentsView.Or | pets/static/js/feed/comments.js:60-61 | `a or b` is a when a is truthy, else b |
| CommentsView.Defaults | pets/static/js/feed/comments.js:59-64 | the author is the given one when truthy, else "Anonymous"; the text is `text` when truthy, else `comment_string` when truthy, else empty; likes count only when a number |
| CommentsView.DefaultsIdempotent | pets/static/js/feed/comments.js:59-64 | a comment shown and sent back as shown is shown the same |
| CommentsView.AvatarLetter | pets/static/js/feed/comments.js:55 | "?" for an empty name, else the first character upper-cased |
| CommentsView.AvatarOfShownAuthor | pets/static/js/feed/comments.js:55-68 | a shown author is never empty, so its avatar is its first letter upper-cased |
| CommentsView.RenderEmpty | pets/static/js/feed/comments.js:46-49 | the placeholder holds the message escaped, which reads back as the message |
| CommentsView.ShowAll | pets/static/js/feed/comments.js:83 | one view per comment, in order, each with its defaults |
| CommentsView.RenderComments | pets/static/js/feed/comments.js:80-84 | the placeholder exactly for no comments, otherwise one item per comment |
| CommentsView.EmptyListPlaceholder | pets/static/js/feed/comments.js:46-49 | the default placeholder reads "No comments." |
| CommentsView.Utf16Length | pets/static/js/feed/comments.js:187 | a string's JavaScript length lies between its character count and twice it |
| CommentsView.Submit | pets/static/js/feed/comments.js:176-190 | without a post: a warning; an empty trimmed text or one over 500 units: an error; otherwise the trimmed text is sent |
| CommentsView.SentTextClean | pets/static/js/feed/comments.js:176-190 | a sent text is 1 to 500 characters with no whitespace at either end, and sending it again sends it unchanged |
| Backgrounds.LoaderMatchesWriter | pets/static/js/splash/background-loader.js:2-8 | the loader knows exactly the sizes the generator writes, in the same order, the largest last |
| Backgrounds.Insert | pets/static/js/splash/background-loader.js:14 | insertion keeps the multiset and puts the smaller area first |
| Backgrounds.SortByArea | pets/static/js/splash/background-loader.js:14 | the sort by area is a permutation |
| Backgrounds.HeadAfterSkip | pets/static/js/splash/background-loader.js:13-14 | a leading size that does not cover the screen does not change the choice |
| Backgrounds.HeadOnlyFit | pets/static/js/splash/background-loader.js:13-14 | the one covering size is chosen |
| Backgrounds.SortedWithFirst | pets/static/js/splash/background-loader.js:13-14 | a covering first size is inserted into the sorted rest |
| Backgrounds.HeadIsFirst | pets/static/js/splash/background-loader.js:13-14 | a covering first size no larger than the rest's choice is chosen |
| Backgrounds.HeadStays | pets/static/js/splash/background-loader.js:13-14 | a larger covering first size leaves the rest's choice |
| Backgrounds.BestAtShift | pets/static/js/splash/background-loader.js:13-14 | the smallest covering size of the rest stays smallest when the first size is larger or does not cover |
| Backgrounds.SortedHead | pets/static/js/splash/background-loader.js:12-14 | when some size covers the screen, the head of the sorted covering sizes is the first smallest of them |
| Backgrounds.PickSize | pets/static/js/splash/background-loader.js:10-16 | the chosen size is one the loader knows |
| Backgrounds.PickSizeBestFit | pets/static/js/splash/background-loader.js:10-16 | the smallest-area size covering the screen, the first such in table order; the largest size when none covers |
| Backgrounds.WrittenImages | pets/utilities/create_backgrounds.py:40-85 | a light and a dark image per size, in table order |
| Backgrounds.LeadingSlash | pets/static/js/splash/background-loader.js:32 | the url is "/" followed by the written path |
| Backgrounds.UrlOfWrittenSize | pets/static/js/splash/background-loader.js:32 | the url of a size is "/" and the file the generator writes for it |
| Backgrounds.WrittenInBothThemes | pets/utilities/create_backgrounds.py:69-85 | every size is written in both themes |
| Backgrounds.UrlNamesWrittenFile | pets/static/js/splash/background-loader.js:18-32 | the url the loader asks for names a file the generator writes, whatever the screen and theme |
| Text.ParseIntOfString | pets/adapters/datareaders/posts_reader.py:25 | `int(str(n))` is n for every integer |
| Text.JoinSplit | pets/adapters/datareaders/posts_reader.py:31 | joining the pieces of a split with the separator gives the text back |
| Text.SplitJoin | pets/adapters/datareaders/posts_reader.py:31 | splitting pieces joined with a separator they avoid gives the pieces back |
| Text.TrimEmptyIffBlank | pets/adapters/database_repository.py:93 | `strip()` gives "" exactly for all-whitespace text |
| Text.LowerIdempotent | pets/blueprints/upload/upload.py:22 | lower-casing twice is lower-casing once |
| Text.AfterLast | pets/blueprints/upload/upload.py:124 | the text after the last occurrence of the character, or the whole text without one; never holds the character |
| Text.ParseInts | pets/adapters/datareaders/pet_user_reader.py:30-33 | every piece parses exactly when the list does, value k coming from piece k |
| Text.ParseIntsOfStrings | pets/adapters/datareaders/pet_user_reader.py:30-33 | the texts of any integers parse back as those integers |
| Text.SplitPiecesAvoid | pets/blueprints/upload/upload.py:172 | no piece of a split on a character holds that character |
| Text.TrimmedEnds | pets/blueprints/upload/upload.py:172 | `strip()` leaves no whitespace at either end |
| Text.IntToStringInjective | pets/blueprints/user/services.py:25 | distinct integers have distinct texts |
| Common.MakePath | pets/domainmodel/User.py:41-43 | `Path(s)` keeps a non-empty text and turns the empty one into "." |

## Left out

- Flask routes, sessions, request parsing, JSON responses and templates are not modelled. The upload and profile rules are modelled as functions, and the routes around them are left out.
- File I/O is not modelled. That covers CSV files, `os.listdir`, `os.remove`, `file.save` and PIL images (opening, `thumbnail`, saving and cropping). A folder is modelled as its list of names, in listing order.
- Parameters stand in for the current time, `uuid`, the password hash and check, `secure_filename` and the date parser.
- `url_for` is modelled only as the static url it builds.
- JSON `dumps`/`loads` is not modelled. The ORM's stored JSON is a structured value, and the two are taken to be inverses. `Json` has no objects and no floats: `tuple(json.loads(...))` of a stored object gives its keys, and of a float it raises, and neither case is modelled.
- The database session, commits, rollbacks and SQLAlchemy mappings are not modelled. Each repository call either completes or leaves its tables as they were.
- The repository's mapped-object methods are not modelled: `get_pet_user_by_*`, `add_post`, `delete_post`, `get_post_by_id` and the other plain session calls.
- DatabaseRepo: `add_like_to_comment` (database_repository.py:376-389) is not modelled. It calls `Comment.add_like()` with no argument, which needs one.
- MemoryRepo: `add_comment` and `delete_comment` (memory_repository.py:73-77) are not modelled. One only reads a missing attribute; the other is not implemented.
- Floating point is not modelled. `timeago` works on whole elapsed seconds, which give the same floor counts. The browser's `devicePixelRatio` rounding is not modelled; `PickSize` takes the rounded width and height.
- TimeAgo.TimeAgo: time-zone normalisation and `utcnow` are outside the model. A moment is given as its instant in UTC seconds, and `now` is a parameter.
- The comments panel's own relative-time helper (comments.js:10-24) is not modelled.
- Loading, liking and posting comments over the network are not modelled, and neither is the DOM.
- Text.Lower: only ASCII letters change case, and Python's `str.lower()` also maps other letters.
- Text.ParseInt: only ASCII digits are accepted, and Python's `int()` also accepts other Unicode digits.
- `Path` normalisation: only the empty path becoming "." is modelled.
- Timestamps are kept as their text, and `datetime` parsing and `isoformat` are not modelled.
- PetUsersReading.PetUserReader.ReadPetUsers: it models the read without the debug print at pet_user_reader.py:49. As written that print raises; `ReadPetUsersAsWritten` models the read with it (see Findings).
- ProfilePictures.PictureFolder.SaveFile: the prefix uses the user's `id`, where the source writes `user.user_id` (user/services.py:25, 30). As written both reads raise `AttributeError`, and that failure is not modelled. The save is assumed to succeed, where the source sets the path only when the file exists (line 33). The path is kept as a `Path` of the url text.
- DatabaseRepo.SqlRepository.DeleteComment, DatabaseRepo.SqlRepository.DeleteLike, DatabaseRepo.SqlRepository.CreateComment and DatabaseRepo.SqlRepository.FollowUser take the author's id as the `id` the domain model gives users, where the source reads `user.user_id` (database_repository.py:303, 322, 366, 399, 405 and 412). As written each of these calls raises `AttributeError` there, and that failure is not modelled.
- AuthServices.UserToDict: the dictionary's keys are an enumeration, spelt out by `KeyText`.
- DomainModel.Comment.constructor: it takes a post id. Comment.py declares the field (line 9) and every reader of comments uses it, but the constructor (lines 14-26) lacks the argument. DatabaseRepo.SqlRepository.CreateComment likewise builds its comment with a post id. As written, the `Comment(post_id=…)` call at database_repository.py:362-369 would raise `TypeError` for the unknown keyword, once its argument `user.user_id` (line 366) stopped raising `AttributeError`; neither failure is modelled.
- The glue that wires the readers to the repository is not modelled.
- CommentsView.AvatarLetter: only ASCII letters are upper-cased, and JavaScript's `toUpperCase()` also maps other letters ("é" becomes "É"). The model also returns one whole character, where `charAt(0)` returns one UTF-16 code unit (a lone surrogate for an emoji) and `toUpperCase()` can return two characters ("ß" becomes "SS").
- Lists handed over by reference are modelled as values, except the memory repository's user lists. The model does not capture that a caller and an object share one list. This affects the lists the domain constructors keep from their callers: DomainModel.Post.constructor, DomainModel.Comment.constructor, DomainModel.User.constructor, DomainModel.PetUser.constructor and DomainModel.HumanUser.constructor. It also affects the list the readers' `posts` and `users` properties return, and PetUsersReading.PetUserReader.ReadPetUsers and PostsReading.PostsReader.ReadPosts, which return the reader's own list.
- Debug output is not modelled: `print` at PetUser.py:81 and 84, database_repository.py:290 and 425, services.py:36 and the script block at pet_user_reader.py:63-66, and the `console` messages of comments.js. Only the prints that raise change behaviour: pet_user_reader.py:49 and services.py:29, both modelled as written (see Findings). The one at database_repository.py:290 sits in `add_like`, which is not modelled.

## Findings

| source | as written | input that shows it | evidently intended | confidence | as-written member | corrected member |
|---|---|---|---|---|---|---|
| pets/adapters/memory_repository.py:46-50 | the loop reads `self.__animals_users`, which is never set | any call, e.g. one animal user stored and looked up by its id | search `self.__animal_users` | high, not executed | MemoryRepo.MemoryRepository.GetAnimalUserByIdAsWritten | MemoryRepo.MemoryRepository.GetAnimalUserById, MemoryRepo.AnimalLookupDiscrepancy |
| pets/blueprints/authentication/services.py:28-37 | a taken name is printed first (line 29), and `PetUser.__str__` reads the missing `user_id`, so `AttributeError` is raised instead of `NameNotUniqueException`; a free name calls `User(id, user_name, email, password_hash)` with four of the six required arguments | an empty store and the name "rex"; a store holding "rex" and the name "rex" | refuse a taken name with `NameNotUniqueException`; create a `PetUser` (with picture path and creation time), then add it | high, not executed | AuthServices.AddUserAsWritten, AuthServices.AddUserAsWrittenRejectsFreshName, AuthServices.AddUserAsWrittenTakenName | AuthServices.AddUser, AuthServices.RegisterThenAuthenticate |
| pets/adapters/datareaders/pet_user_reader.py:49-55 | users have only `id` (User.py:50-52), yet the print after the loop (line 49) calls `str(user)`, which reads `self.user_id` (PetUser.py:58), and `assign_posts` keys its index by `user.user_id` (line 52) | a new reader given one row that converts; one pet user with one post of theirs | read and key users by `user.id` | high, not executed | PetUsersReading.ReadPetUsersAsWritten, PetUsersReading.ReadPetUsersDiscrepancy, PetUsersReading.AssignPostsAsWritten, PetUsersReading.AssignPostsDiscrepancy | PetUsersReading.PetUserReader.ReadPetUsers, PetUsersReading.PetUserReader.AssignPosts, PetUsersReading.AssignedPostsAreOwn |

