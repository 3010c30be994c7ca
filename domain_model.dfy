/** The domain entities: comments, users (with their pet and human
    variants), and posts. Their list fields are updated in place; every list
    mutation is stated through the functions of `Lists` and `Likes`, whose
    lemmas carry the idempotence, duplicate-freedom and undo properties. */
module DomainModel {
  import opened Common
  import opened Lists
  import opened Likes
  import opened Animals

  /** A comment on a post. It also records the post it belongs to, which
      every reader of comments relies on. */
  class Comment {
    const id: int
    const userId: int
    const postId: int
    const createdAt: Timestamp
    var commentString: string
    var likes: seq<Like>

    constructor(id: int, userId: int, postId: int, createdAt: Timestamp,
                commentString: string, likes: seq<Like>)
      ensures this.id == id && this.userId == userId && this.postId == postId
      ensures this.createdAt == createdAt
      ensures this.commentString == commentString && this.likes == likes
    {
      this.id := id;
      this.userId := userId;
      this.postId := postId;
      this.createdAt := createdAt;
      this.commentString := commentString;
      this.likes := likes;
    }

    /** The `comment_string` setter: replaces the text, nothing else. */
    method SetCommentString(value: string)
      modifies this`commentString
      ensures commentString == value
    {
      commentString := value;
    }

    /** `add_like`: always appends, even a like already present. */
    method AddLike(like: Like)
      modifies this`likes
      ensures likes == old(likes) + [like]
      ensures |likes| == |old(likes)| + 1
    {
      likes := likes + [like];
    }
  }

  /** The fields and behaviour common to every kind of user. */
  class User {
    const id: int
    var username: string
    var email: string
    var passwordHash: string
    var profilePicturePath: Path
    const createdAt: Timestamp
    var likedPosts: seq<Post>
    var following: seq<User>
    var comments: seq<Comment>
    var bio: string

    /** `None` for a list argument means an empty list, and `None` for the
        picture path means the empty path. */
    constructor(id: int, username: string, email: string, passwordHash: string,
                profilePicturePath: Option<Path>, createdAt: Timestamp,
                likedPosts: Option<seq<Post>>, following: Option<seq<User>>,
                comments: Option<seq<Comment>>, bio: string)
      ensures this.id == id && this.username == username && this.email == email
      ensures this.passwordHash == passwordHash && this.createdAt == createdAt
      ensures this.profilePicturePath
           == (if profilePicturePath.Some? then profilePicturePath.value else MakePath(""))
      ensures this.likedPosts == (if likedPosts.Some? then likedPosts.value else [])
      ensures this.following == (if following.Some? then following.value else [])
      ensures this.comments == (if comments.Some? then comments.value else [])
      ensures this.bio == bio
    {
      this.id := id;
      this.username := username;
      this.email := email;
      this.passwordHash := passwordHash;
      this.profilePicturePath :=
        if profilePicturePath.Some? then profilePicturePath.value else MakePath("");
      this.createdAt := createdAt;
      this.likedPosts := if likedPosts.Some? then likedPosts.value else [];
      this.following := if following.Some? then following.value else [];
      this.comments := if comments.Some? then comments.value else [];
      this.bio := bio;
    }

    method SetUsername(value: string)
      modifies this`username
      ensures username == value
    {
      username := value;
    }

    method SetEmail(value: string)
      modifies this`email
      ensures email == value
    {
      email := value;
    }

    method SetPasswordHash(value: string)
      modifies this`passwordHash
      ensures passwordHash == value
    {
      passwordHash := value;
    }

    method SetProfilePicturePath(value: Path)
      modifies this`profilePicturePath
      ensures profilePicturePath == value
    {
      profilePicturePath := value;
    }

    method SetBio(value: string)
      modifies this`bio
      ensures bio == value
    {
      bio := value;
    }

    /** `like_post`: records the post unless it is already recorded. */
    method LikePost(post: Post)
      modifies this`likedPosts
      ensures likedPosts == Added(old(likedPosts), post)
    {
      if post !in likedPosts {
        likedPosts := likedPosts + [post];
      }
    }

    /** `follow`: records the user unless already followed. */
    method Follow(user: User)
      modifies this`following
      ensures following == Added(old(following), user)
    {
      if user !in following {
        following := following + [user];
      }
    }

    /** `add_comment`: always appends, even a comment already recorded. */
    method AddComment(comment: Comment)
      modifies this`comments
      ensures comments == old(comments) + [comment]
    {
      comments := comments + [comment];
    }
  }

  /** A pet's account: a user with posts, an animal type and follower ids. */
  class PetUser {
    const user: User
    var posts: seq<Post>
    const animalType: Option<AnimalType>
    var followerIds: seq<int>

    /** A missing creation time is the current time, passed in as `now`;
        missing lists are empty. */
    constructor(id: int, username: string, email: string, passwordHash: string,
                profilePicturePath: Option<Path>, createdAt: Option<Timestamp>, now: Timestamp,
                likedPosts: Option<seq<Post>>, following: Option<seq<User>>,
                comments: Option<seq<Comment>>, bio: string,
                posts: Option<seq<Post>>, animalType: Option<AnimalType>,
                followerIds: Option<seq<int>>)
      ensures fresh(user)
      ensures user.id == id && user.username == username && user.email == email
      ensures user.passwordHash == passwordHash
      ensures user.createdAt == (if createdAt.Some? then createdAt.value else now)
      ensures user.profilePicturePath
           == (if profilePicturePath.Some? then profilePicturePath.value else MakePath(""))
      ensures user.likedPosts == (if likedPosts.Some? then likedPosts.value else [])
      ensures user.following == (if following.Some? then following.value else [])
      ensures user.comments == (if comments.Some? then comments.value else [])
      ensures user.bio == bio
      ensures this.posts == (if posts.Some? then posts.value else [])
      ensures this.animalType == animalType
      ensures this.followerIds == (if followerIds.Some? then followerIds.value else [])
    {
      var created := if createdAt.Some? then createdAt.value else now;
      user := new User(id, username, email, passwordHash, profilePicturePath, created,
                       likedPosts, following, comments, bio);
      this.posts := if posts.Some? then posts.value else [];
      this.animalType := animalType;
      this.followerIds := if followerIds.Some? then followerIds.value else [];
    }

    /** `add_post`: adds a post that is not yet listed; anything that is not
        a post is ignored. */
    method AddPost(post: Arg<Post>)
      modifies this`posts
      ensures post.Typed? ==> posts == Added(old(posts), post.value)
      ensures post.Untyped? ==> posts == old(posts)
    {
      if post.Typed? && post.value !in posts {
        posts := posts + [post.value];
      }
    }

    /** `delete_post`: removes a listed post; otherwise nothing changes. */
    method DeletePost(post: Arg<Post>)
      modifies this`posts
      ensures post.Typed? ==> posts == Removed(old(posts), post.value)
      ensures post.Untyped? ==> posts == old(posts)
    {
      if post.Typed? && post.value in posts {
        posts := Removed(posts, post.value);
      }
    }

    /** `add_follower`: adds an integer id that is not yet listed. */
    method AddFollower(followerId: Arg<int>)
      modifies this`followerIds
      ensures followerId.Typed? ==> followerIds == Added(old(followerIds), followerId.value)
      ensures followerId.Untyped? ==> followerIds == old(followerIds)
    {
      if followerId.Typed? && followerId.value !in followerIds {
        followerIds := followerIds + [followerId.value];
      }
    }

    /** `remove_follower`: removes a listed id; otherwise nothing changes. */
    method RemoveFollower(followerId: int)
      modifies this`followerIds
      ensures followerIds == Removed(old(followerIds), followerId)
    {
      if followerId in followerIds {
        followerIds := Removed(followerIds, followerId);
      }
    }
  }

  /** A person's account: a user with favourite animals and friends. */
  class HumanUser {
    const user: User
    var favouriteAnimals: seq<AnimalType>
    var friends: seq<User>

    /** Whatever is passed for `friends`, the friend list starts empty. */
    constructor(id: int, username: string, email: string, passwordHash: string,
                profilePicturePath: Option<Path>, createdAt: Timestamp,
                likedPosts: Option<seq<Post>>, following: Option<seq<User>>,
                comments: Option<seq<Comment>>, bio: string,
                favouriteAnimals: Option<seq<AnimalType>>, friends: Option<seq<User>>)
      ensures fresh(user)
      ensures user.id == id && user.username == username && user.email == email
      ensures user.passwordHash == passwordHash && user.createdAt == createdAt
      ensures user.profilePicturePath
           == (if profilePicturePath.Some? then profilePicturePath.value else MakePath(""))
      ensures user.likedPosts == (if likedPosts.Some? then likedPosts.value else [])
      ensures user.following == (if following.Some? then following.value else [])
      ensures user.comments == (if comments.Some? then comments.value else [])
      ensures user.bio == bio
      ensures this.favouriteAnimals
           == (if favouriteAnimals.Some? then favouriteAnimals.value else [])
      ensures this.friends == []
    {
      user := new User(id, username, email, passwordHash, profilePicturePath, createdAt,
                       likedPosts, following, comments, bio);
      this.favouriteAnimals := if favouriteAnimals.Some? then favouriteAnimals.value else [];
      this.friends := [];
    }

    /** `add_favourite_animal`: adds an animal type not yet listed; anything
        else is ignored. */
    method AddFavouriteAnimal(animal: Arg<AnimalType>)
      modifies this`favouriteAnimals
      ensures animal.Typed? ==> favouriteAnimals == Added(old(favouriteAnimals), animal.value)
      ensures animal.Untyped? ==> favouriteAnimals == old(favouriteAnimals)
    {
      if animal.Typed? && animal.value !in favouriteAnimals {
        favouriteAnimals := favouriteAnimals + [animal.value];
      }
    }

    /** `remove_favourite_animal`: removes a listed animal type. */
    method RemoveFavouriteAnimal(animal: Arg<AnimalType>)
      modifies this`favouriteAnimals
      ensures animal.Typed? ==> favouriteAnimals == Removed(old(favouriteAnimals), animal.value)
      ensures animal.Untyped? ==> favouriteAnimals == old(favouriteAnimals)
    {
      if animal.Typed? && animal.value in favouriteAnimals {
        favouriteAnimals := Removed(favouriteAnimals, animal.value);
      }
    }

    /** `add_friend`: adds a user not yet listed; anything that is not a
        user is ignored. */
    method AddFriend(friend: Arg<User>)
      modifies this`friends
      ensures friend.Typed? ==> friends == Added(old(friends), friend.value)
      ensures friend.Untyped? ==> friends == old(friends)
    {
      if friend.Typed? && friend.value !in friends {
        friends := friends + [friend.value];
      }
    }

    /** `remove_friend`: removes a listed user; otherwise nothing changes. */
    method RemoveFriend(friend: Arg<User>)
      modifies this`friends
      ensures friend.Typed? ==> friends == Removed(old(friends), friend.value)
      ensures friend.Untyped? ==> friends == old(friends)
    {
      if friend.Typed? && friend.value in friends {
        friends := Removed(friends, friend.value);
      }
    }
  }

  /** A post by a pet user. */
  class Post {
    const id: int
    const userId: int
    var likes: seq<Like>
    var comments: seq<Comment>
    const caption: string
    var views: int
    const createdAt: Timestamp
    const size: seq<int>
    var tags: seq<string>
    var usersTagged: seq<User>
    const mediaPath: Path
    const mediaType: string

    /** Missing comment and like lists are empty. */
    constructor(id: int, userId: int, caption: string, views: int, createdAt: Timestamp,
                size: seq<int>, tags: seq<string>, usersTagged: seq<User>,
                mediaPath: Path, mediaType: string,
                comments: Option<seq<Comment>>, likes: Option<seq<Like>>)
      ensures this.id == id && this.userId == userId && this.caption == caption
      ensures this.views == views && this.createdAt == createdAt && this.size == size
      ensures this.tags == tags && this.usersTagged == usersTagged
      ensures this.mediaPath == mediaPath && this.mediaType == mediaType
      ensures this.comments == (if comments.Some? then comments.value else [])
      ensures this.likes == (if likes.Some? then likes.value else [])
    {
      this.id := id;
      this.userId := userId;
      this.likes := if likes.Some? then likes.value else [];
      this.comments := if comments.Some? then comments.value else [];
      this.caption := caption;
      this.views := views;
      this.createdAt := createdAt;
      this.size := size;
      this.tags := tags;
      this.usersTagged := usersTagged;
      this.mediaPath := mediaPath;
      this.mediaType := mediaType;
    }

    /** `add_like`: appends the like unless an equal like is present. */
    method AddLike(like: Like)
      modifies this`likes
      ensures likes == WithLike(old(likes), like)
    {
      if !HasLike(likes, like) {
        likes := likes + [like];
      }
    }

    /** `remove_like`: removes the first equal like, if there is one. */
    method RemoveLike(like: Like)
      modifies this`likes
      ensures likes == WithoutLike(old(likes), like)
    {
      if HasLike(likes, like) {
        likes := WithoutLike(likes, like);
      }
    }

    /** `add_comment`: appends the comment unless it is already listed. */
    method AddComment(comment: Comment)
      modifies this`comments
      ensures comments == Added(old(comments), comment)
    {
      if comment !in comments {
        comments := comments + [comment];
      }
    }

    /** `remove_comment`: removes a listed comment. */
    method RemoveComment(comment: Comment)
      modifies this`comments
      ensures comments == Removed(old(comments), comment)
    {
      if comment in comments {
        comments := Removed(comments, comment);
      }
    }

    /** `increment_views`: one more view, nothing else changes. */
    method IncrementViews()
      modifies this`views
      ensures views == old(views) + 1
    {
      views := views + 1;
    }

    /** `add_tag`: appends a tag not yet listed. */
    method AddTag(tag: string)
      modifies this`tags
      ensures tags == Added(old(tags), tag)
    {
      if tag !in tags {
        tags := tags + [tag];
      }
    }

    /** `remove_tag`: removes a listed tag. */
    method RemoveTag(tag: string)
      modifies this`tags
      ensures tags == Removed(old(tags), tag)
    {
      if tag in tags {
        tags := Removed(tags, tag);
      }
    }

    /** `tag_user`: tags a user not yet tagged. */
    method TagUser(user: User)
      modifies this`usersTagged
      ensures usersTagged == Added(old(usersTagged), user)
    {
      if user !in usersTagged {
        usersTagged := usersTagged + [user];
      }
    }

    /** `untag_user`: removes a tagged user. */
    method UntagUser(user: User)
      modifies this`usersTagged
      ensures usersTagged == Removed(old(usersTagged), user)
    {
      if user in usersTagged {
        usersTagged := Removed(usersTagged, user);
      }
    }
  }
}
