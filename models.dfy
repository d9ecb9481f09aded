/** The persistent entities the controllers read and write, and the database that holds
    them as in-memory tables. Identifiers (UUIDs in the application) are natural numbers;
    the database hands out fresh ones from a counter when a row is saved. */
module Models {
  import opened Wrappers
  import opened Sequences
  import AppConstants

  type Id = nat

  /** The user roles that the controllers name. */
  datatype UserType = Admin | Dean | CfdPresident | Teacher | Candidate

  datatype User = User(
    id: Id,
    firstName: string,
    lastName: string,
    email: string,
    passwordHash: string,
    userType: UserType)

  /** One candidate's examination paper for one module, with up to three teachers
      and up to three marks. */
  datatype Copy = Copy(
    id: Id,
    candidate: Id,
    subject: Id,
    mark1: Option<real>,
    mark2: Option<real>,
    mark3: Option<real>,
    teacher1: Option<Id>,
    teacher2: Option<Id>,
    teacher3: Option<Id>)

  /** A published outcome for one candidate. */
  datatype Result = Result(candidate: Id, value: real) {
    /** The acceptance flag. It is defined in a model file that is not part of this model;
        it is taken here to be "value at or above the minimum passing mark". */
    predicate Accepted() {
      value >= AppConstants.MinimumPassingMark
    }
  }

  datatype Post = Post(id: Id, author: Id, title: string, content: string, link: Option<string>)

  datatype SecretCode = SecretCode(candidate: Id, content: string)

  function CopyKey(c: Copy): Id { c.id }
  function UserKey(u: User): Id { u.id }
  function PostKey(p: Post): Id { p.id }

  /** The application's database. */
  class Database {
    var users: seq<User>
    var copies: seq<Copy>
    var results: seq<Result>
    var posts: seq<Post>
    var secretCodes: seq<SecretCode>
    /** The next identifier the database hands out. */
    var nextId: nat

    /** Primary keys are unique, and every stored user and post has an identifier
        below the counter. */
    ghost predicate Valid()
      reads this
    {
      ValidTables(users, copies, posts, nextId)
    }

    constructor (users: seq<User>, copies: seq<Copy>)
      requires UniqueKeys(UserKey, users) && UniqueKeys(CopyKey, copies)
      ensures Valid()
      ensures this.users == users && this.copies == copies
      ensures results == [] && posts == [] && secretCodes == []
    {
      this.users := users;
      this.copies := copies;
      results := [];
      posts := [];
      secretCodes := [];
      nextId := NextFreeId(users);
    }

    /** Saves a new user under the next identifier. */
    method AddUser(u: User)
      requires Valid() && u.id == nextId
      modifies this
      ensures Valid()
      ensures users == old(users) + [u] && nextId == old(nextId) + 1
      ensures copies == old(copies) && results == old(results)
      ensures posts == old(posts) && secretCodes == old(secretCodes)
    {
      AddUserKeepsValid(users, copies, posts, nextId, u);
      users := users + [u];
      nextId := nextId + 1;
    }

    /** Saves changes to the user at position `i`; the identifier is kept. */
    method ReplaceUser(i: nat, u: User)
      requires Valid() && i < |users| && u.id == users[i].id
      modifies this
      ensures Valid()
      ensures users == old(users)[i := u] && nextId == old(nextId)
      ensures copies == old(copies) && results == old(results)
      ensures posts == old(posts) && secretCodes == old(secretCodes)
    {
      ReplaceUserKeepsValid(users, copies, posts, nextId, i, u);
      users := users[i := u];
    }

    /** Saves changes to the copy at position `i`; the identifier is kept. */
    method ReplaceCopy(i: nat, c: Copy)
      requires Valid() && i < |copies| && c.id == copies[i].id
      modifies this
      ensures Valid()
      ensures copies == old(copies)[i := c]
      ensures users == old(users) && results == old(results) && posts == old(posts)
      ensures secretCodes == old(secretCodes) && nextId == old(nextId)
    {
      ReplaceCopyKeepsValid(users, copies, posts, nextId, i, c);
      copies := copies[i := c];
    }

    /** Saves a new post under the next identifier. */
    method AddPost(p: Post)
      requires Valid() && p.id == nextId
      modifies this
      ensures Valid()
      ensures posts == old(posts) + [p] && nextId == old(nextId) + 1
      ensures users == old(users) && copies == old(copies) && results == old(results)
      ensures secretCodes == old(secretCodes)
    {
      AddPostKeepsValid(users, copies, posts, nextId, p);
      posts := posts + [p];
      nextId := nextId + 1;
    }

    /** Deletes the rows of the post table with identifier `id`. */
    method DeletePosts(id: Id)
      requires Valid()
      modifies this
      ensures Valid()
      ensures posts == Filter((p: Post) => p.id != id, old(posts))
      ensures users == old(users) && copies == old(copies) && results == old(results)
      ensures secretCodes == old(secretCodes) && nextId == old(nextId)
    {
      FilterUniqueKeys((p: Post) => p.id != id, PostKey, posts);
      FilterMembers((p: Post) => p.id != id, posts);
      posts := Filter((p: Post) => p.id != id, posts);
    }

    /** Saves a secret code row. */
    method AddSecretCode(c: SecretCode)
      requires Valid()
      modifies this
      ensures Valid()
      ensures secretCodes == old(secretCodes) + [c]
      ensures users == old(users) && copies == old(copies) && results == old(results)
      ensures posts == old(posts) && nextId == old(nextId)
    {
      secretCodes := secretCodes + [c];
    }
  }

  /** Primary keys are unique, and every user and post has an identifier below the
      counter. */
  ghost predicate ValidTables(users: seq<User>, copies: seq<Copy>, posts: seq<Post>, nextId: nat) {
    && UniqueKeys(CopyKey, copies)
    && UniqueKeys(UserKey, users)
    && UniqueKeys(PostKey, posts)
    && (forall u :: u in users ==> u.id < nextId)
    && (forall p :: p in posts ==> p.id < nextId)
  }

  /** Saving a user under the counter's identifier and advancing the counter keeps the
      tables valid. */
  lemma AddUserKeepsValid(users: seq<User>, copies: seq<Copy>, posts: seq<Post>, nextId: nat, u: User)
    requires ValidTables(users, copies, posts, nextId) && u.id == nextId
    ensures ValidTables(users + [u], copies, posts, nextId + 1)
  {
    AppendFreshKey(UserKey, users, u);
  }

  /** Saving a post under the counter's identifier and advancing the counter keeps the
      tables valid. */
  lemma AddPostKeepsValid(users: seq<User>, copies: seq<Copy>, posts: seq<Post>, nextId: nat, p: Post)
    requires ValidTables(users, copies, posts, nextId) && p.id == nextId
    ensures ValidTables(users, copies, posts + [p], nextId + 1)
  {
    AppendFreshKey(PostKey, posts, p);
  }

  /** Rewriting a user in place, keeping its identifier, keeps the tables valid. */
  lemma ReplaceUserKeepsValid(users: seq<User>, copies: seq<Copy>, posts: seq<Post>, nextId: nat, i: nat, u: User)
    requires ValidTables(users, copies, posts, nextId) && i < |users| && u.id == users[i].id
    ensures ValidTables(users[i := u], copies, posts, nextId)
  {
    ReplaceSameKey(UserKey, users, i, u);
    assert forall v :: v in users[i := u] ==> v == u || v in users;
  }

  /** Rewriting a copy in place, keeping its identifier, keeps the tables valid. */
  lemma ReplaceCopyKeepsValid(users: seq<User>, copies: seq<Copy>, posts: seq<Post>, nextId: nat, i: nat, c: Copy)
    requires ValidTables(users, copies, posts, nextId) && i < |copies| && c.id == copies[i].id
    ensures ValidTables(users, copies[i := c], posts, nextId)
  {
    ReplaceSameKey(CopyKey, copies, i, c);
  }

  /** An identifier above every user's. */
  function NextFreeId(users: seq<User>): (n: nat)
    ensures forall u :: u in users ==> u.id < n
  {
    if users == [] then 0
    else
      var rest := NextFreeId(users[1..]);
      assert forall u :: u in users ==> u == users[0] || u in users[1..];
      if users[0].id < rest then rest else users[0].id + 1
  }
}
