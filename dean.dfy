/** `DeanController`: publishing and deleting posts, listing the candidates that have no
    anonymity code yet, and assigning such a code. */
module Dean {
  import opened Wrappers
  import opened Sequences
  import opened Models
  import opened Flash
  import opened Validation

  // ---------------------------------------------------------------------------
  // createPost
  // ---------------------------------------------------------------------------

  /** The longest title a post may have, in characters. */
  const MaxTitleLength: nat := 200

  datatype PostForm = PostForm(title: string, content: string, link: Option<string>)

  datatype PostRejection = InvalidTitle | MissingContent

  function PostRejectionMessage(r: PostRejection): string {
    match r
    case InvalidTitle => "Title is required and must be less than 200 characters."
    case MissingContent => "Content is required."
  }

  /** The checks of `createPost` in their order: the sanitized title, then the sanitized
      content. */
  function PostCheck(form: PostForm): Option<PostRejection> {
    var title := Sanitize(form.title);
    if !(|title| != 0 && |title| <= MaxTitleLength) then Some(InvalidTitle)
    else if |Sanitize(form.content)| == 0 then Some(MissingContent)
    else None
  }

  /** A post is turned away for its title exactly when the sanitized title is empty or over
      200 characters, for its content exactly when the title passes and the sanitized content
      is empty, and accepted otherwise. */
  lemma PostCheckCases(form: PostForm)
    ensures var r := PostCheck(form);
      var title := Sanitize(form.title);
      && (r == Some(InvalidTitle) <==> |title| == 0 || |title| > 200)
      && (r == Some(MissingContent) <==> 0 < |title| <= 200 && |Sanitize(form.content)| == 0)
      && (r.None? <==> 0 < |title| <= 200 && |Sanitize(form.content)| != 0)
  {
  }

  /** `postData.link.map { sanitize($0) }` */
  function SanitizedLink(link: Option<string>): Option<string> {
    match link
    case None => None
    case Some(l) => Some(Sanitize(l))
  }

  /** The post a successful `createPost` stores. */
  function NewPost(id: Id, author: Id, form: PostForm): Post {
    Post(id, author, Sanitize(form.title), Sanitize(form.content), SanitizedLink(form.link))
  }

  /** `createPost`: on a failed check, flashes its error and stores nothing; otherwise
      saves one post written by the dean. */
  method CreatePost(db: Database, session: Session, deanId: Id, form: PostForm)
    returns (rejection: Option<PostRejection>)
    requires db.Valid()
    modifies db, session
    ensures db.Valid()
    ensures rejection == PostCheck(form)
    ensures rejection.Some? ==> (db.posts == old(db.posts) && db.nextId == old(db.nextId)
      && session.data == WithFlash(old(session.data), Error, PostRejectionMessage(rejection.value)))
    ensures rejection.None? ==> (db.posts == old(db.posts) + [NewPost(old(db.nextId), deanId, form)]
      && db.nextId == old(db.nextId) + 1
      && session.data == WithFlash(old(session.data), Success, PostCreatedMessage()))
    ensures db.users == old(db.users) && db.copies == old(db.copies)
    ensures db.results == old(db.results) && db.secretCodes == old(db.secretCodes)
  {
    rejection := PostCheck(form);
    if rejection.Some? {
      session.SetFlash(Error, PostRejectionMessage(rejection.value));
      return;
    }
    db.AddPost(NewPost(db.nextId, deanId, form));
    session.SetFlash(Success, PostCreatedMessage());
  }

  function PostCreatedMessage(): string {
    "Post created successfully."
  }

  /** An accepted post is stored trimmed: a trimmed, non-empty title of at most 200
      characters, trimmed non-empty content, and a link exactly when the form had one,
      trimmed as well. */
  lemma CreatedPostIsWellFormed(id: Id, author: Id, form: PostForm)
    requires PostCheck(form).None?
    ensures var p := NewPost(id, author, form);
      && p.author == author
      && 0 < |p.title| <= MaxTitleLength && Sanitize(p.title) == p.title
      && |p.content| != 0 && Sanitize(p.content) == p.content
      && (p.link.Some? <==> form.link.Some?)
      && (p.link.Some? ==> p.link.value == Sanitize(form.link.value) && Sanitize(p.link.value) == p.link.value)
  {
    SanitizeIdempotent(form.title);
    SanitizeIdempotent(form.content);
    if form.link.Some? {
      SanitizeIdempotent(form.link.value);
    }
  }

  // ---------------------------------------------------------------------------
  // The candidates without codes (getAssignCodesView)
  // ---------------------------------------------------------------------------

  /** The identifiers of the users joined to some secret code. */
  function CodedCandidates(users: seq<User>, codes: seq<SecretCode>): set<Id> {
    set u, c | u in users && c in codes && c.candidate == u.id :: u.id
  }

  /** The candidate-type users, in table order, whose identifier is not joined to a code. */
  function CandidatesWithoutCodes(users: seq<User>, codes: seq<SecretCode>): seq<User> {
    var coded := CodedCandidates(users, codes);
    var allCandidates := Filter((u: User) => u.userType == UserType.Candidate, users);
    Filter((u: User) => u.id !in coded, allCandidates)
  }

  /** A user is listed exactly when it is a stored candidate and no code is bound to its
      identifier; a listed user appears as often as in the table, in the table's order
      (the list is a single filter of the table). */
  lemma CandidatesWithoutCodesMembers(users: seq<User>, codes: seq<SecretCode>)
    ensures forall u :: u in CandidatesWithoutCodes(users, codes) <==>
      (u in users && u.userType == UserType.Candidate && forall c :: c in codes ==> c.candidate != u.id)
    ensures forall u :: u in CandidatesWithoutCodes(users, codes) ==>
      multiset(CandidatesWithoutCodes(users, codes))[u] == multiset(users)[u]
    ensures CandidatesWithoutCodes(users, codes) ==
      Filter((u: User) => u.userType == UserType.Candidate && u.id !in CodedCandidates(users, codes), users)
  {
    var coded := CodedCandidates(users, codes);
    var allCandidates := Filter((u: User) => u.userType == UserType.Candidate, users);
    FilterMembers((u: User) => u.userType == UserType.Candidate, users);
    FilterMembers((u: User) => u.id !in coded, allCandidates);
    FilterMultiset((u: User) => u.userType == UserType.Candidate, users);
    FilterMultiset((u: User) => u.id !in coded, allCandidates);
    assert forall u, c :: u in users && c in codes && c.candidate == u.id ==> u.id in coded;
    FilterTwice((u: User) => u.userType == UserType.Candidate, (u: User) => u.id !in coded,
                (u: User) => u.userType == UserType.Candidate && u.id !in coded, users);
  }

  // ---------------------------------------------------------------------------
  // assignSecretCode
  // ---------------------------------------------------------------------------

  /** The contents of every stored code: the set the generator must avoid. */
  function CodeContents(codes: seq<SecretCode>): set<string> {
    set c | c in codes :: c.content
  }

  function CandidateNotFoundMessage(): string {
    "Candidate not found."
  }

  function CodeAssignedMessage(u: User): string {
    "Secret code assigned successfully to " + u.firstName + " " + u.lastName + "."
  }

  /** The code table after `assignSecretCode`: unchanged for an unknown user or when the
      generator fails, otherwise with one more row binding the generated content to the
      candidate. */
  function CodesAfterAssign(users: seq<User>, codes: seq<SecretCode>, candidateId: Id,
                            generate: set<string> -> Option<string>): seq<SecretCode>
  {
    if FindIndex((u: User) => u.id == candidateId, users).None? then codes
    else match generate(CodeContents(codes))
      case None => codes
      case Some(content) => codes + [SecretCode(candidateId, content)]
  }

  /** `assignSecretCode`: an unknown user gets an error flash and nothing is stored;
      otherwise the generator is handed the contents of all stored codes, and the code it
      returns is saved for the candidate. A failing generator (a thrown error) stores nothing
      and sets no flash. The generator is a parameter, `None` standing for a throw. */
  method AssignSecretCode(db: Database, session: Session, candidateId: Id,
                          generate: set<string> -> Option<string>)
    returns (code: Option<string>)
    requires db.Valid()
    modifies db, session
    ensures db.Valid()
    ensures db.secretCodes == CodesAfterAssign(old(db.users), old(db.secretCodes), candidateId, generate)
    ensures (forall u :: u in old(db.users) ==> u.id != candidateId) ==>
      (code.None? && session.data == WithFlash(old(session.data), Error, CandidateNotFoundMessage()))
    ensures forall i :: 0 <= i < |old(db.users)| && old(db.users)[i].id == candidateId
                        && (forall k :: 0 <= k < i ==> old(db.users)[k].id != candidateId) ==>
      && code == generate(CodeContents(old(db.secretCodes)))
      && (code.Some? ==> session.data == WithFlash(old(session.data), Success, CodeAssignedMessage(old(db.users)[i])))
      && (code.None? ==> session.data == old(session.data))
    ensures db.users == old(db.users) && db.copies == old(db.copies) && db.results == old(db.results)
    ensures db.posts == old(db.posts) && db.nextId == old(db.nextId)
  {
    var index := FindIndex((u: User) => u.id == candidateId, db.users);
    if index.None? {
      session.SetFlash(Error, CandidateNotFoundMessage());
      return None;
    }
    var candidate := db.users[index.value];
    var existingCodes := set c | c in db.secretCodes :: c.content;
    code := generate(existingCodes);
    if code.None? {
      return;
    }
    db.AddSecretCode(SecretCode(candidateId, code.value));
    session.SetFlash(Success, CodeAssignedMessage(candidate));
  }

  /** How many codes are bound to a candidate. */
  function CodeCount(codes: seq<SecretCode>, candidateId: Id): nat {
    |Filter((c: SecretCode) => c.candidate == candidateId, codes)|
  }

  /** There is no check for an existing code: each successful assignment adds one more code
      for the candidate, so a second call leaves the candidate with two more codes. */
  lemma AssignAddsACode(users: seq<User>, codes: seq<SecretCode>, candidateId: Id,
                        generate: set<string> -> Option<string>)
    requires exists u :: u in users && u.id == candidateId
    requires generate(CodeContents(codes)).Some?
    ensures CodeCount(CodesAfterAssign(users, codes, candidateId, generate), candidateId)
      == CodeCount(codes, candidateId) + 1
  {
    var content := generate(CodeContents(codes)).value;
    FilterConcat((c: SecretCode) => c.candidate == candidateId, codes, [SecretCode(candidateId, content)]);
  }

  /** Two successful assignments in a row give the candidate two more codes. */
  lemma SecondAssignmentAddsSecondCode(users: seq<User>, codes: seq<SecretCode>, candidateId: Id,
                                       generate: set<string> -> Option<string>)
    requires exists u :: u in users && u.id == candidateId
    requires forall s :: generate(s).Some?
    ensures var once := CodesAfterAssign(users, codes, candidateId, generate);
      CodeCount(CodesAfterAssign(users, once, candidateId, generate), candidateId)
        == CodeCount(codes, candidateId) + 2
  {
    var once := CodesAfterAssign(users, codes, candidateId, generate);
    AssignAddsACode(users, codes, candidateId, generate);
    AssignAddsACode(users, once, candidateId, generate);
  }

  /** Handing the generator the stored contents is what keeps codes distinct: a generator
      that never returns a member of the set it is given preserves distinct contents. */
  lemma AssignKeepsContentsDistinct(users: seq<User>, codes: seq<SecretCode>, candidateId: Id,
                                    generate: set<string> -> Option<string>)
    requires forall s :: generate(s).Some? ==> generate(s).value !in s
    requires UniqueKeys((c: SecretCode) => c.content, codes)
    ensures UniqueKeys((c: SecretCode) => c.content, CodesAfterAssign(users, codes, candidateId, generate))
  {
    var after := CodesAfterAssign(users, codes, candidateId, generate);
    if after != codes {
      var content := generate(CodeContents(codes)).value;
      var row := SecretCode(candidateId, content);
      assert forall c :: c in codes ==> c.content in CodeContents(codes);
      AppendFreshKey((c: SecretCode) => c.content, codes, row);
    }
  }

  // ---------------------------------------------------------------------------
  // deletePost
  // ---------------------------------------------------------------------------

  function PostNotFoundMessage(): string {
    "Post not found."
  }

  function PostDeletedMessage(): string {
    "Post deleted successfully."
  }

  /** `deletePost`: an unknown identifier gets an error flash and changes nothing; otherwise
      the post is deleted, whoever wrote it. */
  method DeletePost(db: Database, session: Session, postId: Id) returns (deleted: bool)
    requires db.Valid()
    modifies db, session
    ensures db.Valid()
    ensures deleted <==> exists p :: p in old(db.posts) && p.id == postId
    ensures !deleted ==> (db.posts == old(db.posts)
      && session.data == WithFlash(old(session.data), Error, PostNotFoundMessage()))
    ensures deleted ==> (db.posts == Filter((p: Post) => p.id != postId, old(db.posts))
      && session.data == WithFlash(old(session.data), Success, PostDeletedMessage()))
    ensures db.users == old(db.users) && db.copies == old(db.copies) && db.results == old(db.results)
    ensures db.secretCodes == old(db.secretCodes) && db.nextId == old(db.nextId)
  {
    var index := FindIndex((p: Post) => p.id == postId, db.posts);
    if index.None? {
      session.SetFlash(Error, PostNotFoundMessage());
      return false;
    }
    db.DeletePosts(postId);
    session.SetFlash(Success, PostDeletedMessage());
    deleted := true;
  }

  /** With unique identifiers, deleting by identifier removes exactly the one post at that
      position and keeps the others in order. */
  lemma {:induction false} DeleteRemovesExactlyThatPost(posts: seq<Post>, i: nat)
    requires UniqueKeys(PostKey, posts) && i < |posts|
    ensures Filter((p: Post) => p.id != posts[i].id, posts) == posts[..i] + posts[i + 1..]
  {
    var id := posts[i].id;
    if i == 0 {
      assert forall p :: p in posts[1..] ==> p.id != id by {
        forall p | p in posts[1..] ensures p.id != id {
          var j :| 0 <= j < |posts[1..]| && posts[1..][j] == p;
          assert posts[j + 1] == p;
        }
      }
      FilterAll((p: Post) => p.id != id, posts[1..]);
    } else {
      var rest := posts[1..];
      assert UniqueKeys(PostKey, rest) by {
        forall a, b | 0 <= a < |rest| && 0 <= b < |rest| && PostKey(rest[a]) == PostKey(rest[b])
          ensures a == b
        {
          assert PostKey(posts[a + 1]) == PostKey(posts[b + 1]);
        }
      }
      assert rest[i - 1] == posts[i];
      DeleteRemovesExactlyThatPost(rest, i - 1);
      assert posts[0].id != id;
      assert rest[..i - 1] + rest[i..] == posts[1..i] + posts[i + 1..];
      assert posts[..i] == [posts[0]] + posts[1..i];
    }
  }
}
