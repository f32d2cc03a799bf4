/** The Mongo API, one request at a time: handlers over a database and a Redis cache in front of it. */
module ApiCache {
  import opened Options
  import opened ApiKeys

  // ---- documents ----------------------------------------------------------

  /** Twenty-four hexadecimal digits in lower case. */
  datatype ObjectId = ObjectId(hex: string)

  predicate IsHex(c: char) { '0' <= c <= '9' || 'a' <= c <= 'f' || 'A' <= c <= 'F' }

  predicate IsValidId(s: string) { |s| == 24 && forall c :: c in s ==> IsHex(c) }

  function Lower(c: char): char { if 'A' <= c <= 'Z' then c - 'A' + 'a' else c }

  function Oid(s: string): ObjectId
    requires IsValidId(s)
  {
    ObjectId(seq(|s|, i requires 0 <= i < |s| => Lower(s[i])))
  }

  datatype User = User(id: ObjectId, login: string, email: string, firstName: string, lastName: string,
                       age: Option<int>, interests: seq<string>)

  datatype UserChange = UserChange(firstName: Option<string>, lastName: Option<string>, age: Option<int>,
                                   interests: Option<seq<string>>)

  datatype Comment = Comment(user: ObjectId, text: string, createdAt: int)

  datatype Post = Post(id: ObjectId, author: ObjectId, content: string, tags: seq<string>, likes: seq<ObjectId>,
                       comments: seq<Comment>, createdAt: int)

  /** A row of the statistics. */
  datatype Row = Row(user: ObjectId, login: string, posts: nat, likes: nat)

  /** What a cached text stands for. */
  datatype Value = UsersValue(users: seq<User>) | PostsValue(posts: seq<Post>) | StatsValue(rows: set<Row>)

  datatype Reply<+T> = Ok(value: T) | BadRequest | NotFound

  // ---- queries ------------------------------------------------------------

  predicate UserMatches(u: User, login: Option<string>, minAge: Option<int>) {
    && (login.Some? && login.value != "" ==> u.login == login.value)
    && (minAge.Some? ==> u.age.Some? && u.age.value > minAge.value)
  }

  function FindUsers(users: seq<User>, login: Option<string>, minAge: Option<int>): seq<User> {
    if users == [] then []
    else
      var n := |users| - 1;
      FindUsers(users[..n], login, minAge) + if UserMatches(users[n], login, minAge) then [users[n]] else []
  }

  /** Absent and empty authors ask for all posts, anything else must be an id. */
  predicate AuthorOk(author: Option<string>) { author.Some? && author.value != "" ==> IsValidId(author.value) }

  predicate PostMatches(p: Post, author: Option<string>, tag: Option<string>)
    requires AuthorOk(author)
  {
    && (author.Some? && author.value != "" ==> p.author == Oid(author.value))
    && (tag.Some? && tag.value != "" ==> tag.value in p.tags)
  }

  function MatchingPosts(posts: seq<Post>, author: Option<string>, tag: Option<string>): seq<Post>
    requires AuthorOk(author)
  {
    if posts == [] then []
    else
      var n := |posts| - 1;
      MatchingPosts(posts[..n], author, tag) + if PostMatches(posts[n], author, tag) then [posts[n]] else []
  }

  /** Newest first; of equally old posts the earlier stored comes first. */
  function Insert(p: Post, sorted: seq<Post>): seq<Post> {
    if sorted == [] || p.createdAt >= sorted[0].createdAt then [p] + sorted else [sorted[0]] + Insert(p, sorted[1..])
  }

  function NewestFirst(posts: seq<Post>): seq<Post> {
    if posts == [] then [] else Insert(posts[0], NewestFirst(posts[1..]))
  }

  function FindPosts(posts: seq<Post>, author: Option<string>, tag: Option<string>): seq<Post>
    requires AuthorOk(author)
  {
    NewestFirst(MatchingPosts(posts, author, tag))
  }

  ghost predicate Descending(posts: seq<Post>) {
    forall i, j :: 0 <= i < j < |posts| ==> posts[i].createdAt >= posts[j].createdAt
  }

  lemma {:induction false} InsertAdds(p: Post, sorted: seq<Post>)
    ensures multiset(Insert(p, sorted)) == multiset(sorted) + multiset{p}
  {
    if sorted != [] && p.createdAt < sorted[0].createdAt {
      InsertAdds(p, sorted[1..]);
      assert sorted == [sorted[0]] + sorted[1..];
    }
  }

  /** Nothing in the result is newer than the limit that held before. */
  lemma {:induction false} InsertBounded(p: Post, sorted: seq<Post>, limit: int)
    requires p.createdAt <= limit && forall i :: 0 <= i < |sorted| ==> sorted[i].createdAt <= limit
    ensures forall i :: 0 <= i < |Insert(p, sorted)| ==> Insert(p, sorted)[i].createdAt <= limit
  {
    if sorted != [] && p.createdAt < sorted[0].createdAt { InsertBounded(p, sorted[1..], limit); }
  }

  lemma {:induction false} InsertSorts(p: Post, sorted: seq<Post>)
    requires Descending(sorted)
    ensures Descending(Insert(p, sorted))
  {
    if sorted != [] && p.createdAt < sorted[0].createdAt {
      InsertSorts(p, sorted[1..]);
      InsertBounded(p, sorted[1..], sorted[0].createdAt);
    }
  }

  lemma {:induction false} NewestFirstSorts(posts: seq<Post>)
    ensures Descending(NewestFirst(posts)) && multiset(NewestFirst(posts)) == multiset(posts)
  {
    if posts != [] {
      NewestFirstSorts(posts[1..]);
      InsertSorts(posts[0], NewestFirst(posts[1..]));
      InsertAdds(posts[0], NewestFirst(posts[1..]));
      assert posts == [posts[0]] + posts[1..];
    }
  }

  function PostCount(posts: seq<Post>, id: ObjectId): nat {
    if posts == [] then 0
    else
      var n := |posts| - 1;
      PostCount(posts[..n], id) + if posts[n].author == id && posts[n].content != "" then 1 else 0
  }

  function LikeCount(posts: seq<Post>, id: ObjectId): nat {
    if posts == [] then 0
    else
      var n := |posts| - 1;
      LikeCount(posts[..n], id) + if posts[n].author == id && posts[n].content != "" then |posts[n].likes| else 0
  }

  /** Posts with content grouped by author, joined with the users that still exist. */
  function Stats(users: seq<User>, posts: seq<Post>): set<Row> {
    set u | u in users && PostCount(posts, u.id) > 0 ::
      Row(u.id, u.login, PostCount(posts, u.id), LikeCount(posts, u.id))
  }

  // ---- writes -------------------------------------------------------------

  predicate HasUser(users: seq<User>, id: ObjectId) { exists u :: u in users && u.id == id }

  predicate HasPost(posts: seq<Post>, id: ObjectId) { exists p :: p in posts && p.id == id }

  function Changed(u: User, c: UserChange): User {
    u.(firstName := Or(c.firstName, u.firstName), lastName := Or(c.lastName, u.lastName),
       age := if c.age.Some? then c.age else u.age, interests := Or(c.interests, u.interests))
  }

  /** `update_one`: the first document with this id. */
  function WithUser(users: seq<User>, id: ObjectId, c: UserChange): seq<User> {
    if users == [] then []
    else if users[0].id == id then [Changed(users[0], c)] + users[1..]
    else [users[0]] + WithUser(users[1..], id, c)
  }

  /** `delete_one`. */
  function WithoutUser(users: seq<User>, id: ObjectId): seq<User> {
    if users == [] then []
    else if users[0].id == id then users[1..]
    else [users[0]] + WithoutUser(users[1..], id)
  }

  datatype PostChange = Like(user: ObjectId) | Unlike(user: ObjectId) | AddComment(comment: Comment)

  /** What a request asks for, before its user id is read. */
  datatype Action = LikeIt | UnlikeIt | Say(text: string, now: int)

  function By(user: ObjectId, a: Action): PostChange {
    match a
    case LikeIt => Like(user)
    case UnlikeIt => Unlike(user)
    case Say(text, now) => AddComment(Comment(user, text, now))
  }

  function Remove(ids: seq<ObjectId>, id: ObjectId): seq<ObjectId> {
    if ids == [] then []
    else
      var n := |ids| - 1;
      Remove(ids[..n], id) + if ids[n] == id then [] else [ids[n]]
  }

  function ChangedPost(p: Post, c: PostChange): Post {
    match c
    case Like(user) => if user in p.likes then p else p.(likes := p.likes + [user])
    case Unlike(user) => p.(likes := Remove(p.likes, user))
    case AddComment(comment) => p.(comments := p.comments + [comment])
  }

  function WithPost(posts: seq<Post>, id: ObjectId, c: PostChange): seq<Post> {
    if posts == [] then []
    else if posts[0].id == id then [ChangedPost(posts[0], c)] + posts[1..]
    else [posts[0]] + WithPost(posts[1..], id, c)
  }

  // ---- queries and writes, told by position -------------------------------

  /** `r` is what stands at the positions `at` of `all`, in their order. */
  ghost predicate Picked<T>(all: seq<T>, at: seq<nat>, r: seq<T>) {
    && |at| == |r|
    && (forall i, j :: 0 <= i < j < |at| ==> at[i] < at[j])
    && (forall k :: 0 <= k < |at| ==> at[k] < |all| && r[k] == all[at[k]])
  }

  lemma NothingPicked<T>()
    ensures Picked<T>([], [], [])
  {
  }

  lemma PickedOneMore<T>(all: seq<T>, at: seq<nat>, r: seq<T>, take: bool)
    requires all != [] && Picked(all[..|all| - 1], at, r)
    ensures var n := |all| - 1;
            var at' := at + if take then [n] else [];
            && Picked(all, at', r + if take then [all[n]] else [])
            && (forall i :: 0 <= i < n ==> (i in at' <==> i in at))
            && (n in at' <==> take)
  {
  }

  /** A users query returns exactly the documents it asks for, in stored order. */
  lemma {:induction false} FindUsersPicks(users: seq<User>, login: Option<string>, minAge: Option<int>)
    returns (at: seq<nat>)
    ensures Picked(users, at, FindUsers(users, login, minAge))
    ensures forall i :: 0 <= i < |users| ==>
              (i in at <==>
               && (login.None? || login.value == "" || login.value == users[i].login)
               && (minAge.None? || (users[i].age.Some? && minAge.value < users[i].age.value)))
  {
    hide Picked;
    if users == [] {
      NothingPicked<User>();
      at := [];
    } else {
      var n := |users| - 1;
      var before := FindUsersPicks(users[..n], login, minAge);
      var take := UserMatches(users[n], login, minAge);
      PickedOneMore(users, before, FindUsers(users[..n], login, minAge), take);
      at := before + if take then [n] else [];
    }
  }

  /** So does a posts query, before it is sorted. */
  lemma {:induction false} MatchingPostsPicks(posts: seq<Post>, author: Option<string>, tag: Option<string>)
    returns (at: seq<nat>)
    requires AuthorOk(author)
    ensures Picked(posts, at, MatchingPosts(posts, author, tag))
    ensures forall i :: 0 <= i < |posts| ==>
              (i in at <==>
               && (author.None? || author.value == "" || posts[i].author == Oid(author.value))
               && (tag.None? || tag.value == "" || tag.value in posts[i].tags))
  {
    hide Oid, Picked;
    if posts == [] {
      NothingPicked<Post>();
      at := [];
    } else {
      var n := |posts| - 1;
      var before := MatchingPostsPicks(posts[..n], author, tag);
      var take := PostMatches(posts[n], author, tag);
      PickedOneMore(posts, before, MatchingPosts(posts[..n], author, tag), take);
      at := before + if take then [n] else [];
    }
  }

  /** The whole answer: the documents asked for, newest first. */
  lemma FindPostsAnswers(posts: seq<Post>, author: Option<string>, tag: Option<string>)
    returns (at: seq<nat>, found: seq<Post>)
    requires AuthorOk(author)
    ensures Picked(posts, at, found)
    ensures forall i :: 0 <= i < |posts| ==>
              (i in at <==>
               && (author.None? || author.value == "" || posts[i].author == Oid(author.value))
               && (tag.None? || tag.value == "" || tag.value in posts[i].tags))
    ensures var answer := FindPosts(posts, author, tag);
            && multiset(answer) == multiset(found)
            && forall i, j :: 0 <= i < j < |answer| ==> answer[i].createdAt >= answer[j].createdAt
  {
    hide Oid;
    found := MatchingPosts(posts, author, tag);
    at := MatchingPostsPicks(posts, author, tag);
    NewestFirstSorts(found);
  }

  /** Ids are read without regard to the case of their letters, and in no other way. */
  lemma OidIgnoresCase(s: string, t: string)
    requires IsValidId(s) && IsValidId(t)
    ensures Oid(s) == Oid(t) <==>
            forall i :: 0 <= i < 24 ==>
              s[i] == t[i] || (s[i] >= 'A' && t[i] >= 'A' && (s[i] as int - t[i] as int) in {32, -32})
  {
    var a, b := Oid(s).hex, Oid(t).hex;
    forall i | 0 <= i < 24
      ensures a[i] == b[i] <==>
              s[i] == t[i] || (s[i] >= 'A' && t[i] >= 'A' && (s[i] as int - t[i] as int) in {32, -32})
    {
      assert s[i] in s && t[i] in t;
      assert a[i] == Lower(s[i]) && b[i] == Lower(t[i]);
      LowerSame(s[i], t[i]);
    }
    assert |a| == |b| == 24;
    if forall i :: 0 <= i < 24 ==> a[i] == b[i] { assert a == b; }
  }

  lemma LowerSame(c: char, d: char)
    requires IsHex(c) && IsHex(d)
    ensures Lower(c) == Lower(d) <==> c == d || (c >= 'A' && d >= 'A' && (c as int - d as int) in {32, -32})
  {
  }

  /** The first user with this id stands here. */
  ghost predicate FirstUser(users: seq<User>, id: ObjectId, i: int) {
    0 <= i < |users| && users[i].id == id && forall j :: 0 <= j < i ==> users[j].id != id
  }

  ghost predicate FirstPost(posts: seq<Post>, id: ObjectId, i: int) {
    0 <= i < |posts| && posts[i].id == id && forall j :: 0 <= j < i ==> posts[j].id != id
  }

  /** The fields of the request that are set replace those of the user. */
  predicate Merged(u: User, c: UserChange, v: User) {
    && v.id == u.id && v.login == u.login && v.email == u.email
    && v.firstName == (if c.firstName.Some? then c.firstName.value else u.firstName)
    && v.lastName == (if c.lastName.Some? then c.lastName.value else u.lastName)
    && v.age == (if c.age.Some? then c.age else u.age)
    && v.interests == (if c.interests.Some? then c.interests.value else u.interests)
  }

  ghost predicate AllBut(ids: seq<ObjectId>, at: seq<nat>, id: ObjectId) {
    forall i :: 0 <= i < |ids| ==> (i in at <==> ids[i] != id)
  }

  /** What one request of a user does to a post. */
  ghost predicate PostAfter(p: Post, user: ObjectId, a: Action, q: Post) {
    && q.id == p.id && q.author == p.author && q.content == p.content && q.tags == p.tags
    && q.createdAt == p.createdAt
    && match a
       case LikeIt => q.comments == p.comments && q.likes == if user in p.likes then p.likes else p.likes + [user]
       case UnlikeIt =>
         q.comments == p.comments
         && exists at :: Picked(p.likes, at, q.likes) && AllBut(p.likes, at, user)
       case Say(text, now) => q.likes == p.likes && q.comments == p.comments + [Comment(user, text, now)]
  }

  lemma {:induction false} RemovePicks(ids: seq<ObjectId>, id: ObjectId) returns (at: seq<nat>)
    ensures Picked(ids, at, Remove(ids, id)) && AllBut(ids, at, id)
  {
    if ids == [] {
      at := [];
    } else {
      var n := |ids| - 1;
      var before := RemovePicks(ids[..n], id);
      PickedOneMore(ids, before, Remove(ids[..n], id), ids[n] != id);
      at := before + if ids[n] != id then [n] else [];
    }
  }

  lemma ChangedPostAfter(p: Post, user: ObjectId, a: Action)
    ensures PostAfter(p, user, a, ChangedPost(p, By(user, a)))
  {
    if a.UnlikeIt? { var at := RemovePicks(p.likes, user); }
  }

  lemma {:induction false} FirstUserExists(users: seq<User>, id: ObjectId) returns (i: nat)
    requires HasUser(users, id)
    ensures FirstUser(users, id, i)
  {
    var n := |users| - 1;
    if HasUser(users[..n], id) { i := FirstUserExists(users[..n], id); } else { i := n; }
  }

  lemma FirstUserInside(users: seq<User>, id: ObjectId, i: int)
    requires FirstUser(users, id, i)
    ensures 0 <= i < |users|
  {
  }

  lemma {:induction false} WithoutUserAt(users: seq<User>, id: ObjectId, i: nat)
    requires FirstUser(users, id, i)
    ensures WithoutUser(users, id) == users[..i] + users[i + 1..]
  {
    if i > 0 {
      WithoutUserAt(users[1..], id, i - 1);
      assert users[..i] == [users[0]] + users[1..][..i - 1] && users[i + 1..] == users[1..][i..];
    }
  }

  lemma {:induction false} WithUserAt(users: seq<User>, id: ObjectId, c: UserChange, i: nat)
    requires FirstUser(users, id, i)
    ensures WithUser(users, id, c) == users[i := Changed(users[i], c)]
  {
    hide Changed;
    if i > 0 {
      WithUserAt(users[1..], id, c, i - 1);
      assert users == [users[0]] + users[1..];
    }
  }

  lemma ChangedIsMerged(u: User, c: UserChange)
    ensures Merged(u, c, Changed(u, c))
  {
  }

  lemma {:induction false} FirstPostExists(posts: seq<Post>, id: ObjectId) returns (i: nat)
    requires HasPost(posts, id)
    ensures FirstPost(posts, id, i) && i < |posts|
  {
    var n := |posts| - 1;
    if HasPost(posts[..n], id) { i := FirstPostExists(posts[..n], id); } else { i := n; }
  }

  lemma {:induction false} WithPostAt(posts: seq<Post>, id: ObjectId, c: PostChange, i: nat)
    requires FirstPost(posts, id, i)
    ensures WithPost(posts, id, c) == posts[i := ChangedPost(posts[i], c)]
  {
    hide ChangedPost;
    if i > 0 {
      WithPostAt(posts[1..], id, c, i - 1);
      assert posts == [posts[0]] + posts[1..];
    }
  }

  // ---- statistics, counted ------------------------------------------------

  /** The posts of an author that have content. */
  ghost function PostsOf(posts: seq<Post>, id: ObjectId): set<int> {
    set i | 0 <= i < |posts| && posts[i].author == id && posts[i].content != ""
  }

  /** Their likes, as pairs of a post and a like of it. */
  ghost function LikesOf(posts: seq<Post>, id: ObjectId): set<(int, int)> {
    set i, k | 0 <= i < |posts| && 0 <= k < |posts[i].likes| && posts[i].author == id && posts[i].content != ""
      :: (i, k)
  }

  lemma {:induction false} PairsCount(i: int, n: nat)
    ensures |set k | 0 <= k < n :: (i, k)| == n
  {
    if n > 0 {
      PairsCount(i, n - 1);
      assert (set k | 0 <= k < n :: (i, k)) == (set k | 0 <= k < n - 1 :: (i, k)) + {(i, n - 1)};
    }
  }

  lemma {:induction false} CountsAreSizes(posts: seq<Post>, id: ObjectId)
    ensures PostCount(posts, id) == |PostsOf(posts, id)|
    ensures LikeCount(posts, id) == |LikesOf(posts, id)|
  {
    hide PostsOf, LikesOf;
    if posts == [] {
      NoneYet(id);
    } else {
      var n := |posts| - 1;
      CountsAreSizes(posts[..n], id);
      OnePostMore(posts, id);
      PairsCount(n, |posts[n].likes|);
    }
  }

  lemma NoneYet(id: ObjectId)
    ensures PostsOf([], id) == {} && LikesOf([], id) == {}
  {
  }

  lemma OnePostMore(posts: seq<Post>, id: ObjectId)
    requires posts != []
    ensures var n := |posts| - 1;
            var p := posts[n];
            var mine := p.author == id && p.content != "";
            && PostsOf(posts, id) == PostsOf(posts[..n], id) + (if mine then {n} else {})
            && n !in PostsOf(posts[..n], id)
            && LikesOf(posts, id)
               == LikesOf(posts[..n], id) + (if mine then set k | 0 <= k < |p.likes| :: (n, k) else {})
            && LikesOf(posts[..n], id) !! set k | 0 <= k < |p.likes| :: (n, k)
  {
  }

  /** The rows of the statistics: users with posts, the number of these and of their likes. */
  lemma StatsRows(users: seq<User>, posts: seq<Post>, row: Row)
    ensures row in Stats(users, posts) <==>
            exists u :: && u in users && row.user == u.id && row.login == u.login
                        && row.posts == |PostsOf(posts, u.id)| && row.likes == |LikesOf(posts, u.id)|
                        && PostsOf(posts, u.id) != {}
  {
    hide PostCount, LikeCount, PostsOf, LikesOf;
    forall u: User ensures PostCount(posts, u.id) == |PostsOf(posts, u.id)| {
      CountsAreSizes(posts, u.id);
    }
    forall u: User ensures LikeCount(posts, u.id) == |LikesOf(posts, u.id)| {
      CountsAreSizes(posts, u.id);
    }
  }

  // ---- coherence ----------------------------------------------------------

  const NONE := Some("None")

  /** Every value cached under the key of a users request is what the request would find now. */
  ghost predicate UsersCoherent(cache: map<string, Value>, users: seq<User>) {
    forall login: Option<string>, minAge: Option<int> :: login != NONE && UsersKey(login, minAge) in cache ==>
      cache[UsersKey(login, minAge)] == UsersValue(FindUsers(users, login, minAge))
  }

  ghost predicate PostsCoherent(cache: map<string, Value>, posts: seq<Post>) {
    forall author: Option<string>, tag: Option<string> ::
      AuthorOk(author) && tag != NONE && PostsKey(author, tag) in cache ==>
      cache[PostsKey(author, tag)] == PostsValue(FindPosts(posts, author, tag))
  }

  ghost predicate StatsCoherent(cache: map<string, Value>, users: seq<User>, posts: seq<Post>) {
    STATS_KEY in cache ==> cache[STATS_KEY] == StatsValue(Stats(users, posts))
  }

  function WithoutPrefix(cache: map<string, Value>, prefix: string): map<string, Value> {
    map key | key in cache && !HasPrefix(key, prefix) :: cache[key]
  }

  lemma UsersDropped(cache: map<string, Value>, users: seq<User>)
    ensures UsersCoherent(WithoutPrefix(cache, USERS), users)
  {
    hide UsersKey, HasPrefix;
    forall login: Option<string>, minAge: Option<int> ensures UsersKey(login, minAge) !in WithoutPrefix(cache, USERS) {
      KeyPrefixes(login, minAge, None, None);
    }
  }

  lemma PostsDropped(cache: map<string, Value>, posts: seq<Post>)
    ensures PostsCoherent(WithoutPrefix(cache, POSTS), posts)
  {
    hide PostsKey, HasPrefix;
    forall author: Option<string>, tag: Option<string> ensures PostsKey(author, tag) !in WithoutPrefix(cache, POSTS) {
      KeyPrefixes(None, None, author, tag);
    }
  }

  lemma StatsDropped(cache: map<string, Value>, users: seq<User>, posts: seq<Post>)
    ensures StatsCoherent(WithoutPrefix(cache, STATS), users, posts)
  {
    KeyPrefixes(None, None, None, None);
  }

  /** Dropping keys never harms what is left. */
  lemma LessIsCoherent(cache: map<string, Value>, less: map<string, Value>, users: seq<User>, posts: seq<Post>)
    requires forall key :: key in less ==> key in cache && less[key] == cache[key]
    ensures UsersCoherent(cache, users) ==> UsersCoherent(less, users)
    ensures PostsCoherent(cache, posts) ==> PostsCoherent(less, posts)
    ensures StatsCoherent(cache, users, posts) ==> StatsCoherent(less, users, posts)
  {
    hide UsersKey, PostsKey, FindUsers, FindPosts;
  }

  lemma SameShown(a: Option<string>, b: Option<string>)
    requires Shown(a) == Shown(b) && a != NONE && b != NONE
    ensures a == b
  {
  }

  /** Storing a fresh answer keeps the cache coherent, for every request but the literal "None". */
  lemma UsersStored(cache: map<string, Value>, users: seq<User>, posts: seq<Post>, login: Option<string>,
                    minAge: Option<int>, found: seq<User>)
    requires UsersCoherent(cache, users) && PostsCoherent(cache, posts) && StatsCoherent(cache, users, posts)
    requires found == FindUsers(users, login, minAge)
    ensures var stored := cache[UsersKey(login, minAge) := UsersValue(found)];
            && (UsersCoherent(stored, users) <==> login != NONE || found == FindUsers(users, None, minAge))
            && PostsCoherent(stored, posts) && StatsCoherent(stored, users, posts)
  {
    hide UsersKey, PostsKey, FindUsers, FindPosts, Stats, HasPrefix;
    var key := UsersKey(login, minAge);
    var stored := cache[key := UsersValue(found)];
    if login == NONE {
      SharedUsersKey(minAge);
      assert UsersKey(None, minAge) in stored;
    }
    if login != NONE || found == FindUsers(users, None, minAge) {
      forall l: Option<string>, a: Option<int> | l != NONE && UsersKey(l, a) in stored
        ensures stored[UsersKey(l, a)] == UsersValue(FindUsers(users, l, a))
      {
        if UsersKey(l, a) == key {
          UsersKeyInjective(l, a, login, minAge);
          if login != NONE { SameShown(l, login); } else { SameShown(l, None); }
        }
      }
    }
    forall author: Option<string>, tag: Option<string>
      | AuthorOk(author) && tag != NONE && PostsKey(author, tag) in stored
      ensures stored[PostsKey(author, tag)] == PostsValue(FindPosts(posts, author, tag))
    {
      KeyPrefixes(login, minAge, author, tag);
      FamiliesApart(key);
    }
    KeyPrefixes(login, minAge, None, None);
    FamiliesApart(key);
  }

  lemma SharedUsersKey(minAge: Option<int>)
    ensures UsersKey(NONE, minAge) == UsersKey(None, minAge)
  {
  }

  lemma SharedPostsKey(author: Option<string>)
    ensures PostsKey(author, NONE) == PostsKey(author, None)
  {
  }

  lemma AuthorHasNoColon(author: Option<string>)
    requires AuthorOk(author)
    ensures ':' !in Shown(author) && author != NONE
  {
  }

  lemma PostsStored(cache: map<string, Value>, users: seq<User>, posts: seq<Post>, author: Option<string>,
                    tag: Option<string>, found: seq<Post>)
    requires UsersCoherent(cache, users) && PostsCoherent(cache, posts) && StatsCoherent(cache, users, posts)
    requires AuthorOk(author) && found == FindPosts(posts, author, tag)
    ensures var stored := cache[PostsKey(author, tag) := PostsValue(found)];
            && (PostsCoherent(stored, posts) <==> tag != NONE || found == FindPosts(posts, author, None))
            && UsersCoherent(stored, users) && StatsCoherent(stored, users, posts)
  {
    hide UsersKey, PostsKey, FindUsers, FindPosts, Stats, HasPrefix, AuthorOk;
    var key := PostsKey(author, tag);
    var stored := cache[key := PostsValue(found)];
    if tag == NONE {
      SharedPostsKey(author);
      assert PostsKey(author, None) in stored;
    }
    if tag != NONE || found == FindPosts(posts, author, None) {
      forall a: Option<string>, t: Option<string> | AuthorOk(a) && t != NONE && PostsKey(a, t) in stored
        ensures stored[PostsKey(a, t)] == PostsValue(FindPosts(posts, a, t))
      {
        if PostsKey(a, t) == key {
          AuthorHasNoColon(a);
          AuthorHasNoColon(author);
          PostsKeyInjective(a, t, author, tag);
          SameShown(a, author);
          if tag != NONE { SameShown(t, tag); } else { SameShown(t, None); }
        }
      }
    }
    forall l: Option<string>, a: Option<int> | l != NONE && UsersKey(l, a) in stored
      ensures stored[UsersKey(l, a)] == UsersValue(FindUsers(users, l, a))
    {
      KeyPrefixes(l, a, author, tag);
      FamiliesApart(key);
    }
    KeyPrefixes(None, None, author, tag);
    FamiliesApart(key);
  }

  lemma StatsStored(cache: map<string, Value>, users: seq<User>, posts: seq<Post>)
    requires UsersCoherent(cache, users) && PostsCoherent(cache, posts)
    ensures var stored := cache[STATS_KEY := StatsValue(Stats(users, posts))];
            UsersCoherent(stored, users) && PostsCoherent(stored, posts) && StatsCoherent(stored, users, posts)
  {
    hide UsersKey, PostsKey, FindUsers, FindPosts, Stats, HasPrefix, AuthorOk;
    var stored := cache[STATS_KEY := StatsValue(Stats(users, posts))];
    FamiliesApart(STATS_KEY);
    forall l: Option<string>, a: Option<int> | l != NONE && UsersKey(l, a) in stored
      ensures stored[UsersKey(l, a)] == UsersValue(FindUsers(users, l, a))
    {
      KeyPrefixes(l, a, None, None);
    }
    forall a: Option<string>, t: Option<string> | AuthorOk(a) && t != NONE && PostsKey(a, t) in stored
      ensures stored[PostsKey(a, t)] == PostsValue(FindPosts(posts, a, t))
    {
      KeyPrefixes(None, None, a, t);
    }
  }

  // ---- a new user does not show in the statistics ------------------------

  ghost predicate AuthorsIssued(posts: seq<Post>, issued: set<ObjectId>) {
    forall p :: p in posts ==> p.author in issued
  }

  lemma {:induction false} NoPostsYet(posts: seq<Post>, issued: set<ObjectId>, id: ObjectId)
    requires AuthorsIssued(posts, issued) && id !in issued
    ensures PostCount(posts, id) == 0
  {
    if posts != [] {
      assert posts[|posts| - 1] in posts;
      NoPostsYet(posts[..|posts| - 1], issued, id);
    }
  }

  lemma NewUserNotInStats(users: seq<User>, posts: seq<Post>, issued: set<ObjectId>, u: User)
    requires AuthorsIssued(posts, issued) && u.id !in issued
    ensures Stats(users + [u], posts) == Stats(users, posts)
  {
    hide PostCount, LikeCount;
    NoPostsYet(posts, issued, u.id);
    assert forall v :: v in users + [u] <==> v in users || v == u;
  }

  // ---- the service --------------------------------------------------------

  class Api {
    var users: seq<User>
    var posts: seq<Post>
    var cache: map<string, Value>
    /** Ids ever given to a user; deleting a user does not free its id. */
    ghost var issued: set<ObjectId>

    ghost predicate Coherent()
      reads this
    {
      UsersCoherent(cache, users) && PostsCoherent(cache, posts) && StatsCoherent(cache, users, posts)
    }

    ghost predicate Valid()
      reads this
    {
      && Coherent() && AuthorsIssued(posts, issued)
      && forall u :: u in users ==> u.id in issued
    }

    constructor ()
      ensures Valid() && users == [] && posts == [] && cache == map[]
    {
      users, posts, cache, issued := [], [], map[], {};
    }

    /** A key reaches the end of its time to live. */
    method Expire(key: string)
      requires Valid()
      modifies this`cache
      ensures Valid() && cache == old(cache) - {key}
    {
      hide UsersCoherent, PostsCoherent, StatsCoherent;
      LessIsCoherent(cache, cache - {key}, users, posts);
      cache := cache - {key};
    }

    method CacheDeletePrefix(prefix: string)
      modifies this`cache
      ensures cache == WithoutPrefix(old(cache), prefix)
    {
      hide HasPrefix;
      var found := set key | key in cache && HasPrefix(key, prefix);
      while found != {}
        invariant found <= cache.Keys && forall key :: key in found ==> HasPrefix(key, prefix)
        invariant forall key :: key in cache ==> key in old(cache) && cache[key] == old(cache)[key]
        invariant forall key :: key in old(cache) && (key in found || !HasPrefix(key, prefix)) ==> key in cache
        invariant forall key :: key in cache && HasPrefix(key, prefix) ==> key in found
        decreases |found|
      {
        var key :| key in found;
        cache := cache - {key};
        found := found - {key};
      }
    }

    method InvalidateUsersCache()
      modifies this`cache
      ensures UsersCoherent(cache, users)
      ensures old(PostsCoherent(cache, posts)) ==> PostsCoherent(cache, posts)
      ensures old(StatsCoherent(cache, users, posts)) ==> StatsCoherent(cache, users, posts)
      ensures forall key :: key in cache ==> key in old(cache) && cache[key] == old(cache)[key]
    {
      hide UsersCoherent, PostsCoherent, StatsCoherent, HasPrefix;
      LessIsCoherent(cache, WithoutPrefix(cache, USERS), users, posts);
      UsersDropped(cache, users);
      CacheDeletePrefix(USERS);
    }

    method InvalidatePostsCache()
      modifies this`cache
      ensures PostsCoherent(cache, posts) && StatsCoherent(cache, users, posts)
      ensures old(UsersCoherent(cache, users)) ==> UsersCoherent(cache, users)
    {
      hide UsersCoherent, PostsCoherent, StatsCoherent, HasPrefix;
      LessIsCoherent(cache, WithoutPrefix(cache, POSTS), users, posts);
      PostsDropped(cache, posts);
      CacheDeletePrefix(POSTS);
      LessIsCoherent(cache, WithoutPrefix(cache, STATS), users, posts);
      StatsDropped(cache, users, posts);
      CacheDeletePrefix(STATS);
    }

    /**
      * Reads return what the database holds. The literal login "None" is answered from the key of the
      * absent login, and spoils that key exactly when it is stored there and the answers differ.
      */
    method GetUsers(login: Option<string>, minAge: Option<int>) returns (r: Value, hit: bool)
      requires Valid()
      modifies this`cache
      ensures hit == (UsersKey(login, minAge) in old(cache))
      ensures login != NONE ==> r == UsersValue(FindUsers(users, login, minAge))
      ensures login == NONE ==> r == UsersValue(FindUsers(users, if hit then None else login, minAge))
      ensures cache == if hit then old(cache) else old(cache)[UsersKey(login, minAge) := r]
      ensures Valid() <==> login != NONE || hit || FindUsers(users, NONE, minAge) == FindUsers(users, None, minAge)
    {
      hide UsersKey, PostsKey, FindUsers, FindPosts, Stats, PostsCoherent, StatsCoherent, AuthorsIssued;
      var key := UsersKey(login, minAge);
      if login == NONE {
        SharedUsersKey(minAge);
      }
      if key in cache {
        return cache[key], true;
      }
      var found := FindUsers(users, login, minAge);
      UsersStored(cache, users, posts, login, minAge, found);
      cache := cache[key := UsersValue(found)];
      r, hit := UsersValue(found), false;
    }

    /**
      * The cache is asked before the author is checked, so that an author which is no id is a bad
      * request only if its key is not cached.
      */
    method GetPosts(author: Option<string>, tag: Option<string>) returns (r: Reply<Value>, hit: bool)
      requires Valid()
      modifies this`cache
      ensures hit == (PostsKey(author, tag) in old(cache))
      ensures AuthorOk(author) && tag != NONE ==> r == Ok(PostsValue(FindPosts(posts, author, tag)))
      ensures AuthorOk(author) && tag == NONE ==>
                r == Ok(PostsValue(FindPosts(posts, author, if hit then None else tag)))
      ensures !AuthorOk(author) ==> cache == old(cache)
      ensures !AuthorOk(author) ==> r == if hit then Ok(old(cache)[PostsKey(author, tag)]) else BadRequest
      ensures AuthorOk(author) ==> cache == if hit then old(cache) else old(cache)[PostsKey(author, tag) := r.value]
      ensures Valid() <==>
                || !AuthorOk(author) || tag != NONE || hit
                || FindPosts(posts, author, NONE) == FindPosts(posts, author, None)
    {
      hide UsersKey, PostsKey, FindUsers, FindPosts, Stats, UsersCoherent, StatsCoherent, AuthorsIssued, AuthorOk;
      var key := PostsKey(author, tag);
      if tag == NONE {
        SharedPostsKey(author);
      }
      if key in cache {
        return Ok(cache[key]), true;
      }
      if !AuthorOk(author) {
        return BadRequest, false;
      }
      var found := FindPosts(posts, author, tag);
      PostsStored(cache, users, posts, author, tag, found);
      cache := cache[key := PostsValue(found)];
      r, hit := Ok(PostsValue(found)), false;
    }

    method PostsByUsers() returns (r: Value, hit: bool)
      requires Valid()
      modifies this`cache
      ensures Valid() && hit == (STATS_KEY in old(cache))
      ensures r == StatsValue(Stats(users, posts))
      ensures cache == old(cache)[STATS_KEY := r]
    {
      hide UsersCoherent, PostsCoherent, Stats, AuthorsIssued;
      if STATS_KEY in cache {
        assert cache == cache[STATS_KEY := cache[STATS_KEY]];
        return cache[STATS_KEY], true;
      }
      StatsStored(cache, users, posts);
      r, hit := StatsValue(Stats(users, posts)), false;
      cache := cache[STATS_KEY := r];
    }

    /** Only the users keys are dropped: nothing else can mention an id that was never issued. */
    method CreateUser(u: User, refused: bool) returns (r: Reply<User>)
      requires Valid() && u.id !in issued
      modifies this`users, this`cache, this`issued
      ensures Valid()
      ensures refused ==> r == BadRequest && users == old(users) && cache == old(cache) && issued == old(issued)
      ensures !refused ==> r == Ok(u) && users == old(users) + [u] && issued == old(issued) + {u.id}
      ensures !refused ==> forall key :: key in cache ==> key in old(cache) && cache[key] == old(cache)[key]
    {
      hide UsersCoherent, PostsCoherent, FindUsers;
      if refused {
        return BadRequest;
      }
      NewUserNotInStats(users, posts, issued, u);
      users := users + [u];
      issued := issued + {u.id};
      InvalidateUsersCache();
      r := Ok(u);
    }

    method UpdateUser(userId: string, change: UserChange) returns (r: Reply<()>)
      requires Valid()
      modifies this`users, this`cache
      ensures Valid()
      ensures r == if change == UserChange(None, None, None, None) || !IsValidId(userId) then BadRequest
                   else if HasUser(old(users), Oid(userId)) then Ok(()) else NotFound
      ensures users == if r.Ok? then WithUser(old(users), Oid(userId), change) else old(users)
      ensures r.Ok? ==> exists i, u :: FirstUser(old(users), Oid(userId), i) && Merged(old(users)[i], change, u)
                                       && users == old(users)[i := u]
    {
      hide UsersCoherent, PostsCoherent, StatsCoherent, WithUser, Oid, FirstUser, Merged, Changed;
      if change == UserChange(None, None, None, None) {
        return BadRequest;
      }
      if !IsValidId(userId) {
        return BadRequest;
      }
      var id := Oid(userId);
      if !HasUser(users, id) {
        return NotFound;
      }
      UserIdsKept(users, id, change);
      ghost var i := FirstUserExists(users, id);
      WithUserAt(users, id, change, i);
      FirstUserInside(users, id, i);
      ChangedIsMerged(users[i], change);
      users := WithUser(users, id, change);
      InvalidateUsersCache();
      InvalidatePostsCache();
      r := Ok(());
    }

    method DeleteUser(userId: string) returns (r: Reply<()>)
      requires Valid()
      modifies this`users, this`cache
      ensures Valid()
      ensures r == if !IsValidId(userId) then BadRequest
                   else if HasUser(old(users), Oid(userId)) then Ok(()) else NotFound
      ensures r.Ok? ==> exists i :: FirstUser(old(users), Oid(userId), i)
                                    && users == old(users)[..i] + old(users)[i + 1..]
      ensures !r.Ok? ==> users == old(users)
    {
      hide UsersCoherent, PostsCoherent, StatsCoherent, WithoutUser, Oid;
      if !IsValidId(userId) {
        return BadRequest;
      }
      var id := Oid(userId);
      if !HasUser(users, id) {
        return NotFound;
      }
      FewerUsers(users, id);
      ghost var i := FirstUserExists(users, id);
      WithoutUserAt(users, id, i);
      users := WithoutUser(users, id);
      InvalidateUsersCache();
      InvalidatePostsCache();
      r := Ok(());
    }

    method CreatePost(postId: ObjectId, author: string, content: string, tags: seq<string>, now: int)
      returns (r: Reply<Post>)
      requires Valid()
      modifies this`posts, this`cache
      ensures Valid()
      ensures r == if !IsValidId(author) then BadRequest
                   else if HasUser(users, Oid(author)) then Ok(Post(postId, Oid(author), content, tags, [], [], now))
                   else NotFound
      ensures r.Ok? ==> posts == old(posts) + [r.value]
      ensures !r.Ok? ==> posts == old(posts)
    {
      hide UsersCoherent, PostsCoherent, StatsCoherent, Oid;
      if !IsValidId(author) {
        return BadRequest;
      }
      var id := Oid(author);
      if !HasUser(users, id) {
        return NotFound;
      }
      var post := Post(postId, id, content, tags, [], [], now);
      posts := posts + [post];
      InvalidatePostsCache();
      r := Ok(post);
    }

    /** The writes to one post: like_post, unlike_post and add_comment. */
    method ChangePost(postId: string, userId: string, action: Action) returns (r: Reply<()>)
      requires Valid()
      modifies this`posts, this`cache
      ensures Valid()
      ensures r == if !IsValidId(postId) || !IsValidId(userId) then BadRequest
                   else if HasPost(old(posts), Oid(postId)) then Ok(()) else NotFound
      ensures posts == if r.Ok? then WithPost(old(posts), Oid(postId), By(Oid(userId), action)) else old(posts)
      ensures r.Ok? ==> exists i, p :: FirstPost(old(posts), Oid(postId), i)
                                       && PostAfter(old(posts)[i], Oid(userId), action, p)
                                       && posts == old(posts)[i := p]
    {
      hide UsersCoherent, PostsCoherent, StatsCoherent, WithPost, Oid, By, ChangedPost, FirstPost, PostAfter;
      if !IsValidId(postId) || !IsValidId(userId) {
        return BadRequest;
      }
      var id := Oid(postId);
      if !HasPost(posts, id) {
        return NotFound;
      }
      var change := By(Oid(userId), action);
      AuthorsKept(posts, id, change, issued);
      ghost var i := FirstPostExists(posts, id);
      WithPostAt(posts, id, change, i);
      ChangedPostAfter(posts[i], Oid(userId), action);
      posts := WithPost(posts, id, change);
      InvalidatePostsCache();
      r := Ok(());
    }
  }

  lemma {:induction false} UserIdsKept(users: seq<User>, id: ObjectId, c: UserChange)
    ensures forall u :: u in WithUser(users, id, c) ==> exists v :: v in users && v.id == u.id
  {
    if users != [] && users[0].id != id { UserIdsKept(users[1..], id, c); }
  }

  lemma {:induction false} FewerUsers(users: seq<User>, id: ObjectId)
    ensures forall u :: u in WithoutUser(users, id) ==> u in users
  {
    if users != [] && users[0].id != id { FewerUsers(users[1..], id); }
  }

  lemma {:induction false} AuthorsKept(posts: seq<Post>, id: ObjectId, c: PostChange, issued: set<ObjectId>)
    requires AuthorsIssued(posts, issued)
    ensures AuthorsIssued(WithPost(posts, id, c), issued)
  {
    if posts != [] {
      assert posts[0] in posts;
      if posts[0].id != id { AuthorsKept(posts[1..], id, c, issued); }
    }
  }

  // ---- writes change one document and nothing else -----------------------

  /** A like counts once, and taking it back leaves no like of that user. */
  lemma {:induction false} RemoveAll(ids: seq<ObjectId>, id: ObjectId)
    ensures id !in Remove(ids, id)
    ensures forall x :: x != id ==> (x in Remove(ids, id) <==> x in ids)
  {
    if ids != [] { RemoveAll(ids[..|ids| - 1], id); }
  }

  lemma LikeThenUnlike(p: Post, user: ObjectId)
    requires user !in p.likes
    ensures ChangedPost(ChangedPost(p, Like(user)), Like(user)) == ChangedPost(p, Like(user))
    ensures ChangedPost(ChangedPost(p, Like(user)), Unlike(user)) == p
  {
    RemoveNothing(p.likes, user);
    assert (p.likes + [user])[..|p.likes|] == p.likes;
  }

  lemma {:induction false} RemoveNothing(ids: seq<ObjectId>, id: ObjectId)
    requires id !in ids
    ensures Remove(ids, id) == ids
  {
    if ids != [] { RemoveNothing(ids[..|ids| - 1], id); }
  }
}
