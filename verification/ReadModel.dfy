/** The read-model consumer: at-least-once delivery, de-duplicated through processed_events. */
module ReadModel {
  import opened Options

  datatype Value = Value(text: string)

  /** A decoded event; any key may be missing. A payload that is not an object has no fields. */
  datatype Event = Event(
    id: Option<Value>,
    kind: Option<string>,
    payload: Option<map<string, Value>>,
    occurredAt: Option<Value>,
    producer: Option<Value>)

  /** A message body: `json.loads` fails, or the body is not an object, or there is an event. */
  datatype Body = NotAnEvent | Json(event: Event)

  /** A document of processed_events, without its id. */
  datatype Record = Record(kind: string, occurredAt: Value, producer: Value, payload: map<string, Value>)

  datatype UserDoc = UserDoc(
    login: Option<Value>,
    email: Option<Value>,
    postsCount: Option<nat>,
    messagesSent: Option<nat>,
    likesReceived: Option<nat>,
    commentsCount: Option<nat>)

  datatype PostDoc = PostDoc(likesCount: Option<nat>, commentsCount: Option<nat>)

  /** One number the views keep. */
  datatype Counter = UserPosts(key: Value) | UserMessages(key: Value) | PostLikes(key: Value) | PostComments(key: Value)

  /** Where a delivery breaks off: an exception from a driver, a crash, or a lost acknowledgement. */
  datatype Fault = NoFault | BeforeRecord | AfterRecord | AfterView

  predicate WellFormed(b: Body) {
    && b.Json? && b.event.id.Some? && b.event.kind.Some? && b.event.payload.Some?
    && b.event.occurredAt.Some? && b.event.producer.Some?
  }

  /** What `process_event` needs before it looks for a duplicate. */
  predicate Named(b: Body) { b.Json? && b.event.id.Some? && b.event.kind.Some? && b.event.payload.Some? }

  /** The payload has every field that the view update of its kind reads. */
  predicate Complete(r: Record) {
    match r.kind
    case "UserCreated" => "user_id" in r.payload && "login" in r.payload && "email" in r.payload
    case "PostCreated" => "author_id" in r.payload
    case "MessageSent" => "from_user_id" in r.payload
    case "PostLiked" => "post_id" in r.payload
    case "CommentAdded" => "post_id" in r.payload
    case _ => true
  }

  /** A delivery that inserts into processed_events. */
  predicate Records(b: Body, recorded: map<Value, Record>, fault: Fault) {
    WellFormed(b) && b.event.id.value !in recorded && !fault.BeforeRecord?
  }

  function WithRecord(recorded: map<Value, Record>, b: Body, fault: Fault): map<Value, Record> {
    if Records(b, recorded, fault) then recorded[b.event.id.value := RecordOf(b.event)] else recorded
  }

  /** The id whose view update a delivery skips although it was recorded. */
  function Dropped(recorded: map<Value, Record>, b: Body, fault: Fault): set<Value> {
    if Records(b, recorded, fault) && fault.AfterRecord? then {b.event.id.value} else {}
  }

  /** A delivery that is acknowledged. */
  predicate Acknowledged(b: Body, recorded: map<Value, Record>, fault: Fault) {
    && fault.NoFault? && Named(b)
    && (b.event.id.value in recorded || (WellFormed(b) && Complete(RecordOf(b.event))))
  }

  lemma Outcomes(recorded: map<Value, Record>, b: Body, fault: Fault)
    ensures b.NotAnEvent? ==> !Records(b, recorded, fault) && !Acknowledged(b, recorded, fault)
                              && WithRecord(recorded, b, fault) == recorded && Dropped(recorded, b, fault) == {}
    ensures Acknowledged(b, recorded, fault) ==> Named(b) && b.event.id.value in WithRecord(recorded, b, fault)
  {
  }

  lemma OutcomesInFull(recorded: map<Value, Record>, b: Body, fault: Fault)
    ensures Acknowledged(b, recorded, fault) <==>
            && fault.NoFault? && b.Json? && b.event.id.Some? && b.event.kind.Some? && b.event.payload.Some?
            && (b.event.id.value in recorded
                || (b.event.occurredAt.Some? && b.event.producer.Some? && Complete(RecordOf(b.event))))
    ensures WithRecord(recorded, b, fault).Keys == recorded.Keys +
            if b.Json? && b.event.id.Some? && b.event.kind.Some? && b.event.payload.Some?
               && b.event.occurredAt.Some? && b.event.producer.Some? && !fault.BeforeRecord?
            then {b.event.id.value} else {}
  {
  }

  function RecordOf(e: Event): Record
    requires WellFormed(Json(e))
  {
    Record(e.kind.value, e.occurredAt.value, e.producer.value, e.payload.value)
  }

  /** The body that a record was made from. */
  function BodyOf(id: Value, r: Record): Body {
    Json(Event(Some(id), Some(r.kind), Some(r.payload), Some(r.occurredAt), Some(r.producer)))
  }

  function Field(payload: map<string, Value>, name: string): Option<Value> {
    if name in payload then Some(payload[name]) else None
  }

  /** The counter an event stands for, if it names one. */
  function Target(r: Record): Option<Counter> {
    if r.kind == "PostCreated" then
      match Field(r.payload, "author_id") case Some(u) => Some(UserPosts(u)) case None => None
    else if r.kind == "MessageSent" then
      match Field(r.payload, "from_user_id") case Some(u) => Some(UserMessages(u)) case None => None
    else if r.kind == "PostLiked" then
      match Field(r.payload, "post_id") case Some(p) => Some(PostLikes(p)) case None => None
    else if r.kind == "CommentAdded" then
      match Field(r.payload, "post_id") case Some(p) => Some(PostComments(p)) case None => None
    else None
  }

  /** Each kind of event raises the counter of its own, at the key that its payload names. */
  lemma TargetByKind(r: Record, key: Value)
    ensures Target(r) == Some(UserPosts(key)) <==>
            r.kind == "PostCreated" && "author_id" in r.payload && r.payload["author_id"] == key
    ensures Target(r) == Some(UserMessages(key)) <==>
            r.kind == "MessageSent" && "from_user_id" in r.payload && r.payload["from_user_id"] == key
    ensures Target(r) == Some(PostLikes(key)) <==>
            r.kind == "PostLiked" && "post_id" in r.payload && r.payload["post_id"] == key
    ensures Target(r) == Some(PostComments(key)) <==>
            r.kind == "CommentAdded" && "post_id" in r.payload && r.payload["post_id"] == key
  {
  }

  /** The user document that an event is about, if any. */
  function UserTouched(r: Record): Option<Value> {
    match r.kind
    case "UserCreated" => Field(r.payload, "user_id")
    case "PostCreated" => Field(r.payload, "author_id")
    case "MessageSent" => Field(r.payload, "from_user_id")
    case _ => None
  }

  function OrZero(n: Option<nat>): nat { if n.Some? then n.value else 0 }

  const NO_USER := UserDoc(None, None, None, None, None, None)
  const NEW_USER := UserDoc(None, None, Some(0), Some(0), Some(0), Some(0))
  const NO_POST := PostDoc(None, None)

  function UserOf(users: map<Value, UserDoc>, key: Value): UserDoc { if key in users then users[key] else NO_USER }

  function PostOf(posts: map<Value, PostDoc>, key: Value): PostDoc { if key in posts then posts[key] else NO_POST }

  /** The number a reader of the views sees; a missing document or field reads as zero. */
  function Count(users: map<Value, UserDoc>, posts: map<Value, PostDoc>, c: Counter): nat {
    match c
    case UserPosts(u) => OrZero(UserOf(users, u).postsCount)
    case UserMessages(u) => OrZero(UserOf(users, u).messagesSent)
    case PostLikes(p) => OrZero(PostOf(posts, p).likesCount)
    case PostComments(p) => OrZero(PostOf(posts, p).commentsCount)
  }

  /** The recorded events that stand for `c`. */
  function Recorded(recorded: map<Value, Record>, c: Counter): set<Value> {
    set id | id in recorded && Target(recorded[id]) == Some(c)
  }

  // ---- invariants ---------------------------------------------------------

  /** Nothing well-formed that was published has vanished, and nothing was recorded out of thin air. */
  ghost predicate NothingVanished(published: set<Body>, queue: multiset<Body>, recorded: map<Value, Record>) {
    && (forall b :: b in published && b !in queue ==> b.Json? && b.event.id.Some? && b.event.id.value in recorded)
    && (forall b :: b in queue ==> b in published)
    && (forall id :: id in recorded ==> BodyOf(id, recorded[id]) in published)
  }

  lemma VanishedNotOneMore(published: set<Body>, queue: multiset<Body>, recorded: map<Value, Record>, e: Event)
    requires NothingVanished(published, queue, recorded)
    requires WellFormed(Json(e)) && Json(e) in published && e.id.value !in recorded
    ensures NothingVanished(published, queue, recorded[e.id.value := RecordOf(e)])
  {
    assert BodyOf(e.id.value, RecordOf(e)) == Json(e);
  }

  lemma QueuedIsPublished(published: set<Body>, queue: multiset<Body>, recorded: map<Value, Record>, b: Body)
    requires NothingVanished(published, queue, recorded) && b in queue
    ensures b in published
  {
  }

  lemma Settled(published: set<Body>, queue: multiset<Body>, recorded: map<Value, Record>, b: Body)
    requires NothingVanished(published, queue, recorded) && b in queue
    requires Named(b) && b.event.id.value in recorded
    ensures NothingVanished(published, queue - multiset{b}, recorded)
  {
  }

  /** Every counter is the number of recorded events for it that were not lost. */
  ghost predicate Exact(users: map<Value, UserDoc>, posts: map<Value, PostDoc>,
                        recorded: map<Value, Record>, lost: set<Value>)
  {
    forall c :: Count(users, posts, c) == |Recorded(recorded, c) - lost|
  }

  lemma RecordedOneMore(recorded: map<Value, Record>, lost: set<Value>, id: Value, r: Record, c: Counter)
    requires id !in recorded && lost <= recorded.Keys
    ensures Recorded(recorded[id := r], c) - lost - {id} == Recorded(recorded, c) - lost
    ensures |Recorded(recorded[id := r], c) - lost|
            == |Recorded(recorded, c) - lost| + if Target(r) == Some(c) then 1 else 0
  {
    hide Target, Recorded;
    RecordedWith(recorded, id, r, c);
    RecordedOnly(recorded, c);
    FreshElement(Recorded(recorded, c), lost, id);
  }

  lemma FreshElement(s: set<Value>, lost: set<Value>, id: Value)
    requires id !in s && id !in lost
    ensures s + {id} - lost == s - lost + {id} && |s + {id} - lost| == |s - lost| + 1
    ensures s + {id} - lost - {id} == s - lost == s - lost - {id} == s + {} - lost - {id}
    ensures |s + {} - lost| == |s - lost|
  {
    assert s + {} == s;
  }

  lemma RecordedOnly(recorded: map<Value, Record>, c: Counter)
    ensures Recorded(recorded, c) <= recorded.Keys
  {
  }

  lemma RecordedWith(recorded: map<Value, Record>, id: Value, r: Record, c: Counter)
    requires id !in recorded
    ensures Recorded(recorded[id := r], c) == Recorded(recorded, c) + if Target(r) == Some(c) then {id} else {}
  {
    hide Target;
  }

  /** Recording an event and either adding one to its counter or losing it keeps the counters exact. */
  lemma ExactOneMore(users: map<Value, UserDoc>, posts: map<Value, PostDoc>,
                     users': map<Value, UserDoc>, posts': map<Value, PostDoc>,
                     recorded: map<Value, Record>, lost: set<Value>, id: Value, r: Record, counted: bool)
    requires id !in recorded && lost <= recorded.Keys
    requires Exact(users, posts, recorded, lost)
    requires forall c :: Count(users', posts', c) ==
                         Count(users, posts, c) + if counted && Target(r) == Some(c) then 1 else 0
    ensures Exact(users', posts', recorded[id := r], if counted then lost else lost + {id})
  {
    hide Count, Target;
    var lost' := if counted then lost else lost + {id};
    forall c ensures Count(users', posts', c) == |Recorded(recorded[id := r], c) - lost'| {
      RecordedOneMore(recorded, lost, id, r, c);
      assert Recorded(recorded[id := r], c) - (lost + {id}) == Recorded(recorded[id := r], c) - lost - {id};
    }
  }

  /** No update ever raises the two counters that user documents only initialise. */
  ghost predicate Quiet(users: map<Value, UserDoc>) {
    forall u :: u in users ==> OrZero(users[u].likesReceived) == 0 == OrZero(users[u].commentsCount)
  }

  /** A step of the view, as seen by a reader of the counters. */
  ghost predicate Counts(users: map<Value, UserDoc>, posts: map<Value, PostDoc>,
                         users': map<Value, UserDoc>, posts': map<Value, PostDoc>, target: Option<Counter>)
  {
    forall c :: Count(users', posts', c) == Count(users, posts, c) + if target == Some(c) then 1 else 0
  }

  /** What an update of the view does, kind by kind; without a needed field it fails and does nothing. */
  ghost predicate Viewed(r: Record, users: map<Value, UserDoc>, posts: map<Value, PostDoc>,
                         users': map<Value, UserDoc>, posts': map<Value, PostDoc>, ok: bool)
  {
    var p := r.payload;
    if r.kind == "UserCreated" then
      && posts' == posts
      && (ok <==> "user_id" in p && "login" in p && "email" in p)
      && users' == if !ok then users else
                     users[p["user_id"] :=
                             (if p["user_id"] in users then users[p["user_id"]] else NEW_USER).(
                             login := Some(p["login"]), email := Some(p["email"]))]
    else if r.kind == "PostCreated" then
      && posts' == posts
      && (ok <==> "author_id" in p)
      && users' == if !ok then users else
                     var doc := UserOf(users, p["author_id"]);
                     users[p["author_id"] := doc.(postsCount := Some(OrZero(doc.postsCount) + 1))]
    else if r.kind == "MessageSent" then
      && posts' == posts
      && (ok <==> "from_user_id" in p)
      && users' == if !ok then users else
                     var doc := UserOf(users, p["from_user_id"]);
                     users[p["from_user_id"] := doc.(messagesSent := Some(OrZero(doc.messagesSent) + 1))]
    else if r.kind == "PostLiked" then
      && users' == users
      && (ok <==> "post_id" in p)
      && posts' == if !ok then posts else
                     var doc := PostOf(posts, p["post_id"]);
                     posts[p["post_id"] := doc.(likesCount := Some(OrZero(doc.likesCount) + 1))]
    else if r.kind == "CommentAdded" then
      && users' == users
      && (ok <==> "post_id" in p)
      && posts' == if !ok then posts else
                     var doc := PostOf(posts, p["post_id"]);
                     posts[p["post_id"] := doc.(commentsCount := Some(OrZero(doc.commentsCount) + 1))]
    else ok && users' == users && posts' == posts
  }

  /** Seen by the readers of counters: one goes up, if the event names one, and nothing else moves. */
  lemma ViewedMeans(r: Record, users: map<Value, UserDoc>, posts: map<Value, PostDoc>,
                    users': map<Value, UserDoc>, posts': map<Value, PostDoc>, ok: bool)
    requires Viewed(r, users, posts, users', posts', ok)
    ensures Counts(users, posts, users', posts', Target(r))
  {
  }

  lemma ViewedFrames(r: Record, users: map<Value, UserDoc>, posts: map<Value, PostDoc>,
                     users': map<Value, UserDoc>, posts': map<Value, PostDoc>, ok: bool)
    requires Viewed(r, users, posts, users', posts', ok)
    ensures Quiet(users) ==> Quiet(users')
    ensures users.Keys <= users'.Keys && posts.Keys <= posts'.Keys
    ensures forall u :: u in users' && Some(u) != UserTouched(r) ==> u in users && users'[u] == users[u]
    ensures ok <==> Complete(r)
    ensures Target(r).None? && (!ok || r.kind != "UserCreated") ==> users' == users && posts' == posts
    ensures !ok ==> Target(r).None?
    ensures r.kind == "UserCreated" && ok ==>
              var u := r.payload["user_id"];
              && u in users'
              && users'[u] == (if u in users then users[u] else NEW_USER).(
                               login := Field(r.payload, "login"), email := Field(r.payload, "email"))
  {
  }

  class Consumer {
    /** Messages held by the broker, the unacknowledged one included. */
    var queue: multiset<Body>
    /** The collection processed_events. */
    var recorded: map<Value, Record>
    var users: map<Value, UserDoc>
    var posts: map<Value, PostDoc>
    ghost var published: set<Body>
    /** Ids interrupted between record and view update. */
    ghost var lost: set<Value>
    ghost var interruptions: nat

    ghost predicate Valid()
      reads this
    {
      && NothingVanished(published, queue, recorded)
      && Exact(users, posts, recorded, lost)
      && lost <= recorded.Keys && |lost| <= interruptions
      && Quiet(users)
    }

    constructor ()
      ensures Valid() && published == {} && interruptions == 0 && recorded == map[] && lost == {} && queue == multiset{}
    {
      queue, recorded, users, posts := multiset{}, map[], map[], map[];
      published, lost, interruptions := {}, {}, 0;
      new;
      forall c ensures Count(users, posts, c) == |Recorded(recorded, c) - lost| {
        assert Recorded(recorded, c) == {};
      }
    }

    /** A producer publishes, possibly something published before. */
    method Publish(b: Body)
      requires Valid()
      modifies this`queue, this`published
      ensures Valid() && published == old(published) + {b} && queue == old(queue) + multiset{b}
    {
      queue := queue + multiset{b};
      published := published + {b};
    }

    /** The five kinds of view update; false is a KeyError for a missing payload field. */
    method UpdateView(r: Record) returns (ok: bool)
      modifies this`users, this`posts
      ensures Counts(old(users), old(posts), users, posts, Target(r))
      ensures Quiet(old(users)) ==> Quiet(users)
      ensures old(users).Keys <= users.Keys && old(posts).Keys <= posts.Keys
      ensures r.kind == "UserCreated" && Complete(r) ==>
                var u := r.payload["user_id"];
                && u in users
                && users[u] == (if u in old(users) then old(users)[u] else NEW_USER).(
                                login := Field(r.payload, "login"), email := Field(r.payload, "email"))
      ensures forall u :: u in users && Some(u) != UserTouched(r) ==> u in old(users) && users[u] == old(users)[u]
      ensures ok && Target(r).None? && r.kind != "UserCreated" ==> users == old(users) && posts == old(posts)
      ensures ok <==> Complete(r)
      ensures !ok ==> Target(r).None? && users == old(users) && posts == old(posts)
      ensures Viewed(r, old(users), old(posts), users, posts, ok)
    {
      hide Counts, Quiet, Target, Complete, UserTouched;
      ghost var users0, posts0 := users, posts;
      var p := r.payload;
      ok := true;
      if r.kind == "UserCreated" {
        if "user_id" in p && "login" in p && "email" in p {
          var u := p["user_id"];
          var doc := if u in users then users[u] else NEW_USER;
          users := users[u := doc.(login := Some(p["login"]), email := Some(p["email"]))];
        } else {
          ok := false;
        }
      } else if r.kind == "PostCreated" {
        if "author_id" in p {
          var doc := UserOf(users, p["author_id"]);
          users := users[p["author_id"] := doc.(postsCount := Some(OrZero(doc.postsCount) + 1))];
        } else {
          ok := false;
        }
      } else if r.kind == "MessageSent" {
        if "from_user_id" in p {
          var doc := UserOf(users, p["from_user_id"]);
          users := users[p["from_user_id"] := doc.(messagesSent := Some(OrZero(doc.messagesSent) + 1))];
        } else {
          ok := false;
        }
      } else if r.kind == "PostLiked" {
        if "post_id" in p {
          var doc := PostOf(posts, p["post_id"]);
          posts := posts[p["post_id"] := doc.(likesCount := Some(OrZero(doc.likesCount) + 1))];
        } else {
          ok := false;
        }
      } else if r.kind == "CommentAdded" {
        if "post_id" in p {
          var doc := PostOf(posts, p["post_id"]);
          posts := posts[p["post_id"] := doc.(commentsCount := Some(OrZero(doc.commentsCount) + 1))];
        } else {
          ok := false;
        }
      }
      ViewedMeans(r, users0, posts0, users, posts, ok);
      ViewedFrames(r, users0, posts0, users, posts, ok);
    }

    /** `process_event`, broken off at `fault`; true means that it returned, false that it raised. */
    method ProcessEvent(e: Event, fault: Fault) returns (ok: bool)
      requires Valid() && Json(e) in published
      modifies this`recorded, this`users, this`posts, this`lost, this`interruptions
      ensures Valid()
      ensures interruptions == old(interruptions) + if fault.NoFault? then 0 else 1
      ensures recorded == WithRecord(old(recorded), Json(e), fault)
      ensures lost == old(lost) + Dropped(old(recorded), Json(e), fault)
      ensures !Records(Json(e), old(recorded), fault) ==> users == old(users) && posts == old(posts)
      ensures ok <==> Acknowledged(Json(e), old(recorded), fault)
    {
      hide Exact, Count, Target, Recorded, NothingVanished, Quiet, Counts, RecordOf;
      if !fault.NoFault? {
        interruptions := interruptions + 1;
      }
      if e.id.None? || e.kind.None? || e.payload.None? || fault.BeforeRecord? {
        return false;
      }
      if e.id.value in recorded {
        return fault.NoFault?;
      }
      if e.occurredAt.None? || e.producer.None? {
        return false;
      }
      ok := RecordAndCount(e, fault);
    }

    method RecordAndCount(e: Event, fault: Fault) returns (ok: bool)
      requires Valid() && Json(e) in published && WellFormed(Json(e))
      requires e.id.value !in recorded && (fault.AfterRecord? ==> |lost| < interruptions)
      modifies this`recorded, this`users, this`posts, this`lost
      ensures Valid()
      ensures recorded == old(recorded)[e.id.value := RecordOf(e)]
      ensures lost == old(lost) + if fault.AfterRecord? then {e.id.value} else {}
      ensures fault.AfterRecord? ==> users == old(users) && posts == old(posts)
      ensures !fault.AfterRecord? ==> Counts(old(users), old(posts), users, posts, Target(RecordOf(e)))
      ensures ok <==> fault.NoFault? && Complete(RecordOf(e))
    {
      hide Exact, Count, Target, Recorded, NothingVanished, Quiet, RecordOf;
      ghost var users0, posts0, recorded0, lost0 := users, posts, recorded, lost;
      var r := RecordOf(e);
      recorded := recorded[e.id.value := r];
      VanishedNotOneMore(published, queue, recorded0, e);
      if fault.AfterRecord? {
        lost := lost + {e.id.value};
        ok := false;
      } else {
        ok := UpdateView(r);
        ok := ok && fault.NoFault?;
      }
      ExactOneMore(users0, posts0, users, posts, recorded0, lost0, e.id.value, r, !fault.AfterRecord?);
    }

    /** `callback`: acknowledge after a normal return, otherwise put the message back. */
    method Callback(b: Body, fault: Fault) returns (acked: bool)
      requires Valid() && b in queue
      modifies this
      ensures Valid() && published == old(published)
      ensures queue == if acked then old(queue) - multiset{b} else old(queue)
      ensures acked <==> Acknowledged(b, old(recorded), fault)
      ensures acked <==>
                && fault.NoFault? && b.Json? && b.event.id.Some? && b.event.kind.Some? && b.event.payload.Some?
                && (b.event.id.value in old(recorded)
                    || (b.event.occurredAt.Some? && b.event.producer.Some? && Complete(RecordOf(b.event))))
      ensures recorded.Keys == old(recorded).Keys +
                               if b.Json? && b.event.id.Some? && b.event.kind.Some? && b.event.payload.Some?
                                  && b.event.occurredAt.Some? && b.event.producer.Some? && !fault.BeforeRecord?
                               then {b.event.id.value} else {}
      ensures recorded == WithRecord(old(recorded), b, fault)
      ensures lost == old(lost) + Dropped(old(recorded), b, fault)
      ensures !Records(b, old(recorded), fault) ==> users == old(users) && posts == old(posts)
      ensures interruptions == old(interruptions) + if fault.NoFault? then 0 else 1
    {
      hide Exact, Count, Target, Recorded, Quiet, RecordOf, Complete, NothingVanished;
      hide WithRecord, Dropped, Acknowledged, Records;
      acked := false;
      Outcomes(recorded, b, fault);
      OutcomesInFull(recorded, b, fault);
      if !b.Json? && !fault.NoFault? {
        interruptions := interruptions + 1;
      }
      if b.Json? {
        assert b in published by { QueuedIsPublished(published, queue, recorded, b); }
        acked := ProcessEvent(b.event, fault);
        if acked {
          Settled(published, queue, recorded, b);
          queue := queue - multiset{b};
        }
      }
    }
  }

  // ---- what the invariant gives ------------------------------------------

  /** Counters never exceed the events recorded for them, and fall short by at most one per interruption. */
  lemma BoundedError(m: Consumer, c: Counter)
    requires m.Valid()
    ensures Count(m.users, m.posts, c) <= |Recorded(m.recorded, c)| <= Count(m.users, m.posts, c) + m.interruptions
  {
    hide Count, Recorded;
    var all := Recorded(m.recorded, c);
    CutBySome(all, m.lost);
  }

  lemma CutBySome(s: set<Value>, lost: set<Value>)
    ensures |s - lost| <= |s| <= |s - lost| + |lost|
  {
    assert s == (s - lost) + (s * lost);
    assert lost == (lost - s) + (s * lost);
  }

  /** No two well-formed published bodies share an id but differ. */
  ghost predicate IdsAreUnique(published: set<Body>) {
    forall a, b ::
      a in published && b in published && WellFormed(a) && WellFormed(b) && a.event.id == b.event.id ==> a == b
  }

  ghost predicate Drained(m: Consumer)
    reads m
  {
    forall b :: b in m.queue ==> !WellFormed(b)
  }

  /** A drained consumer has recorded exactly the well-formed events that were published. */
  lemma DrainedRecordsAll(m: Consumer, id: Value)
    requires m.Valid() && Drained(m) && IdsAreUnique(m.published)
    ensures id in m.recorded <==> exists b :: b in m.published && WellFormed(b) && b.event.id == Some(id)
    ensures forall b :: b in m.published && WellFormed(b) && b.event.id == Some(id) ==> BodyOf(id, m.recorded[id]) == b
  {
    hide Exact, Count, Recorded, Quiet;
    if id in m.recorded {
      assert WellFormed(BodyOf(id, m.recorded[id]));
    }
  }

  /** Two consumers of the same events agree, whatever the order, repetition and number of deliveries. */
  lemma OrderIndependent(m: Consumer, n: Consumer)
    requires m.Valid() && n.Valid() && Drained(m) && Drained(n)
    requires m.published == n.published && IdsAreUnique(m.published)
    requires m.lost == n.lost
    ensures m.recorded == n.recorded
    ensures forall c :: Count(m.users, m.posts, c) == Count(n.users, n.posts, c)
  {
    hide Count, Recorded, Quiet, NothingVanished, IdsAreUnique, Drained;
    forall id
      ensures id in m.recorded <==> id in n.recorded
      ensures id in m.recorded ==> m.recorded[id] == n.recorded[id]
    {
      DrainedRecordsAll(m, id);
      DrainedRecordsAll(n, id);
    }
  }

  lemma LostAlone(m: Consumer, id: Value)
    requires m.Valid() && m.recorded.Keys == m.lost == {id} && Target(m.recorded[id]).Some?
    ensures Count(m.users, m.posts, Target(m.recorded[id]).value) == 0
  {
    hide Count, Target;
    assert Recorded(m.recorded, Target(m.recorded[id]).value) - m.lost == {};
  }

  /** One interruption between record and view update loses a count for good. */
  method InterruptionLosesCount(b: Body) returns (m: Consumer)
    requires WellFormed(b) && Target(RecordOf(b.event)).Some?
    ensures m.Valid() && m.queue == multiset{} && m.interruptions == 1
    ensures Count(m.users, m.posts, Target(RecordOf(b.event)).value) == 0
    ensures b.event.id.value in m.recorded && m.recorded[b.event.id.value] == RecordOf(b.event)
  {
    hide Exact, Count, Target, Recorded, Quiet, RecordOf, Complete, NothingVanished;
    assert Named(b);
    m := new Consumer();
    m.Publish(b);
    var acked := m.Callback(b, AfterRecord);
    acked := m.Callback(b, NoFault);
    LostAlone(m, b.event.id.value);
  }
}
