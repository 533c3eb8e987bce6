/**
 * The task registry of the Telegram client: `active_tasks`, keyed by ids
 * drawn from `task_counter`, and the handlers that create, advance and
 * delete its records. Each handler is one atomic step; what Telegram, the
 * downloader and the allow-list file answer is passed in as parameters.
 */
module ClientBot {
  import opened Wrappers
  import opened Text
  import Utils
  import Downloader

  type Path = Downloader.Path

  // ---- Records ----

  datatype Stage = Info | Download | Upload

  /** The `action` field: 'forward', 'user', 'photos' or 'photos_forward'. */
  datatype Action = Forward | ToUser | Photos | PhotosForward

  /**
   * One value of `active_tasks`; the asyncio task and the status message
   * object are not modelled, only whether `video_info` has been stored.
   */
  datatype Task = Task(owner: int, url: string, stage: Stage, action: Option<Action>, hasVideoInfo: bool)

  function Rank(s: Stage): nat
  {
    match s
    case Info => 0
    case Download => 1
    case Upload => 2
  }

  /** A sequence of stage writes that never moves backwards. */
  predicate ForwardOnly(stages: seq<Stage>)
  {
    forall i :: 0 <= i < |stages| - 1 ==> Rank(stages[i]) < Rank(stages[i + 1])
  }

  predicate IsPending(t: Task, user: int)
  {
    t.stage == Info && t.owner == user
  }

  predicate HasLiveTask(tasks: map<nat, Task>, user: int, url: string)
  {
    exists id :: id in tasks && tasks[id].owner == user && tasks[id].url == url
  }

  /** The ids of `tasks` that `user` owns. */
  function OwnedBy(tasks: map<nat, Task>, user: int): set<nat>
  {
    set id | id in tasks && tasks[id].owner == user
  }

  // ---- Access checks ----

  /** TARGET_CHAT_ID after configuration: a numeric id, or a kept "@username" string. */
  datatype ChatTarget = ChatNumber(id: int) | ChatName(name: string)

  /**
   * `is_allowed_chat`: the chat is the target chat or the private chat with
   * the sender. A username target never equals an integer chat id.
   */
  function IsAllowedChat(target: ChatTarget, chatId: int, senderId: int): (r: bool)
    ensures chatId == senderId ==> r
    ensures target == ChatNumber(chatId) ==> r
    ensures target.ChatName? ==> (r <==> chatId == senderId)
    ensures r && chatId != senderId ==> target == ChatNumber(chatId)
  {
    var isTargetChat := match target
      case ChatNumber(id) => chatId == id
      case ChatName(_) => false;
    isTargetChat || chatId == senderId
  }

  /** `is_admin`: ADMIN_USER_ID is set, truthy and equal to the user. */
  function IsAdmin(admin: Option<int>, u: int): (r: bool)
    ensures r <==> u in Utils.AdminIds(admin)
    ensures r ==> admin == Some(u) && u != 0
  {
    admin.Some? && admin.value != 0 && u == admin.value
  }

  /** Whoever may manage users may also use the restricted commands. */
  lemma {:induction false} AdminIsAuthorized(admin: Option<int>, env: Utils.AllowlistSource, fileUsers: set<int>, u: int)
    requires IsAdmin(admin, u)
    ensures Utils.IsUserAllowed(admin, env, fileUsers, u)
  {
    Utils.AdminAlwaysAllowed(u, env, fileUsers);
  }

  // ---- Insertion order ----

  predicate Increasing(s: seq<nat>)
  {
    forall i, j :: 0 <= i < j < |s| ==> s[i] < s[j]
  }

  /** The order lists exactly the keys of the registry, each once and ascending. */
  ghost predicate Indexes(order: seq<nat>, tasks: map<nat, Task>)
  {
    Increasing(order) && forall id :: id in tasks <==> id in order
  }

  lemma ConsIncreasing(x: nat, t: seq<nat>)
    requires Increasing(t)
    requires forall y :: y in t ==> x < y
    ensures Increasing([x] + t)
  {
    var s := [x] + t;
    forall i, j | 0 <= i < j < |s| ensures s[i] < s[j] {
      assert s[j] == t[j - 1] && t[j - 1] in t;
      if i > 0 {
        assert s[i] == t[i - 1];
      }
    }
  }

  lemma SnocIncreasing(t: seq<nat>, x: nat)
    requires Increasing(t)
    requires forall y :: y in t ==> y < x
    ensures Increasing(t + [x])
  {
    var s := t + [x];
    forall i, j | 0 <= i < j < |s| ensures s[i] < s[j] {
      assert s[i] == t[i] && t[i] in t;
      if j < |t| {
        assert s[j] == t[j];
      }
    }
  }

  /** `s` without the ids in `r`, order kept. */
  function FilterOut(s: seq<nat>, r: set<nat>): (t: seq<nat>)
    ensures |t| <= |s|
  {
    if s == [] then []
    else (if s[0] in r then [] else [s[0]]) + FilterOut(s[1..], r)
  }

  lemma {:induction false} FilterOutMember(s: seq<nat>, r: set<nat>, x: nat)
    ensures x in FilterOut(s, r) <==> x in s && x !in r
  {
    if s != [] {
      FilterOutMember(s[1..], r, x);
      assert s == [s[0]] + s[1..];
    }
  }

  lemma {:induction false} FilterOutIncreasing(s: seq<nat>, r: set<nat>)
    requires Increasing(s)
    ensures Increasing(FilterOut(s, r))
  {
    if s != [] {
      var rest := s[1..];
      assert Increasing(rest);
      FilterOutIncreasing(rest, r);
      var t := FilterOut(rest, r);
      if s[0] !in r {
        forall y | y in t ensures s[0] < y {
          FilterOutMember(rest, r, y);
          var j :| 0 <= j < |rest| && rest[j] == y;
          assert s[j + 1] == y;
        }
        ConsIncreasing(s[0], t);
      } else {
        assert FilterOut(s, r) == t;
      }
    }
  }

  /** Storing a fresh id larger than every key and appending it keeps the order exact. */
  lemma AddKeepsIndexes(order: seq<nat>, tasks: map<nat, Task>, id: nat, t: Task)
    requires Indexes(order, tasks)
    requires forall k :: k in tasks ==> k < id
    ensures Indexes(order + [id], tasks[id := t])
  {
    SnocIncreasing(order, id);
  }

  /** Removing a set of records from the registry and from the order keeps them in step. */
  lemma RemoveKeepsIndexes(order: seq<nat>, tasks: map<nat, Task>, r: set<nat>)
    requires Indexes(order, tasks)
    ensures Indexes(FilterOut(order, r), tasks - r)
  {
    FilterOutIncreasing(order, r);
    forall id ensures id in tasks - r <==> id in FilterOut(order, r) {
      FilterOutMember(order, r, id);
    }
  }

  lemma {:induction false} FilterOutTwice(s: seq<nat>, a: set<nat>, b: set<nat>)
    ensures FilterOut(FilterOut(s, a), b) == FilterOut(s, a + b)
  {
    if s != [] {
      var rest := s[1..];
      FilterOutTwice(rest, a, b);
      var once := FilterOut(rest, a);
      if s[0] in a {
        assert FilterOut(s, a) == once;
      } else {
        assert FilterOut(s, a) == [s[0]] + once;
        assert ([s[0]] + once)[1..] == once;
      }
    }
  }

  lemma {:induction false} FilterOutNothing(s: seq<nat>)
    ensures FilterOut(s, {}) == s
  {
    if s != [] {
      FilterOutNothing(s[1..]);
      assert s == [s[0]] + s[1..];
    }
  }

  /** Popping an id that is not stored leaves the order alone. */
  lemma {:induction false} FilterOutAbsent(s: seq<nat>, id: nat)
    requires id !in s
    ensures FilterOut(s, {id}) == s
  {
    if s != [] {
      FilterOutAbsent(s[1..], id);
      assert s == [s[0]] + s[1..];
    }
  }

  /**
   * The `user_tasks` list of `/cancel`: the ids in `order` whose record
   * `user` owns, in iteration order.
   */
  function UserTasks(order: seq<nat>, tasks: map<nat, Task>, user: int): (r: seq<nat>)
    ensures |r| <= |order|
  {
    if order == [] then []
    else
      var last := order[|order| - 1];
      UserTasks(order[..|order| - 1], tasks, user)
      + (if last in tasks && tasks[last].owner == user then [last] else [])
  }

  lemma {:induction false} UserTasksMember(order: seq<nat>, tasks: map<nat, Task>, user: int, x: nat)
    ensures x in UserTasks(order, tasks, user) <==> x in order && x in tasks && tasks[x].owner == user
  {
    if order != [] {
      var init := order[..|order| - 1];
      UserTasksMember(init, tasks, user, x);
      assert order == init + [order[|order| - 1]];
    }
  }

  lemma {:induction false} UserTasksIncreasing(order: seq<nat>, tasks: map<nat, Task>, user: int)
    requires Increasing(order)
    ensures Increasing(UserTasks(order, tasks, user))
  {
    if order != [] {
      var init := order[..|order| - 1];
      var last := order[|order| - 1];
      assert Increasing(init);
      UserTasksIncreasing(init, tasks, user);
      var prefix := UserTasks(init, tasks, user);
      if last in tasks && tasks[last].owner == user {
        forall y | y in prefix ensures y < last {
          UserTasksMember(init, tasks, user, y);
          var j :| 0 <= j < |init| && init[j] == y;
          assert order[j] == y;
        }
        SnocIncreasing(prefix, last);
      } else {
        assert UserTasks(order, tasks, user) == prefix;
      }
    }
  }

  lemma MapMinusTwice(m: map<nat, Task>, a: set<nat>, b: set<nat>)
    ensures (m - a) - b == m - (a + b)
  {
  }

  /** The listed ids accepted by `ok`. */
  function Chosen(ids: seq<nat>, ok: nat -> bool): set<nat>
  {
    if ids == [] then {}
    else Chosen(ids[..|ids| - 1], ok) + (if ok(ids[|ids| - 1]) then {ids[|ids| - 1]} else {})
  }

  lemma {:induction false} ChosenMember(ids: seq<nat>, ok: nat -> bool, x: nat)
    ensures x in Chosen(ids, ok) <==> x in ids && ok(x)
  {
    if ids != [] {
      var init := ids[..|ids| - 1];
      ChosenMember(init, ok, x);
      assert ids == init + [ids[|ids| - 1]];
    }
  }

  lemma ChosenSnoc(ids: seq<nat>, ok: nat -> bool, k: nat)
    requires k < |ids|
    ensures ok(ids[k]) ==> Chosen(ids[..k + 1], ok) == Chosen(ids[..k], ok) + {ids[k]}
    ensures !ok(ids[k]) ==> Chosen(ids[..k + 1], ok) == Chosen(ids[..k], ok)
  {
    assert ids[..k + 1][..k] == ids[..k];
  }

  /**
   * The ids `/cancel` deletes: the listed tasks of `user` that pass `ok` are
   * exactly the records `user` owns that pass `ok`.
   */
  lemma CancelledSet(order: seq<nat>, tasks: map<nat, Task>, user: int, ok: nat -> bool)
    requires Indexes(order, tasks)
    ensures Increasing(UserTasks(order, tasks, user))
    ensures forall id :: id in UserTasks(order, tasks, user) ==> id in tasks
    ensures Chosen(UserTasks(order, tasks, user), ok) == (set id | id in OwnedBy(tasks, user) && ok(id))
  {
    var ids := UserTasks(order, tasks, user);
    UserTasksIncreasing(order, tasks, user);
    forall id | id in ids ensures id in tasks {
      UserTasksMember(order, tasks, user, id);
    }
    forall id ensures id in Chosen(ids, ok) <==> id in OwnedBy(tasks, user) && ok(id) {
      ChosenMember(ids, ok, id);
      UserTasksMember(order, tasks, user, id);
    }
  }

  function Elements(s: seq<nat>): set<nat>
  {
    set x | x in s
  }

  /** An increasing sequence has as many elements as distinct values. */
  lemma {:induction false} IncreasingCard(s: seq<nat>)
    requires Increasing(s)
    ensures |Elements(s)| == |s|
  {
    if s != [] {
      var rest := s[1..];
      IncreasingTail(s);
      IncreasingCard(rest);
      ElementsCons(s);
    }
  }

  lemma IncreasingTail(s: seq<nat>)
    requires Increasing(s) && s != []
    ensures Increasing(s[1..]) && s[0] !in s[1..]
  {
    var rest := s[1..];
    forall i, j | 0 <= i < j < |rest| ensures rest[i] < rest[j] {
      assert rest[i] == s[i + 1] && rest[j] == s[j + 1];
    }
    forall j | 0 <= j < |rest| ensures rest[j] != s[0] {
      assert rest[j] == s[j + 1];
    }
  }

  lemma ElementsCons(s: seq<nat>)
    requires s != [] && s[0] !in s[1..]
    ensures Elements(s) == {s[0]} + Elements(s[1..]) && s[0] !in Elements(s[1..])
  {
    assert s == [s[0]] + s[1..];
  }

  /**
   * When the order lists exactly the keys, the `/cancel` list has one entry
   * per task the user owns.
   */
  lemma UserTasksCount(order: seq<nat>, tasks: map<nat, Task>, user: int)
    requires Indexes(order, tasks)
    ensures |UserTasks(order, tasks, user)| == |OwnedBy(tasks, user)|
  {
    var r := UserTasks(order, tasks, user);
    UserTasksIncreasing(order, tasks, user);
    IncreasingCard(r);
    forall x ensures x in Elements(r) <==> x in OwnedBy(tasks, user) {
      UserTasksMember(order, tasks, user, x);
    }
    assert Elements(r) == OwnedBy(tasks, user);
  }

  // ---- Photo albums ----

  const ChunkSize: nat := 10

  function Min(a: int, b: int): int
  {
    if a <= b then a else b
  }

  /** `[s[i:i + 10] for i in range(0, len(s), 10)]`. */
  function Chunks<T>(s: seq<T>): (r: seq<seq<T>>)
    ensures |r| == (|s| + ChunkSize - 1) / ChunkSize
    decreases |s|
  {
    if s == [] then []
    else if |s| <= ChunkSize then [s]
    else [s[..ChunkSize]] + Chunks(s[ChunkSize..])
  }

  function Flatten<T>(ss: seq<seq<T>>): seq<T>
  {
    if ss == [] then [] else ss[0] + Flatten(ss[1..])
  }

  /** The chunks, in order, are the list again. */
  lemma {:induction false} ChunksCover<T>(s: seq<T>)
    ensures Flatten(Chunks(s)) == s
    decreases |s|
  {
    if s != [] {
      if |s| <= ChunkSize {
        assert Chunks(s)[1..] == [];
      } else {
        ChunksCover(s[ChunkSize..]);
        assert Chunks(s)[1..] == Chunks(s[ChunkSize..]);
        assert s == s[..ChunkSize] + s[ChunkSize..];
      }
    }
  }

  /** Every chunk holds between one and ten items. */
  lemma {:induction false} ChunkSizes<T>(s: seq<T>)
    ensures forall k :: 0 <= k < |Chunks(s)| ==> 1 <= |Chunks(s)[k]| <= ChunkSize
    decreases |s|
  {
    if |s| > ChunkSize {
      ChunkSizes(s[ChunkSize..]);
      forall k | 1 <= k < |Chunks(s)| ensures 1 <= |Chunks(s)[k]| <= ChunkSize {
        assert Chunks(s)[k] == Chunks(s[ChunkSize..])[k - 1];
      }
    }
  }

  /** Chunk `k` is the slice the sending loop takes at `i == 10 * k`. */
  lemma {:induction false} ChunkAt<T>(s: seq<T>, k: nat)
    requires k < |Chunks(s)|
    ensures ChunkSize * k < |s|
    ensures Chunks(s)[k] == s[ChunkSize * k..Min(ChunkSize * k + ChunkSize, |s|)]
    decreases |s|
  {
    if k == 0 {
      if |s| <= ChunkSize {
        assert s[0..|s|] == s;
      }
    } else {
      assert |s| > ChunkSize;
      var rest := s[ChunkSize..];
      ChunkAt(rest, k - 1);
      assert Chunks(s)[k] == Chunks(rest)[k - 1];
      var lo := ChunkSize * (k - 1);
      var hi := Min(lo + ChunkSize, |rest|);
      assert ChunkSize * k == lo + ChunkSize;
      assert hi + ChunkSize == Min(ChunkSize * k + ChunkSize, |s|);
      SliceShift(s, ChunkSize, lo, hi);
    }
  }

  lemma SliceShift<T>(s: seq<T>, d: nat, a: nat, b: nat)
    requires d <= |s| && a <= b <= |s| - d
    ensures s[d..][a..b] == s[a + d..b + d]
  {
  }

  /** One `send_file` call of the photo loop; only the first carries the caption. */
  datatype Album = Album(files: seq<Path>, captioned: bool)

  function Albums(images: seq<Path>): (r: seq<Album>)
    ensures |r| == |Chunks(images)|
  {
    var chunks := Chunks(images);
    seq(|chunks|, k requires 0 <= k < |chunks| => Album(chunks[k], k == 0))
  }

  /** Album `k` holds one to ten images, the `k`-th slice of ten, and is captioned iff it is the first. */
  lemma AlbumShape(images: seq<Path>, k: nat)
    requires k < |Albums(images)|
    ensures 1 <= |Albums(images)[k].files| <= ChunkSize
    ensures Albums(images)[k].files == images[ChunkSize * k..Min(ChunkSize * k + ChunkSize, |images|)]
    ensures Albums(images)[k].captioned <==> k == 0
  {
    ChunkSizes(images);
    ChunkAt(images, k);
  }

  /** The files of a run of albums, in sending order. */
  function AlbumFiles(albums: seq<Album>): seq<Path>
  {
    Flatten(seq(|albums|, k requires 0 <= k < |albums| => albums[k].files))
  }

  /** Sending every album delivers every image exactly once, in list order. */
  lemma AlbumsCover(images: seq<Path>)
    ensures AlbumFiles(Albums(images)) == images
  {
    var albums := Albums(images);
    assert seq(|albums|, k requires 0 <= k < |albums| => albums[k].files) == Chunks(images);
    ChunksCover(images);
  }

  /**
   * Whether the photo loop gets through chunk `k`: the record is still in
   * the registry at the loop's check (`keys(k)` are the keys it sees), the
   * chunk's progress edit goes through (it is status edit `k + 2` of the
   * command, and edits go through while their number is below `editsOk`),
   * and the chunk's `send_file` succeeds.
   */
  predicate ChunkGoes(id: nat, keys: nat -> set<nat>, editsOk: nat, sendOk: nat -> bool, k: nat)
  {
    id in keys(k) && k + 2 < editsOk && sendOk(k)
  }

  /** Index of the first of the `n` chunks the loop does not get through, or `n`. */
  function FirstStop(n: nat, id: nat, keys: nat -> set<nat>, editsOk: nat, sendOk: nat -> bool, k: nat): (r: nat)
    requires k <= n
    ensures k <= r <= n
    ensures forall j :: k <= j < r ==> ChunkGoes(id, keys, editsOk, sendOk, j)
    ensures r < n ==> !ChunkGoes(id, keys, editsOk, sendOk, r)
    decreases n - k
  {
    if k == n then n
    else if !ChunkGoes(id, keys, editsOk, sendOk, k) then k
    else FirstStop(n, id, keys, editsOk, sendOk, k + 1)
  }

  lemma ChunkCountBound(total: nat, k: nat)
    ensures ChunkSize * k < total <==> k < (total + ChunkSize - 1) / ChunkSize
  {
  }

  /**
   * The sending loop of the photo commands: `range(0, total, 10)`; per
   * slice the registry check (a missing record raises the cancel), the
   * progress edit, then one `send_file` with the caption only at `i == 0`.
   * The first chunk that is cancelled or whose edit or send raises ends
   * the loop; `cancelled` tells the cancel apart from the errors.
   */
  method SendAlbums(images: seq<Path>, id: nat, keys: nat -> set<nat>, editsOk: nat, sendOk: nat -> bool)
    returns (sent: seq<Album>, cancelled: bool)
    ensures var stop := FirstStop(|Albums(images)|, id, keys, editsOk, sendOk, 0);
            && sent == Albums(images)[..stop]
            && (cancelled <==> stop < |Albums(images)| && id !in keys(stop))
  {
    var total := |images|;
    ghost var albums := Albums(images);
    ghost var stop := FirstStop(|albums|, id, keys, editsOk, sendOk, 0);
    sent, cancelled := [], false;
    var i := 0;
    var k := 0;
    ChunkCountBound(total, k);
    while i < total
      invariant 0 <= k <= stop && i == ChunkSize * k
      invariant i < total <==> k < |albums|
      invariant sent == albums[..k]
      decreases total - i
    {
      if id !in keys(k) {
        assert !ChunkGoes(id, keys, editsOk, sendOk, k);
        cancelled := true;
        break;
      }
      ChunkAt(images, k);
      var chunk := images[i..Min(i + ChunkSize, total)];
      if editsOk <= k + 2 || !sendOk(k) {
        assert !ChunkGoes(id, keys, editsOk, sendOk, k);
        break;
      }
      assert ChunkGoes(id, keys, editsOk, sendOk, k);
      assert albums[k] == Album(chunk, i == 0);
      sent := sent + [Album(chunk, i == 0)];
      assert albums[..k + 1] == albums[..k] + [albums[k]];
      i := i + ChunkSize;
      k := k + 1;
      ChunkCountBound(total, k);
    }
  }

  // ---- Outcomes of the collaborators and of the handlers ----

  /** How `event.respond` of the first status message ended. */
  datatype Reply = Sent | TopicClosed | ReplyFailed

  /** `download_video_async_cancellable`: a path (None for a falsy one), a cancel, or an error. */
  datatype DownloadResult = Downloaded(path: Option<Path>) | DownloadCancelled | DownloadFailed

  /** How `send_file` inside an upload helper ended. */
  datatype UploadResult = Uploaded | UploadFailed | UploadCancelled

  /** What the executor's `download_video` hands back: a path (None when falsy), or an exception. */
  datatype Fetch = Fetched(path: Option<Path>) | FetchFailed

  /**
   * One call of the upload progress callback: the registry keys it sees,
   * the `total` that `send_file` passes, and whether its progress edit
   * would go through.
   */
  datatype ProgressCall = ProgressCall(keys: set<nat>, total: int, renderOk: bool)

  /** Where `send_file` delivers: the chat with a user, or TARGET_CHAT_ID. */
  datatype Destination = UserChat(user: int) | TargetChat

  /** How an upload helper hands control back to its action handler. */
  datatype HelperExit = Returned | RaisedCancel | RaisedError

  datatype MessageOutcome = Skipped | DuplicateUrl | SpamBlocked | TopicInaccessible | Submitted

  datatype CancelOutcome = CancelIgnored | NothingToCancel | CancelledTasks(count: nat)

  datatype CommandOutcome = CommandIgnored | NoPendingTask | NotPhotoUrl | Ran(id: nat)

  // ---- Cancellation seen by the waiting loops ----

  /**
   * Index of the first snapshot of the registry's keys that lacks `id`:
   * the check at which a cancel is noticed.
   */
  function FirstMissing(id: nat, snapshots: seq<set<nat>>): (r: Option<nat>)
    ensures r.Some? ==> r.value < |snapshots| && id !in snapshots[r.value]
    ensures r.Some? ==> forall j :: 0 <= j < r.value ==> id in snapshots[j]
    ensures r.None? <==> forall j :: 0 <= j < |snapshots| ==> id in snapshots[j]
    decreases |snapshots|
  {
    if snapshots == [] then None
    else if id !in snapshots[0] then Some(0)
    else
      var rest := FirstMissing(id, snapshots[1..]);
      assert forall j :: 1 <= j < |snapshots| ==> snapshots[j] == snapshots[1..][j - 1];
      match rest
      case None => None
      case Some(k) => Some(k + 1)
  }

  /** A check that misses `id` after checks that all saw it is the first miss. */
  lemma FirstMissingAt(id: nat, snapshots: seq<set<nat>>, i: nat)
    requires i < |snapshots| && id !in snapshots[i]
    requires forall j :: 0 <= j < i ==> id in snapshots[j]
    ensures FirstMissing(id, snapshots) == Some(i)
  {
    var r := FirstMissing(id, snapshots);
    assert r.Some?;
    assert r.value <= i;
    assert i <= r.value;
  }

  /** The result the download poll reaches: a cancel at the first check that misses the record, else the executor's answer. */
  function DownloadOutcome(id: nat, polls: seq<set<nat>>, fetch: Fetch): DownloadResult
  {
    if FirstMissing(id, polls).Some? then DownloadCancelled
    else match fetch
      case Fetched(p) => Downloaded(p)
      case FetchFailed => DownloadFailed
  }

  /**
   * The waiting loop of `download_video_async_cancellable`: while the
   * download runs, one registry check per second; `polls` holds the keys
   * each check sees. A missing record cancels the download and raises the
   * cancel; otherwise the executor's answer is returned, or its exception
   * raised. `checked` counts the checks made.
   */
  method AwaitDownload(id: nat, polls: seq<set<nat>>, fetch: Fetch) returns (r: DownloadResult, checked: nat)
    ensures r == DownloadOutcome(id, polls, fetch)
    ensures r == DownloadCancelled ==> checked == FirstMissing(id, polls).value + 1
    ensures r != DownloadCancelled ==> checked == |polls|
  {
    var i := 0;
    while i < |polls|
      invariant 0 <= i <= |polls|
      invariant forall j :: 0 <= j < i ==> id in polls[j]
    {
      if id !in polls[i] {
        FirstMissingAt(id, polls, i);
        return DownloadCancelled, i + 1;
      }
      i := i + 1;
    }
    r := match fetch
      case Fetched(p) => Downloaded(p)
      case FetchFailed => DownloadFailed;
    checked := |polls|;
  }

  function Snapshots(calls: seq<ProgressCall>): (r: seq<set<nat>>)
    ensures |r| == |calls| && forall i :: 0 <= i < |calls| ==> r[i] == calls[i].keys
  {
    seq(|calls|, i requires 0 <= i < |calls| => calls[i].keys)
  }

  /** The result of `send_file`: a cancel raised by a progress callback, else how the transfer ended. */
  function UploadOutcome(id: nat, calls: seq<ProgressCall>, sendOk: bool): UploadResult
  {
    if FirstMissing(id, Snapshots(calls)).Some? then UploadCancelled
    else if sendOk then Uploaded
    else UploadFailed
  }

  /** The progress callbacks that run to their end: those before the first one that misses the record. */
  function CallsRun(id: nat, calls: seq<ProgressCall>): (n: nat)
    ensures n <= |calls|
  {
    match FirstMissing(id, Snapshots(calls))
    case Some(k) => k
    case None => |calls|
  }

  /**
   * `send_file` with `upload_progress_cancellable` as its callback: each
   * call raises the cancel when the record is gone, and otherwise edits
   * the progress when `total > 0`, dropping any error of that edit.
   * `shown` lists the calls whose progress edit went through.
   */
  method AwaitUpload(id: nat, calls: seq<ProgressCall>, sendOk: bool) returns (r: UploadResult, shown: seq<nat>)
    ensures r == UploadOutcome(id, calls, sendOk)
    ensures Increasing(shown)
    ensures forall j: nat :: j in shown <==> j < CallsRun(id, calls) && calls[j].total > 0 && calls[j].renderOk
  {
    ghost var keys := Snapshots(calls);
    shown := [];
    var i := 0;
    while i < |calls|
      invariant 0 <= i <= |calls|
      invariant forall j :: 0 <= j < i ==> id in keys[j]
      invariant Increasing(shown) && forall j :: j in shown ==> j < i
      invariant forall j: nat :: j in shown <==> j < i && calls[j].total > 0 && calls[j].renderOk
    {
      if id !in calls[i].keys {
        FirstMissingAt(id, keys, i);
        return UploadCancelled, shown;
      }
      if calls[i].total > 0 && calls[i].renderOk {
        SnocIncreasing(shown, i);
        shown := shown + [i];
      }
      i := i + 1;
    }
    r := if sendOk then Uploaded else UploadFailed;
  }

  /** The registry after `/cancel` by `user`: their tasks whose status edit succeeded are gone. */
  function CancelEffect(tasks: map<nat, Task>, user: int, editOk: nat -> bool): map<nat, Task>
  {
    tasks - (set id | id in OwnedBy(tasks, user) && editOk(id))
  }

  /**
   * A download whose record is cancelled by its owner before it completes
   * stops with a cancel, at the first check after the cancel or earlier.
   */
  lemma CancelStopsDownload(id: nat, polls: seq<set<nat>>, fetch: Fetch, k: nat,
                            tasks: map<nat, Task>, user: int, editOk: nat -> bool)
    requires k < |polls| && polls[k] == CancelEffect(tasks, user, editOk).Keys
    requires id in OwnedBy(tasks, user) && editOk(id)
    ensures DownloadOutcome(id, polls, fetch) == DownloadCancelled
    ensures FirstMissing(id, polls).value <= k
  {
    assert id !in polls[k];
  }

  /** The same for an upload: a callback after the cancel raises it. */
  lemma CancelStopsUpload(id: nat, calls: seq<ProgressCall>, sendOk: bool, k: nat,
                          tasks: map<nat, Task>, user: int, editOk: nat -> bool)
    requires k < |calls| && calls[k].keys == CancelEffect(tasks, user, editOk).Keys
    requires id in OwnedBy(tasks, user) && editOk(id)
    ensures UploadOutcome(id, calls, sendOk) == UploadCancelled
    ensures CallsRun(id, calls) <= k
  {
    assert id !in Snapshots(calls)[k];
  }

  /**
   * `/cancel` by one user never removes another user's task, nor one
   * whose status edit failed, so their polls go on.
   */
  lemma CancelSparesOthers(id: nat, tasks: map<nat, Task>, user: int, editOk: nat -> bool)
    requires id in tasks && (tasks[id].owner != user || !editOk(id))
    ensures id in CancelEffect(tasks, user, editOk)
  {
  }

  /** When every check sees the record, the download ends as the executor's answer says. */
  lemma UncancelledDownload(id: nat, polls: seq<set<nat>>, fetch: Fetch)
    requires forall j :: 0 <= j < |polls| ==> id in polls[j]
    ensures DownloadOutcome(id, polls, fetch) != DownloadCancelled
    ensures fetch.Fetched? ==> DownloadOutcome(id, polls, fetch) == Downloaded(fetch.path)
  {
  }

  // ---- Status edits along an action ----

  /**
   * How many status-message edits an action handler makes on its path
   * until it pops the record: the "downloading" edit; after a failed
   * download the notice (or the error handler's edit); with a file the
   * "uploading" edit, then the success edit or the upload error edit. A
   * cancel raises without editing.
   */
  function EditsNeeded(d: DownloadResult, u: UploadResult): nat
  {
    match d
    case DownloadCancelled => 1
    case DownloadFailed => 2
    case Downloaded(p) => if p.None? then 2 else if u == UploadCancelled then 2 else 3
  }

  /**
   * `upload_and_forward_cancellable`, and `send_video_to_user`, which has
   * the same shape: the "uploading" edit (status edit number `edit0`),
   * `send_file` with the progress callback, the success edit, and
   * `cleanup_file` after success, after an error and after a cancel. The
   * error handler edits before it cleans up, so when that edit raises the
   * file is left behind. Edits go through while their number is below
   * `editsOk`: once the message cannot be edited, no later edit can.
   */
  method TransferFile(id: nat, file: Path, dest: Destination, edit0: nat, editsOk: nat,
                      calls: seq<ProgressCall>, sendOk: bool)
    returns (exit: HelperExit, cleaned: seq<Path>, delivered: Option<Destination>)
    ensures exit == RaisedCancel <==> edit0 < editsOk && UploadOutcome(id, calls, sendOk) == UploadCancelled
    ensures exit == Returned <==> edit0 + 1 < editsOk && UploadOutcome(id, calls, sendOk) != UploadCancelled
    ensures cleaned == if exit == RaisedError then [] else [file]
    ensures delivered == if edit0 < editsOk && UploadOutcome(id, calls, sendOk) == Uploaded then Some(dest) else None
  {
    delivered := None;
    if editsOk <= edit0 {
      // The "uploading" edit raises, and so does the error handler's edit after it.
      return RaisedError, [], delivered;
    }
    var upload, _ := AwaitUpload(id, calls, sendOk);
    if upload == UploadCancelled {
      return RaisedCancel, [file], delivered;
    }
    if upload == Uploaded {
      delivered := Some(dest);
    }
    // The success edit after an upload, or the error handler's edit after a
    // failed one; when the success edit raises, the error handler's edit does too.
    if edit0 + 1 < editsOk {
      return Returned, [file], delivered;
    }
    return RaisedError, [], delivered;
  }

  /** The URL gate of the photo commands. */
  predicate PhotoCommandApplies(url: string)
  {
    Contains(url, "tiktok.com") && Utils.HasPhotoMarker(url)
  }

  /** The gate is the "TikTok Photos" answer of the platform classifier. */
  lemma PhotoGateIsPlatform(url: string, netloc: Option<string>)
    ensures PhotoCommandApplies(url) <==> Utils.GetVideoPlatform(url, netloc) == Some("TikTok Photos")
  {
    Utils.GetVideoPlatformCases(url, netloc);
  }

  // ---- The client ----

  class TelegramVideoClient {
    var activeTasks: map<nat, Task>
    /** The iteration order of `active_tasks`: ids in insertion order. */
    var order: seq<nat>
    var taskCounter: nat
    const target: ChatTarget
    const admin: Option<int>
    const env: Utils.AllowlistSource

    /**
     * `order` lists each key once, in increasing order, and every key was
     * handed out by the counter.
     */
    ghost predicate Valid()
      reads this
    {
      && Indexes(order, activeTasks)
      && (forall id :: id in activeTasks ==> 1 <= id <= taskCounter)
    }

    constructor (target: ChatTarget, admin: Option<int>, env: Utils.AllowlistSource)
      ensures Valid()
      ensures activeTasks == map[] && order == [] && taskCounter == 0
      ensures this.target == target && this.admin == admin && this.env == env
    {
      activeTasks := map[];
      order := [];
      taskCounter := 0;
      this.target := target;
      this.admin := admin;
      this.env := env;
    }

    /** `is_authorized`, against the allow-list file as it reads now. */
    predicate IsAuthorized(fileUsers: set<int>, u: int)
    {
      Utils.IsUserAllowed(admin, env, fileUsers, u)
    }

    /** `active_tasks.pop(task_id, None)`. */
    method Pop(id: nat)
      requires Valid()
      modifies this
      ensures Valid()
      ensures activeTasks == old(activeTasks) - {id}
      ensures order == FilterOut(old(order), {id})
      ensures taskCounter == old(taskCounter)
    {
      RemoveKeepsIndexes(order, activeTasks, {id});
      activeTasks := activeTasks - {id};
      order := FilterOut(order, {id});
    }

    /** A write to the fields of a stored record (`active_tasks[id][...] = ...`). */
    method SetRecord(id: nat, t: Task)
      requires Valid() && id in activeTasks
      modifies this
      ensures Valid()
      ensures activeTasks == old(activeTasks)[id := t]
      ensures order == old(order) && taskCounter == old(taskCounter)
    {
      activeTasks := activeTasks[id := t];
    }

    /** The duplicate check of `handle_message`: a live task of `user` for `url`. */
    method HasLiveTaskFor(user: int, url: string) returns (dup: bool)
      requires Valid()
      ensures dup <==> HasLiveTask(activeTasks, user, url)
    {
      var i := 0;
      while i < |order|
        invariant 0 <= i <= |order|
        invariant forall j :: 0 <= j < i ==> activeTasks[order[j]].owner != user || activeTasks[order[j]].url != url
      {
        var t := activeTasks[order[i]];
        if t.owner == user && t.url == url {
          return true;
        }
        i := i + 1;
      }
      return false;
    }

    /**
     * `find_pending_task`: the first record in insertion order that `user`
     * owns and that is still in stage 'info'; as ids grow with insertion,
     * this is the oldest such record.
     */
    method FindPendingTask(user: int) returns (r: Option<nat>)
      requires Valid()
      ensures r.None? <==> forall id :: id in activeTasks ==> !IsPending(activeTasks[id], user)
      ensures r.Some? ==> r.value in activeTasks && IsPending(activeTasks[r.value], user)
      ensures r.Some? ==> forall id :: id in activeTasks && IsPending(activeTasks[id], user) ==> r.value <= id
    {
      var i := 0;
      while i < |order|
        invariant 0 <= i <= |order|
        invariant forall j :: 0 <= j < i ==> !IsPending(activeTasks[order[j]], user)
      {
        var id := order[i];
        if IsPending(activeTasks[id], user) {
          forall other | other in activeTasks && IsPending(activeTasks[other], user) ensures id <= other {
            var j :| 0 <= j < |order| && order[j] == other;
            assert i <= j;
          }
          return Some(id);
        }
        i := i + 1;
      }
      return None;
    }

    /**
     * `process_video_url`: the counter moves first, so the id is fresh even
     * when the status reply fails; only a sent reply creates the record.
     */
    method ProcessVideoUrl(sender: int, url: string, reply: Reply) returns (id: nat)
      requires Valid()
      modifies this
      ensures Valid()
      ensures id == taskCounter == old(taskCounter) + 1
      ensures forall k :: k in old(activeTasks) ==> k < id
      ensures reply == Sent ==> activeTasks == old(activeTasks)[id := Task(sender, url, Info, None, false)]
      ensures reply == Sent ==> order == old(order) + [id]
      ensures reply != Sent ==> activeTasks == old(activeTasks) && order == old(order)
    {
      taskCounter := taskCounter + 1;
      id := taskCounter;
      if reply == TopicClosed {
        return;
      }
      if reply == ReplyFailed {
        // The outer handler reports the error and pops an id that was never stored.
        FilterOutAbsent(order, id);
        assert activeTasks - {id} == activeTasks;
        Pop(id);
        return;
      }
      AddKeepsIndexes(order, activeTasks, id, Task(sender, url, Info, None, false));
      activeTasks := activeTasks[id := Task(sender, url, Info, None, false)];
      order := order + [id];
    }

    /**
     * `handle_message`: text and chat gates, the duplicate check on the first
     * URL only, the spam filter, the topic check, then `process_video_url`.
     */
    method HandleMessage(chatId: int, sender: int, text: string, urls: seq<string>, topicAccessible: bool, reply: Reply)
      returns (outcome: MessageOutcome)
      requires Valid()
      modifies this
      ensures Valid()
      ensures outcome != Submitted ==> activeTasks == old(activeTasks) && order == old(order) && taskCounter == old(taskCounter)
      ensures outcome == DuplicateUrl <==>
                text != [] && !StartsWith(text, "/") && IsAllowedChat(target, chatId, sender)
                && urls != [] && HasLiveTask(old(activeTasks), sender, urls[0])
      ensures outcome == Submitted <==>
                text != [] && !StartsWith(text, "/") && IsAllowedChat(target, chatId, sender)
                && urls != [] && !HasLiveTask(old(activeTasks), sender, urls[0])
                && !Utils.SpamIndicated(urls[0]) && topicAccessible
      ensures outcome == Submitted ==> taskCounter == old(taskCounter) + 1
      ensures outcome == Submitted && reply == Sent ==>
                activeTasks == old(activeTasks)[taskCounter := Task(sender, urls[0], Info, None, false)]
      ensures outcome == Submitted && reply != Sent ==> activeTasks == old(activeTasks)
    {
      if text == [] || StartsWith(text, "/") || !IsAllowedChat(target, chatId, sender) || urls == [] {
        return Skipped;
      }
      var dup := HasLiveTaskFor(sender, urls[0]);
      if dup {
        return DuplicateUrl;
      }
      var url := urls[0];
      var spam := Utils.IsSpamUrl(url);
      if spam {
        return SpamBlocked;
      }
      if !topicAccessible {
        return TopicInaccessible;
      }
      var _ := ProcessVideoUrl(sender, url, reply);
      return Submitted;
    }

    /**
     * `_process_video_task` up to its waiting loop: the record is put back
     * in 'info'; without video info it is popped; otherwise the info is
     * stored. An unusable status message stops the task before either.
     */
    method ProcessVideoTask(id: nat, infoFound: bool, statusEditable: bool)
      requires Valid()
      modifies this
      ensures Valid()
      ensures taskCounter == old(taskCounter)
      ensures id !in old(activeTasks) ==> activeTasks == old(activeTasks) && order == old(order)
      ensures id in old(activeTasks) && !statusEditable ==>
                activeTasks == old(activeTasks)[id := old(activeTasks)[id].(stage := Info)] && order == old(order)
      ensures id in old(activeTasks) && statusEditable && !infoFound ==>
                activeTasks == old(activeTasks) - {id} && order == FilterOut(old(order), {id})
      ensures id in old(activeTasks) && statusEditable && infoFound ==>
                activeTasks == old(activeTasks)[id := old(activeTasks)[id].(stage := Info, hasVideoInfo := true)]
                && order == old(order)
    {
      if id in activeTasks {
        SetRecord(id, activeTasks[id].(stage := Info));
      }
      if !statusEditable {
        // The edit raises, and so does the edit in the error handler.
        return;
      }
      if !infoFound {
        if id in activeTasks {
          Pop(id);
        }
        return;
      }
      if id in activeTasks {
        SetRecord(id, activeTasks[id].(hasVideoInfo := true));
      }
    }

    /** The `user_tasks` list of `/cancel`, built in one pass over the registry. */
    method CollectUserTasks(user: int) returns (ids: seq<nat>)
      requires Valid()
      ensures ids == UserTasks(order, activeTasks, user)
    {
      ids := [];
      var i := 0;
      while i < |order|
        invariant 0 <= i <= |order|
        invariant ids == UserTasks(order[..i], activeTasks, user)
      {
        assert order[..i + 1][..i] == order[..i];
        if activeTasks[order[i]].owner == user {
          ids := ids + [order[i]];
        }
        i := i + 1;
      }
      assert order[..|order|] == order;
    }

    /**
     * The loop of `/cancel` over the listed tasks: each one is counted
     * before its status edit, and it is deleted only when that edit succeeds.
     */
    method CancelListed(ids: seq<nat>, editOk: nat -> bool) returns (count: nat)
      requires Valid() && Increasing(ids)
      requires forall id :: id in ids ==> id in activeTasks
      modifies this
      ensures Valid()
      ensures count == |ids|
      ensures activeTasks == old(activeTasks) - Chosen(ids, editOk)
      ensures order == FilterOut(old(order), Chosen(ids, editOk))
      ensures taskCounter == old(taskCounter)
    {
      ghost var tasks0 := activeTasks;
      ghost var order0 := order;
      ghost var removed: set<nat> := {};
      FilterOutNothing(order);
      count := 0;
      var k := 0;
      while k < |ids|
        invariant 0 <= k <= |ids| && count == k
        invariant removed == Chosen(ids[..k], editOk)
        invariant activeTasks == tasks0 - removed
        invariant order == FilterOut(order0, removed)
        invariant Valid()
        invariant taskCounter == old(taskCounter)
      {
        var id := ids[k];
        ChosenSnoc(ids, editOk, k);
        count := count + 1;
        if editOk(id) {
          FilterOutTwice(order0, removed, {id});
          MapMinusTwice(tasks0, removed, {id});
          Pop(id);
          removed := removed + {id};
        }
        k := k + 1;
      }
      assert ids[..|ids|] == ids;
    }

    /**
     * `/cancel`: every task of the sender is counted, and each one whose
     * status edit succeeds is deleted; other users' tasks stay.
     */
    method HandleCancel(chatId: int, sender: int, fileUsers: set<int>, editOk: nat -> bool)
      returns (outcome: CancelOutcome)
      requires Valid()
      modifies this
      ensures Valid()
      ensures taskCounter == old(taskCounter)
      ensures outcome == CancelIgnored <==> !IsAllowedChat(target, chatId, sender) || !IsAuthorized(fileUsers, sender)
      ensures outcome == NothingToCancel <==>
                IsAllowedChat(target, chatId, sender) && IsAuthorized(fileUsers, sender) && OwnedBy(old(activeTasks), sender) == {}
      ensures !outcome.CancelledTasks? ==> activeTasks == old(activeTasks) && order == old(order)
      ensures outcome.CancelledTasks? ==> outcome.count == |OwnedBy(old(activeTasks), sender)|
      ensures outcome.CancelledTasks? ==>
                activeTasks == old(activeTasks) - (set id | id in OwnedBy(old(activeTasks), sender) && editOk(id))
      ensures outcome.CancelledTasks? ==>
                order == FilterOut(old(order), set id | id in OwnedBy(old(activeTasks), sender) && editOk(id))
      ensures outcome != CancelIgnored ==> activeTasks == CancelEffect(old(activeTasks), sender, editOk)
      ensures forall id :: id in old(activeTasks) && old(activeTasks)[id].owner != sender ==>
                id in activeTasks && activeTasks[id] == old(activeTasks)[id]
    {
      if !IsAllowedChat(target, chatId, sender) || !IsAuthorized(fileUsers, sender) {
        return CancelIgnored;
      }
      var userTasks := CollectUserTasks(sender);
      UserTasksCount(order, activeTasks, sender);
      if userTasks == [] {
        return NothingToCancel;
      }
      ghost var tasks0 := activeTasks;
      CancelledSet(order, activeTasks, sender, editOk);
      var count := CancelListed(userTasks, editOk);
      forall id | id in tasks0 && tasks0[id].owner != sender
        ensures id in activeTasks && activeTasks[id] == tasks0[id]
      {
        assert id !in OwnedBy(tasks0, sender);
      }
      return CancelledTasks(count);
    }

    /**
     * The part both action handlers share: stage 'download' with the
     * action, the "downloading" edit (status edit 0), the download poll,
     * then stage 'upload' and the upload helper once a file exists. The
     * record is popped when the handler reaches a pop: after a cancel,
     * after the failed-download notice, or after the upload helper. When a
     * status edit raises, the error handler's own edit raises too and the
     * record stays. `exit` is how the upload helper ended, if it ran.
     */
    method RunTransfer(id: nat, action: Action, dest: Destination, editsOk: nat, polls: seq<set<nat>>, fetch: Fetch,
                       calls: seq<ProgressCall>, sendOk: bool)
      returns (stages: seq<Stage>, exit: Option<HelperExit>, cleaned: seq<Path>, delivered: Option<Destination>)
      requires Valid()
      modifies this
      ensures Valid()
      ensures taskCounter == old(taskCounter)
      ensures var d, u := DownloadOutcome(id, polls, fetch), UploadOutcome(id, calls, sendOk);
        && (id !in old(activeTasks) ==>
              activeTasks == old(activeTasks) && order == old(order) && stages == [] && exit.None? && cleaned == [])
        && (id in old(activeTasks) ==> stages != [] && stages[0] == Download && ForwardOnly(stages))
        && (Upload in stages <==> id in old(activeTasks) && 0 < editsOk && d.Downloaded? && d.path.Some?)
        && (exit.Some? <==> Upload in stages)
        && (exit == Some(RaisedCancel) <==> Upload in stages && 1 < editsOk && u == UploadCancelled)
        && (id in old(activeTasks) && EditsNeeded(d, u) <= editsOk ==>
              activeTasks == old(activeTasks) - {id} && order == FilterOut(old(order), {id}))
        && (id in old(activeTasks) && editsOk < EditsNeeded(d, u) ==>
              && activeTasks == old(activeTasks)[id := old(activeTasks)[id].(
                   stage := if Upload in stages then Upload else Download, action := Some(action))]
              && order == old(order))
        && cleaned == (if Upload in stages && EditsNeeded(d, u) <= editsOk then [d.path.value] else [])
        && delivered == if Upload in stages && 1 < editsOk && u == Uploaded then Some(dest) else None
    {
      stages, exit, cleaned, delivered := [], None, [], None;
      if id !in activeTasks {
        return;
      }
      ghost var tasks0: map<nat, Task> := activeTasks;
      SetRecord(id, activeTasks[id].(stage := Download, action := Some(action)));
      stages := [Download];
      assert activeTasks - {id} == tasks0 - {id};
      if editsOk == 0 {
        // The "downloading" edit raises, and so does the error handler's edit.
        return;
      }
      var download, _ := AwaitDownload(id, polls, fetch);
      ghost var tasks1: map<nat, Task> := activeTasks;
      var uploaded;
      uploaded, exit, cleaned, delivered := AfterDownload(id, download, dest, editsOk, calls, sendOk);
      if uploaded {
        stages := stages + [Upload];
        assert tasks1[id := tasks1[id].(stage := Upload)]
            == tasks0[id := tasks0[id].(stage := Upload, action := Some(action))];
      }
    }

    /**
     * What the action handlers do once the download poll has ended: the
     * upload stage when a file exists; otherwise the cancel handler's pop,
     * or the failed-download notice (status edit 1) and its pop.
     */
    method AfterDownload(id: nat, download: DownloadResult, dest: Destination, editsOk: nat,
                         calls: seq<ProgressCall>, sendOk: bool)
      returns (uploaded: bool, exit: Option<HelperExit>, cleaned: seq<Path>, delivered: Option<Destination>)
      requires Valid() && id in activeTasks && 0 < editsOk
      modifies this
      ensures Valid()
      ensures taskCounter == old(taskCounter)
      ensures uploaded <==> download.Downloaded? && download.path.Some?
      ensures exit.Some? <==> uploaded
      ensures exit == Some(RaisedCancel) <==> uploaded && 1 < editsOk && UploadOutcome(id, calls, sendOk) == UploadCancelled
      ensures EditsNeeded(download, UploadOutcome(id, calls, sendOk)) <= editsOk ==>
                activeTasks == old(activeTasks) - {id} && order == FilterOut(old(order), {id})
      ensures editsOk < EditsNeeded(download, UploadOutcome(id, calls, sendOk)) ==>
                && order == old(order)
                && activeTasks == if uploaded then old(activeTasks)[id := old(activeTasks)[id].(stage := Upload)]
                                  else old(activeTasks)
      ensures cleaned == (if uploaded && EditsNeeded(download, UploadOutcome(id, calls, sendOk)) <= editsOk
                          then [download.path.value] else [])
      ensures delivered == if uploaded && 1 < editsOk && UploadOutcome(id, calls, sendOk) == Uploaded then Some(dest) else None
    {
      uploaded, exit, cleaned, delivered := false, None, [], None;
      if download.Downloaded? && download.path.Some? {
        uploaded := true;
        var helperExit;
        helperExit, cleaned, delivered := UploadStage(id, download.path.value, dest, editsOk, calls, sendOk);
        exit := Some(helperExit);
      } else if download == DownloadCancelled || 1 < editsOk {
        // The cancel handler pops; a failed download is reported (edit 1) and popped.
        Pop(id);
      }
    }

    /**
     * The upload stage of both action handlers: stage 'upload', then the
     * upload helper, whose first edit is status edit 1; the handler pops the
     * record unless the helper raised an error, because the error handler's
     * own edit then raises as well.
     */
    method UploadStage(id: nat, file: Path, dest: Destination, editsOk: nat, calls: seq<ProgressCall>, sendOk: bool)
      returns (exit: HelperExit, cleaned: seq<Path>, delivered: Option<Destination>)
      requires Valid() && id in activeTasks
      modifies this
      ensures Valid()
      ensures taskCounter == old(taskCounter)
      ensures var u := UploadOutcome(id, calls, sendOk);
        && (exit == RaisedCancel <==> 1 < editsOk && u == UploadCancelled)
        && (exit == Returned <==> 2 < editsOk && u != UploadCancelled)
      ensures exit != RaisedError ==>
                activeTasks == old(activeTasks) - {id} && order == FilterOut(old(order), {id}) && cleaned == [file]
      ensures exit == RaisedError ==>
                && activeTasks == old(activeTasks)[id := old(activeTasks)[id].(stage := Upload)]
                && order == old(order) && cleaned == []
      ensures delivered == if 1 < editsOk && UploadOutcome(id, calls, sendOk) == Uploaded then Some(dest) else None
    {
      ghost var tasks0 := activeTasks;
      SetRecord(id, activeTasks[id].(stage := Upload));
      assert activeTasks - {id} == tasks0 - {id};
      exit, cleaned, delivered := TransferFile(id, file, dest, 1, editsOk, calls, sendOk);
      if exit != RaisedError {
        // Popped after the helper returns, or by the cancel handler.
        Pop(id);
      }
    }

    /**
     * `handle_forward_action_direct`: the shared transfer with action
     * 'forward'; the upload helper cleans the file up once on every exit
     * it reaches.
     */
    method HandleForwardActionDirect(id: nat, editsOk: nat, polls: seq<set<nat>>, fetch: Fetch,
                                     calls: seq<ProgressCall>, sendOk: bool)
      returns (stages: seq<Stage>, cleaned: seq<Path>, delivered: Option<Destination>)
      requires Valid()
      modifies this
      ensures Valid()
      ensures taskCounter == old(taskCounter)
      ensures id !in old(activeTasks) ==> activeTasks == old(activeTasks) && order == old(order) && stages == [] && cleaned == []
      ensures id in old(activeTasks) ==> ForwardOnly(stages) && stages != [] && stages[0] == Download
      ensures var d, u := DownloadOutcome(id, polls, fetch), UploadOutcome(id, calls, sendOk);
        && (Upload in stages <==> id in old(activeTasks) && 0 < editsOk && d.Downloaded? && d.path.Some?)
        && (id in old(activeTasks) && EditsNeeded(d, u) <= editsOk ==>
              activeTasks == old(activeTasks) - {id} && order == FilterOut(old(order), {id}))
        && (id in old(activeTasks) && editsOk < EditsNeeded(d, u) ==>
              && activeTasks == old(activeTasks)[id := old(activeTasks)[id].(
                   stage := if Upload in stages then Upload else Download, action := Some(Forward))]
              && order == old(order))
        && cleaned == (if Upload in stages && EditsNeeded(d, u) <= editsOk then [d.path.value] else [])
        && delivered == if Upload in stages && 1 < editsOk && u == Uploaded then Some(TargetChat) else None
    {
      var exit;
      stages, exit, cleaned, delivered := RunTransfer(id, Forward, TargetChat, editsOk, polls, fetch, calls, sendOk);
    }

    /**
     * `handle_download_action_direct`: the shared transfer with action
     * 'user' through `send_video_to_user`; after a cancelled upload the
     * handler's cancel branch cleans the file up a second time.
     */
    method HandleDownloadActionDirect(id: nat, user: int, editsOk: nat, polls: seq<set<nat>>, fetch: Fetch,
                                      calls: seq<ProgressCall>, sendOk: bool)
      returns (stages: seq<Stage>, cleaned: seq<Path>, delivered: Option<Destination>)
      requires Valid()
      modifies this
      ensures Valid()
      ensures taskCounter == old(taskCounter)
      ensures id !in old(activeTasks) ==> activeTasks == old(activeTasks) && order == old(order) && stages == [] && cleaned == []
      ensures id in old(activeTasks) ==> ForwardOnly(stages) && stages != [] && stages[0] == Download
      ensures var d, u := DownloadOutcome(id, polls, fetch), UploadOutcome(id, calls, sendOk);
        && (Upload in stages <==> id in old(activeTasks) && 0 < editsOk && d.Downloaded? && d.path.Some?)
        && (id in old(activeTasks) && EditsNeeded(d, u) <= editsOk ==>
              activeTasks == old(activeTasks) - {id} && order == FilterOut(old(order), {id}))
        && (id in old(activeTasks) && editsOk < EditsNeeded(d, u) ==>
              && activeTasks == old(activeTasks)[id := old(activeTasks)[id].(
                   stage := if Upload in stages then Upload else Download, action := Some(ToUser))]
              && order == old(order))
        && (Upload in stages && EditsNeeded(d, u) <= editsOk && u == UploadCancelled ==>
              cleaned == [d.path.value, d.path.value])
        && (Upload in stages && EditsNeeded(d, u) <= editsOk && u != UploadCancelled ==> cleaned == [d.path.value])
        && (Upload !in stages || editsOk < EditsNeeded(d, u) ==> cleaned == [])
        && delivered == if Upload in stages && 1 < editsOk && u == Uploaded then Some(UserChat(user)) else None
    {
      var exit;
      stages, exit, cleaned, delivered := RunTransfer(id, ToUser, UserChat(user), editsOk, polls, fetch, calls, sendOk);
      if exit == Some(RaisedCancel) {
        // The sender helper cleaned up before raising; the cancel branch does so again.
        cleaned := cleaned + cleaned;
      }
    }

    /** `/forward`: the sender's pending task goes to the forward action. */
    method HandleForwardCommand(chatId: int, sender: int, fileUsers: set<int>, editsOk: nat,
                                polls: seq<set<nat>>, fetch: Fetch, calls: seq<ProgressCall>, sendOk: bool)
      returns (outcome: CommandOutcome, stages: seq<Stage>, cleaned: seq<Path>, delivered: Option<Destination>)
      requires Valid()
      modifies this
      ensures Valid()
      ensures taskCounter == old(taskCounter)
      ensures outcome == CommandIgnored <==> !IsAllowedChat(target, chatId, sender) || !IsAuthorized(fileUsers, sender)
      ensures outcome == NoPendingTask <==>
                IsAllowedChat(target, chatId, sender) && IsAuthorized(fileUsers, sender)
                && forall id :: id in old(activeTasks) ==> !IsPending(old(activeTasks)[id], sender)
      ensures !outcome.NotPhotoUrl?
      ensures !outcome.Ran? ==> activeTasks == old(activeTasks) && order == old(order) && stages == [] && cleaned == [] && delivered == None
      ensures outcome.Ran? ==>
                && outcome.id in old(activeTasks) && IsPending(old(activeTasks)[outcome.id], sender)
                && (forall id :: id in old(activeTasks) && IsPending(old(activeTasks)[id], sender) ==> outcome.id <= id)
                && stages != [] && stages[0] == Download && ForwardOnly(stages)
      ensures outcome.Ran? ==>
                var d, u := DownloadOutcome(outcome.id, polls, fetch), UploadOutcome(outcome.id, calls, sendOk);
                && (EditsNeeded(d, u) <= editsOk ==> activeTasks == old(activeTasks) - {outcome.id})
                && (editsOk < EditsNeeded(d, u) ==> outcome.id in activeTasks && activeTasks.Keys == old(activeTasks).Keys)
                && delivered == if Upload in stages && 1 < editsOk && u == Uploaded then Some(TargetChat) else None
    {
      stages, cleaned, delivered := [], [], None;
      if !IsAllowedChat(target, chatId, sender) || !IsAuthorized(fileUsers, sender) {
        return CommandIgnored, stages, cleaned, delivered;
      }
      var pending := FindPendingTask(sender);
      if pending.None? {
        return NoPendingTask, stages, cleaned, delivered;
      }
      stages, cleaned, delivered := HandleForwardActionDirect(pending.value, editsOk, polls, fetch, calls, sendOk);
      outcome := Ran(pending.value);
    }

    /** `/download`: the sender's pending task goes to the download action; there is no photo gate. */
    method HandleDownloadCommand(chatId: int, sender: int, fileUsers: set<int>, editsOk: nat,
                                 polls: seq<set<nat>>, fetch: Fetch, calls: seq<ProgressCall>, sendOk: bool)
      returns (outcome: CommandOutcome, stages: seq<Stage>, cleaned: seq<Path>, delivered: Option<Destination>)
      requires Valid()
      modifies this
      ensures Valid()
      ensures taskCounter == old(taskCounter)
      ensures outcome == CommandIgnored <==> !IsAllowedChat(target, chatId, sender) || !IsAuthorized(fileUsers, sender)
      ensures outcome == NoPendingTask <==>
                IsAllowedChat(target, chatId, sender) && IsAuthorized(fileUsers, sender)
                && forall id :: id in old(activeTasks) ==> !IsPending(old(activeTasks)[id], sender)
      ensures !outcome.NotPhotoUrl?
      ensures !outcome.Ran? ==> activeTasks == old(activeTasks) && order == old(order) && stages == [] && cleaned == [] && delivered == None
      ensures outcome.Ran? ==>
                && outcome.id in old(activeTasks) && IsPending(old(activeTasks)[outcome.id], sender)
                && (forall id :: id in old(activeTasks) && IsPending(old(activeTasks)[id], sender) ==> outcome.id <= id)
                && stages != [] && stages[0] == Download && ForwardOnly(stages)
      ensures outcome.Ran? ==>
                var d, u := DownloadOutcome(outcome.id, polls, fetch), UploadOutcome(outcome.id, calls, sendOk);
                && (EditsNeeded(d, u) <= editsOk ==> activeTasks == old(activeTasks) - {outcome.id})
                && (editsOk < EditsNeeded(d, u) ==> outcome.id in activeTasks && activeTasks.Keys == old(activeTasks).Keys)
                && delivered == if Upload in stages && 1 < editsOk && u == Uploaded then Some(UserChat(sender)) else None
    {
      stages, cleaned, delivered := [], [], None;
      if !IsAllowedChat(target, chatId, sender) || !IsAuthorized(fileUsers, sender) {
        return CommandIgnored, stages, cleaned, delivered;
      }
      var pending := FindPendingTask(sender);
      if pending.None? {
        return NoPendingTask, stages, cleaned, delivered;
      }
      stages, cleaned, delivered := HandleDownloadActionDirect(pending.value, sender, editsOk, polls, fetch, calls, sendOk);
      outcome := Ran(pending.value);
    }

    /**
     * The `try`/`except`/`finally` body shared by the two photo commands:
     * stage 'download', the "downloading" edit (status edit 0), the image
     * list, the "sending" edit (edit 1), then the album loop. The cancel
     * branch cleans the images up and the `finally` cleans them again; an
     * error leaves only the `finally`'s cleanup. The record is popped on
     * every exit. `keys(k)` are the registry keys the loop's check of
     * chunk `k` sees; the albums in `sent` go to `sentTo`.
     */
    method SendPhotoAlbums(id: nat, action: Action, dest: Destination, editsOk: nat, images: Option<seq<Path>>,
                           keys: nat -> set<nat>, sendOk: nat -> bool)
      returns (stages: seq<Stage>, sent: seq<Album>, cleaned: seq<seq<Path>>, sentTo: Option<Destination>)
      requires Valid() && id in activeTasks
      modifies this
      ensures Valid()
      ensures taskCounter == old(taskCounter)
      ensures activeTasks == old(activeTasks) - {id} && order == FilterOut(old(order), {id})
      ensures stages == [Download]
      ensures editsOk == 0 || images.None? || images.value == [] ==> sent == [] && cleaned == []
      ensures editsOk == 1 && images.Some? && images.value != [] ==> sent == [] && cleaned == [images.value]
      ensures 2 <= editsOk && images.Some? && images.value != [] ==>
                var albums := Albums(images.value);
                var stop := FirstStop(|albums|, id, keys, editsOk, sendOk, 0);
                && sent == albums[..stop]
                && cleaned == if stop < |albums| && id !in keys(stop) then [images.value, images.value] else [images.value]
      ensures sentTo == if sent == [] then None else Some(dest)
    {
      ghost var tasks0 := activeTasks;
      SetRecord(id, activeTasks[id].(stage := Download, action := Some(action)));
      assert activeTasks - {id} == tasks0 - {id};
      stages, sent, cleaned, sentTo := [Download], [], [], None;
      if editsOk == 0 || images.None? || images.value == [] {
        // A raising first edit comes before the download; an empty result is reported and popped.
        Pop(id);
        return;
      }
      var imagePaths := images.value;
      if editsOk == 1 {
        // The "sending" edit raises; the `finally` cleans up.
        cleaned := [imagePaths];
        Pop(id);
        return;
      }
      var cancelled;
      sent, cancelled := SendAlbums(imagePaths, id, keys, editsOk, sendOk);
      cleaned := if cancelled then [imagePaths, imagePaths] else [imagePaths];
      if sent != [] {
        sentTo := Some(dest);
      }
      Pop(id);
    }

    /** `/photos`: the gate, then the albums go to the sender. */
    method HandlePhotosCommand(chatId: int, sender: int, fileUsers: set<int>, editsOk: nat,
                               images: Option<seq<Path>>, keys: nat -> set<nat>, sendOk: nat -> bool)
      returns (outcome: CommandOutcome, stages: seq<Stage>, sent: seq<Album>, cleaned: seq<seq<Path>>,
               sentTo: Option<Destination>)
      requires Valid()
      modifies this
      ensures Valid()
      ensures taskCounter == old(taskCounter)
      ensures outcome == CommandIgnored <==> !IsAllowedChat(target, chatId, sender) || !IsAuthorized(fileUsers, sender)
      ensures outcome == NoPendingTask <==>
                IsAllowedChat(target, chatId, sender) && IsAuthorized(fileUsers, sender)
                && forall id :: id in old(activeTasks) ==> !IsPending(old(activeTasks)[id], sender)
      ensures outcome == NotPhotoUrl ==>
                exists id :: && id in old(activeTasks) && IsPending(old(activeTasks)[id], sender)
                             && (forall j :: j in old(activeTasks) && IsPending(old(activeTasks)[j], sender) ==> id <= j)
                             && !PhotoCommandApplies(old(activeTasks)[id].url)
      ensures !outcome.Ran? ==> activeTasks == old(activeTasks) && order == old(order) && stages == [] && sent == [] && cleaned == [] && sentTo == None
      ensures outcome.Ran? ==>
                && outcome.id in old(activeTasks) && IsPending(old(activeTasks)[outcome.id], sender)
                && (forall j :: j in old(activeTasks) && IsPending(old(activeTasks)[j], sender) ==> outcome.id <= j)
                && PhotoCommandApplies(old(activeTasks)[outcome.id].url)
                && activeTasks == old(activeTasks) - {outcome.id}
                && stages == [Download]
      ensures outcome.Ran? && (editsOk == 0 || images.None? || images.value == []) ==> sent == [] && cleaned == []
      ensures outcome.Ran? && editsOk == 1 && images.Some? && images.value != [] ==> sent == [] && cleaned == [images.value]
      ensures outcome.Ran? && 2 <= editsOk && images.Some? && images.value != [] ==>
                var albums := Albums(images.value);
                var stop := FirstStop(|albums|, outcome.id, keys, editsOk, sendOk, 0);
                && sent == albums[..stop]
                && cleaned == if stop < |albums| && outcome.id !in keys(stop) then [images.value, images.value] else [images.value]
      ensures outcome.Ran? ==> sentTo == if sent == [] then None else Some(UserChat(sender))
    {
      stages, sent, cleaned, sentTo := [], [], [], None;
      if !IsAllowedChat(target, chatId, sender) || !IsAuthorized(fileUsers, sender) {
        return CommandIgnored, stages, sent, cleaned, sentTo;
      }
      var pending := FindPendingTask(sender);
      if pending.None? {
        return NoPendingTask, stages, sent, cleaned, sentTo;
      }
      var id := pending.value;
      if !PhotoCommandApplies(activeTasks[id].url) {
        return NotPhotoUrl, stages, sent, cleaned, sentTo;
      }
      stages, sent, cleaned, sentTo := SendPhotoAlbums(id, Photos, UserChat(sender), editsOk, images, keys, sendOk);
      outcome := Ran(id);
    }

    /** `/photos_forward`: the same, with the albums going to the target chat. */
    method HandlePhotosForwardCommand(chatId: int, sender: int, fileUsers: set<int>, editsOk: nat,
                                      images: Option<seq<Path>>, keys: nat -> set<nat>, sendOk: nat -> bool)
      returns (outcome: CommandOutcome, stages: seq<Stage>, sent: seq<Album>, cleaned: seq<seq<Path>>,
               sentTo: Option<Destination>)
      requires Valid()
      modifies this
      ensures Valid()
      ensures taskCounter == old(taskCounter)
      ensures outcome == CommandIgnored <==> !IsAllowedChat(target, chatId, sender) || !IsAuthorized(fileUsers, sender)
      ensures outcome == NoPendingTask <==>
                IsAllowedChat(target, chatId, sender) && IsAuthorized(fileUsers, sender)
                && forall id :: id in old(activeTasks) ==> !IsPending(old(activeTasks)[id], sender)
      ensures outcome == NotPhotoUrl ==>
                exists id :: && id in old(activeTasks) && IsPending(old(activeTasks)[id], sender)
                             && (forall j :: j in old(activeTasks) && IsPending(old(activeTasks)[j], sender) ==> id <= j)
                             && !PhotoCommandApplies(old(activeTasks)[id].url)
      ensures !outcome.Ran? ==> activeTasks == old(activeTasks) && order == old(order) && stages == [] && sent == [] && cleaned == [] && sentTo == None
      ensures outcome.Ran? ==>
                && outcome.id in old(activeTasks) && IsPending(old(activeTasks)[outcome.id], sender)
                && (forall j :: j in old(activeTasks) && IsPending(old(activeTasks)[j], sender) ==> outcome.id <= j)
                && PhotoCommandApplies(old(activeTasks)[outcome.id].url)
                && activeTasks == old(activeTasks) - {outcome.id}
                && stages == [Download]
      ensures outcome.Ran? && (editsOk == 0 || images.None? || images.value == []) ==> sent == [] && cleaned == []
      ensures outcome.Ran? && editsOk == 1 && images.Some? && images.value != [] ==> sent == [] && cleaned == [images.value]
      ensures outcome.Ran? && 2 <= editsOk && images.Some? && images.value != [] ==>
                var albums := Albums(images.value);
                var stop := FirstStop(|albums|, outcome.id, keys, editsOk, sendOk, 0);
                && sent == albums[..stop]
                && cleaned == if stop < |albums| && outcome.id !in keys(stop) then [images.value, images.value] else [images.value]
      ensures outcome.Ran? ==> sentTo == if sent == [] then None else Some(TargetChat)
    {
      stages, sent, cleaned, sentTo := [], [], [], None;
      if !IsAllowedChat(target, chatId, sender) || !IsAuthorized(fileUsers, sender) {
        return CommandIgnored, stages, sent, cleaned, sentTo;
      }
      var pending := FindPendingTask(sender);
      if pending.None? {
        return NoPendingTask, stages, sent, cleaned, sentTo;
      }
      var id := pending.value;
      if !PhotoCommandApplies(activeTasks[id].url) {
        return NotPhotoUrl, stages, sent, cleaned, sentTo;
      }
      stages, sent, cleaned, sentTo := SendPhotoAlbums(id, PhotosForward, TargetChat, editsOk, images, keys, sendOk);
      outcome := Ran(id);
    }
  }
}
