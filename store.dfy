/**
 * The bot's task store `user -> ISO date -> tasks` and the two handlers that
 * use it: `/add` appends a task in place, `/show` reads the tasks of one
 * date and renders them as a numbered listing.
 */
module Store {
  import opened TextOps
  import opened DateToken
  import opened Commands

  type UserId = string

  /** The nested mapping the bot keeps in memory. */
  type Tasks = map<UserId, map<string, seq<string>>>

  /** The tasks stored for `user` on `key`; none when either level is missing. */
  function Get(m: Tasks, user: UserId, key: string): (r: seq<string>)
    ensures r != [] ==> user in m && key in m[user]
  {
    if user in m && key in m[user] then m[user][key] else []
  }

  /** `m` with `task` appended to the list of `user` on `key`, creating the
      user's mapping and the date's list when they are missing. */
  function Appended(m: Tasks, user: UserId, key: string, task: string): (r: Tasks)
    ensures user in r && key in r[user] && r[user][key] != []
    ensures r[user][key][|r[user][key]| - 1] == task
  {
    var inner := if user in m then m[user] else map[];
    m[user := inner[key := Get(m, user, key) + [task]]]
  }

  /** Appending puts the task at the end of the list it names and changes no
      other list; the only keys that can appear are that user and that date. */
  lemma AppendedLists(m: Tasks, user: UserId, key: string, task: string)
    ensures Get(Appended(m, user, key, task), user, key) == Get(m, user, key) + [task]
    ensures forall u, k :: (u, k) != (user, key) ==>
      Get(Appended(m, user, key, task), u, k) == Get(m, u, k)
    ensures Appended(m, user, key, task).Keys == m.Keys + {user}
    ensures Appended(m, user, key, task)[user].Keys
      == (if user in m then m[user].Keys else {}) + {key}
  {
  }

  /** What the store holds when every entry came from `/add`: every date key
      is an ISO key of a real date, and every list is non-empty and holds
      clean task texts. */
  predicate WellFormed(m: Tasks) {
    forall u | u in m :: forall k | k in m[u] ::
      IsIsoKey(k) && m[u][k] != [] && forall t | t in m[u][k] :: IsCleanText(t)
  }

  /** Appending a clean task under an ISO key keeps the store well formed. */
  lemma AppendedWellFormed(m: Tasks, user: UserId, key: string, task: string)
    requires WellFormed(m) && IsIsoKey(key) && IsCleanText(task)
    ensures WellFormed(Appended(m, user, key, task))
  {
  }

  /* ---------------------------------------------------------------------
     The /show listing
     --------------------------------------------------------------------- */

  /** Line `n` of the listing: `f"{n}. {task}\n"`. */
  function Line(n: nat, task: string): (r: string)
    ensures |r| >= |task| + 4 && r[|r| - 1] == '\n'
  {
    NatToString(n) + ". " + task + "\n"
  }

  /** The numbered listing of `tasks`, built line by line as the handler's
      loop does. */
  function Render(tasks: seq<string>): string {
    if tasks == [] then [] else Render(tasks[..|tasks| - 1]) + Line(|tasks|, tasks[|tasks| - 1])
  }

  /** The lines of the listing: line i (counting from 0) is `i + 1`, a dot,
      a space and task i, in stored order. */
  function Lines(tasks: seq<string>): (ls: seq<string>)
    ensures |ls| == |tasks|
    ensures forall i :: 0 <= i < |tasks| ==> ls[i] == Line(i + 1, tasks[i])
  {
    seq(|tasks|, i requires 0 <= i < |tasks| => Line(i + 1, tasks[i]))
  }

  lemma {:induction false} ConcatAppend(xs: seq<string>, x: string)
    ensures Concat(xs + [x]) == Concat(xs) + x
  {
    if xs != [] {
      assert (xs + [x])[1..] == xs[1..] + [x];
      ConcatAppend(xs[1..], x);
    }
  }

  /** The rendered listing is exactly its lines one after another: the
      numbering starts at 1 and follows the stored order. */
  lemma {:induction false} RenderIsLines(tasks: seq<string>)
    ensures Render(tasks) == Concat(Lines(tasks))
  {
    if tasks != [] {
      var init := tasks[..|tasks| - 1];
      RenderIsLines(init);
      assert Lines(tasks) == Lines(init) + [Line(|tasks|, tasks[|tasks| - 1])];
      ConcatAppend(Lines(init), Line(|tasks|, tasks[|tasks| - 1]));
    }
  }

  /** Each line starts with its number, written in decimal, then `. `. */
  lemma LineNumber(n: nat, task: string)
    ensures var digits := NatToString(n);
      && Line(n, task)[..|digits|] == digits && DecimalValue(digits) == n
      && Line(n, task)[|digits|..|digits| + 2] == ". "
      && Line(n, task)[|digits| + 2..] == task + "\n"
  {
    assert Line(n, task) == NatToString(n) + ". " + (task + "\n");
    NatToStringValue(n);
  }

  /** After `/add` of `task` for a user and date, the listing `/show` gives
      for that date is the earlier listing followed by one more line, which
      carries the next number and the new task. */
  lemma ListingAfterAppend(m: Tasks, user: UserId, key: string, task: string)
    ensures var before := Get(m, user, key);
      Concat(Lines(Get(Appended(m, user, key, task), user, key)))
        == Concat(Lines(before)) + Line(|before| + 1, task)
  {
    var before := Get(m, user, key);
    var after := before + [task];
    AppendedLists(m, user, key, task);
    RenderIsLines(before);
    RenderIsLines(after);
    assert after[..|after| - 1] == before;
  }

  /* ---------------------------------------------------------------------
     Handler outcomes
     --------------------------------------------------------------------- */

  /** The reply of `/add`: the confirmation echoes the task text and the date
      as the user wrote it. */
  datatype AddOutcome = Added(task: string, dateText: string) | AddFailed(error: AddError)

  /** The reply of `/show`. */
  datatype ShowOutcome =
    | AskForDate
    | InvalidDateFormat
    | NoTasks(dateText: string)
    | Listing(dateText: string, body: string)

  /** The loop of `/show`: `response += f"{i}. {task}\n"` for each task,
      numbered from 1. The result is the listing's lines, in stored order. */
  method RenderListing(list: seq<string>) returns (response: string)
    ensures response == Concat(Lines(list))
  {
    response := "";
    var i := 0;
    while i < |list|
      invariant 0 <= i <= |list|
      invariant response == Render(list[..i])
    {
      assert list[..i + 1][..i] == list[..i];
      response := response + Line(i + 1, list[i]);
      i := i + 1;
    }
    assert list[..|list|] == list;
    RenderIsLines(list);
  }

  class TaskStore {
    var tasks: Tasks

    ghost predicate Valid()
      reads this
    {
      WellFormed(tasks)
    }

    /** The store as `load_tasks` returns it when there is no file yet. */
    constructor ()
      ensures Valid() && tasks == map[]
    {
      tasks := map[];
    }

    /** Appends `task` to the list of `user` on `key` in place, creating the
        user's mapping and the date's list first when they are missing. */
    method Append(user: UserId, key: string, task: string)
      modifies this
      ensures tasks == Appended(old(tasks), user, key, task)
    {
      if user !in tasks {
        tasks := tasks[user := map[]];
      }
      if key !in tasks[user] {
        tasks := tasks[user := tasks[user][key := []]];
      }
      ghost var inner := if user in old(tasks) then old(tasks)[user] else map[];
      ghost var list := Get(old(tasks), user, key);
      assert tasks[user] == inner[key := list];
      assert tasks[user][key := list + [task]] == inner[key := list + [task]];
      tasks := tasks[user := tasks[user][key := tasks[user][key] + [task]]];
      assert tasks == old(tasks)[user := inner[key := list + [task]]];
    }

    /** `/add <arg>` for `user`: on success the task is appended to the list
        of that user and date and nothing else changes; on every error the
        store is left as it was. */
    method AddTask(user: UserId, arg: string) returns (out: AddOutcome)
      requires Valid()
      modifies this
      ensures Valid()
      ensures match PlanAdd(arg)
        case Accepted(key, task, dateText) =>
          out == Added(task, dateText) && tasks == Appended(old(tasks), user, key, task)
        case Rejected(e) =>
          out == AddFailed(e) && tasks == old(tasks)
    {
      var request := PlanAdd(arg);
      match request
      case Rejected(e) =>
        out := AddFailed(e);
      case Accepted(key, task, dateText) =>
        AppendedWellFormed(tasks, user, key, task);
        Append(user, key, task);
        out := Added(task, dateText);
    }

    /** `/show` with message text `text` for `user`. It changes nothing; it
        asks for a date when none follows the command, rejects anything but a
        single real `DD.MM.YYYY` date, reports an absent user or date, and
        otherwise lists the stored tasks numbered from 1 in stored order. */
    method Show(user: UserId, text: string) returns (out: ShowOutcome)
      requires Valid()
      ensures PlanShow(text) == MissingDate ==> out == AskForDate
      ensures PlanShow(text) == BadDate ==> out == InvalidDateFormat
      ensures PlanShow(text).Lookup? ==>
        var key, dateText := PlanShow(text).key, PlanShow(text).dateText;
        if user in tasks && key in tasks[user]
        then out == Listing(dateText, Concat(Lines(tasks[user][key])))
        else out == NoTasks(dateText)
      ensures PlanShow(text).Lookup? ==>
        (out.NoTasks? <==> Get(tasks, user, PlanShow(text).key) == [])
    {
      var request := PlanShow(text);
      match request
      case MissingDate =>
        out := AskForDate;
      case BadDate =>
        out := InvalidDateFormat;
      case Lookup(key, dateText) =>
        NoTasksIffEmpty(tasks, user, key);
        if user in tasks && key in tasks[user] {
          var response := RenderListing(tasks[user][key]);
          out := Listing(dateText, response);
        } else {
          out := NoTasks(dateText);
        }
    }
  }

  /** In a well-formed store, "no tasks" is answered exactly when nothing is
      stored for that user and date. */
  lemma NoTasksIffEmpty(m: Tasks, user: UserId, key: string)
    requires WellFormed(m)
    ensures (user in m && key in m[user]) <==> Get(m, user, key) != []
  {
  }
}
