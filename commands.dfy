/**
 * The decisions the `/add` and `/show` handlers take before touching the
 * task store: which error the user is told about, or which storage key,
 * task text and date text the command goes on with. The checks run in the
 * handlers' order; the first that fails decides the outcome.
 */
module Commands {
  import opened Options
  import opened TextOps
  import opened DateToken

  /* ---------------------------------------------------------------------
     /add
     --------------------------------------------------------------------- */

  /** The error replies of `/add`: "specify a task and date", "date missing",
      "task missing" and "invalid date format". */
  datatype AddError = EmptyInput | DateMissing | TaskMissing | InvalidDate

  /** A task to append under `key`, with the date as the user wrote it, or
      the error the user is told about. */
  datatype AddRequest =
    | Accepted(key: string, task: string, dateText: string)
    | Rejected(error: AddError)

  /** The task text left once the date is deleted everywhere, `str.strip()` is
      applied, and the leading and trailing runs of whitespace and hyphens are
      removed; it neither starts nor ends with whitespace or a hyphen. */
  function CleanTask(text: string, dateText: string): (r: string)
    requires dateText != []
    ensures r == [] || (!IsSpaceOrHyphen(r[0]) && !IsSpaceOrHyphen(r[|r| - 1]))
  {
    Strip(Trim(RemoveAll(text, dateText)), IsSpaceOrHyphen)
  }

  /** The task text is the text with the date deleted everywhere, cut only
      at its two ends and only of whitespace and hyphens: it sits at
      `CleanTaskOffset` in the deleted text. */
  lemma CleanTaskInside(text: string, dateText: string)
    requires dateText != []
    ensures CleanTaskOffset(text, dateText) + |CleanTask(text, dateText)| <= |RemoveAll(text, dateText)|
    ensures Inside(RemoveAll(text, dateText), CleanTask(text, dateText), CleanTaskOffset(text, dateText), IsSpaceOrHyphen)
  {
    TrimThenStripInside(RemoveAll(text, dateText));
  }

  /** Where the task text starts in the text with the date deleted. */
  function CleanTaskOffset(text: string, dateText: string): nat
    requires dateText != []
  {
    TrimStripOffset(RemoveAll(text, dateText))
  }

  /** The date-related part of `/add` (after the empty-input check): find the
      leftmost date, derive the task text, then check the calendar date. A
      task is accepted only with a non-empty clean text and a real date, whose
      key is the ISO form written with the same digits. */
  function PlanAddText(text: string): (r: AddRequest)
    ensures r != Rejected(EmptyInput)
    ensures r == Rejected(DateMissing) <==> forall j :: !TokenAt(text, j)
    ensures r.Accepted? ==>
      && FindToken(text).Some?
      && r.dateText == TokenText(text)
      && r.task == CleanTask(text, r.dateText) && r.task != []
      && Strptime(r.dateText).Some?
      && r.key == r.dateText[6..10] + "-" + r.dateText[3..5] + "-" + r.dateText[0..2]
      && IsIsoKey(r.key)
    ensures r.Accepted? <==>
      FindToken(text).Some? && CleanTask(text, TokenText(text)) != [] && Strptime(TokenText(text)).Some?
    ensures r == Rejected(TaskMissing) <==>
      FindToken(text).Some? && CleanTask(text, TokenText(text)) == []
    ensures r == Rejected(InvalidDate) <==>
      FindToken(text).Some? && CleanTask(text, TokenText(text)) != [] && Strptime(TokenText(text)).None?
  {
    match FindToken(text)
    case None => Rejected(DateMissing)
    case Some(p) =>
      var dateText := text[p..p + TokenLength];
      var task := CleanTask(text, dateText);
      if task == [] then Rejected(TaskMissing)
      else match Strptime(dateText)
        case None => Rejected(InvalidDate)
        case Some(d) =>
          IsoKeyOfToken(dateText);
          IsoRoundTrip(d);
          Accepted(FormatIso(d), task, dateText)
  }

  /** `/add <argument>` up to the store update: the argument is trimmed and
      must not be empty; the rest is `PlanAddText` on the trimmed text. */
  function PlanAdd(arg: string): (r: AddRequest)
    ensures r == Rejected(EmptyInput) <==> Trim(arg) == []
    ensures Trim(arg) != [] ==> r == PlanAddText(Trim(arg))
  {
    var text := Trim(arg);
    if text == [] then Rejected(EmptyInput) else PlanAddText(text)
  }

  /** The leftmost date token of `text` (the match group), when there is one. */
  function TokenText(text: string): (t: string)
    requires FindToken(text).Some?
    ensures IsToken(t)
  {
    var p := FindToken(text).value;
    text[p..p + TokenLength]
  }

  /** Deleting a string from itself leaves nothing. */
  lemma RemoveAllSelf(t: string)
    requires t != []
    ensures RemoveAll(t, t) == []
  {
    assert t[..|t|] == t;
    assert t[|t|..] == [];
  }

  /** The task check comes before the calendar check: an argument that is
      nothing but a date, real or not (`31.02.2026` included), is answered
      with "task missing". */
  lemma DateAloneIsTaskMissing(arg: string)
    requires IsToken(Trim(arg))
    ensures PlanAdd(arg) == Rejected(TaskMissing)
  {
    var t := Trim(arg);
    assert TokenAt(t, 0) by { assert t[0..TokenLength] == t; }
    RemoveAllSelf(t);
  }

  /** A task text that the clean-up leaves as it is. */
  predicate IsCleanText(task: string) {
    task != [] && !IsSpaceOrHyphen(task[0]) && !IsSpaceOrHyphen(task[|task| - 1])
  }

  /** With the leftmost token at `n`, the search finds it there. */
  lemma LeftmostTokenFound(s: string, n: nat)
    requires TokenAt(s, n) && forall j :: 0 <= j < n ==> !TokenAt(s, j)
    ensures FindToken(s) == Some(n)
  {
  }

  /** No date token runs across a space. */
  lemma NoTokenOverSpace(s: string, p: nat, j: int)
    requires p < |s| && IsSpace(s[p]) && j <= p < j + TokenLength
    ensures !TokenAt(s, j)
  {
  }

  /** In `task + " " + rest`, with no date in the task text, no date starts
      before `rest`. */
  lemma NoTokenBeforeRest(task: string, rest: string)
    requires forall j :: !TokenAt(task, j)
    ensures forall j :: 0 <= j < |task| + 1 ==> !TokenAt(task + " " + rest, j)
  {
    var s := task + " " + rest;
    forall j | 0 <= j < |task| + 1 ensures !TokenAt(s, j) {
      if j + TokenLength <= |task| {
        assert s[j..j + TokenLength] == task[j..j + TokenLength];
        assert !TokenAt(task, j);
      } else {
        NoTokenOverSpace(s, |task|, j);
      }
    }
  }

  /** Where no token starts, no copy of a token starts either. */
  lemma NoCopyWhereNoToken(s: string, tok: string, n: nat)
    requires IsToken(tok) && forall j :: 0 <= j < n ==> !TokenAt(s, j)
    ensures forall j :: 0 <= j < n ==> !OccursAt(s, tok, j)
  {
    forall j | 0 <= j < n ensures !OccursAt(s, tok, j) {
      if OccursAt(s, tok, j) {
        assert s[j..j + TokenLength] == tok;
        assert TokenAt(s, j);
      }
    }
  }

  /** In `task + " " + tok` the date found is `tok`, after the task text. */
  lemma TaskThenDateFound(task: string, tok: string)
    requires forall j :: !TokenAt(task, j)
    requires IsToken(tok)
    ensures FindToken(task + " " + tok) == Some(|task| + 1)
  {
    var s := task + " " + tok;
    var n := |task| + 1;
    NoTokenBeforeRest(task, tok);
    assert s[n..n + TokenLength] == tok;
    LeftmostTokenFound(s, n);
  }

  /** Deleting `tok` from `task + " " + tok` leaves `task + " "`. */
  lemma TaskThenDateRemoved(task: string, tok: string)
    requires forall j :: !TokenAt(task, j)
    requires IsToken(tok)
    ensures RemoveAll(task + " " + tok, tok) == task + " "
  {
    var s := task + " " + tok;
    var n := |task| + 1;
    NoTokenBeforeRest(task, tok);
    NoCopyWhereNoToken(s, tok, n);
    RemoveAllAfterPrefix(s, n, tok);
    assert s[..n] == task + " " && s[n..] == tok;
    RemoveAllSelf(tok);
  }

  /** A text without surrounding whitespace, whose leftmost date `tok` is
      real and whose deletion leaves `task` once trimmed, is accepted. */
  lemma AcceptedWhen(s: string, p: nat, tok: string, rest: string, task: string)
    requires IsCleanText(task) && IsToken(tok) && Strptime(tok).Some?
    requires s != [] && !IsSpace(s[0]) && !IsSpace(s[|s| - 1])
    requires FindToken(s) == Some(p) && s[p..p + TokenLength] == tok
    requires RemoveAll(s, tok) == rest && Trim(rest) == task
    ensures PlanAdd(s) == Accepted(tok[6..10] + "-" + tok[3..5] + "-" + tok[0..2], task, tok)
  {
    StripUnchanged(s, IsSpace);
    assert Trim(s) == s;
    assert TokenText(s) == tok;
    StripUnchanged(task, IsSpaceOrHyphen);
    assert CleanTask(s, tok) == task;
    IsoKeyOfToken(tok);
  }

  /** "Buy milk 15.02.2026": a task text followed by a space and a real date
      is accepted with that text and the ISO key of the date. */
  lemma TaskThenDate(task: string, tok: string)
    requires IsCleanText(task) && forall j :: !TokenAt(task, j)
    requires IsToken(tok) && Strptime(tok).Some?
    ensures PlanAdd(task + " " + tok)
         == Accepted(tok[6..10] + "-" + tok[3..5] + "-" + tok[0..2], task, tok)
  {
    var s := task + " " + tok;
    assert s[0] == task[0] && s[|s| - 1] == tok[9];
    TaskThenDateFound(task, tok);
    TaskThenDateRemoved(task, tok);
    assert s[|task| + 1..|task| + 1 + TokenLength] == tok;
    StripDroppedAfter(task, ' ', IsSpace);
    AcceptedWhen(s, |task| + 1, tok, task + " ", task);
  }

  /** After the date at the front, no other copy of it follows. */
  lemma NoCopyAfterSpace(task: string, tok: string)
    requires forall j :: !TokenAt(task, j)
    requires IsToken(tok)
    ensures !Occurs(" " + task, tok)
  {
    var rest := " " + task;
    forall j | 0 <= j <= |rest| - |tok| ensures !OccursAt(rest, tok, j) {
      if j == 0 {
        NoTokenOverSpace(rest, 0, 0);
      } else {
        assert rest[j..j + TokenLength] == task[j - 1..j - 1 + TokenLength];
        assert !TokenAt(task, j - 1);
      }
    }
  }

  /** In `tok + " " + task` the date found is `tok`, at the front, and
      deleting it leaves `" " + task`. */
  lemma DateThenTaskScan(tok: string, task: string)
    requires forall j :: !TokenAt(task, j)
    requires IsToken(tok)
    ensures FindToken(tok + " " + task) == Some(0)
    ensures RemoveAll(tok + " " + task, tok) == " " + task
  {
    var s := tok + " " + task;
    assert s[0..TokenLength] == tok;
    LeftmostTokenFound(s, 0);
    assert s[..|tok|] == tok && s[|tok|..] == " " + task;
    NoCopyAfterSpace(task, tok);
    RemoveAllAbsent(" " + task, tok);
  }

  /** "15.02.2026 call mom": a real date followed by a space and a task text
      is accepted with that text and the ISO key of the date. */
  lemma DateThenTask(tok: string, task: string)
    requires IsCleanText(task) && forall j :: !TokenAt(task, j)
    requires IsToken(tok) && Strptime(tok).Some?
    ensures PlanAdd(tok + " " + task)
         == Accepted(tok[6..10] + "-" + tok[3..5] + "-" + tok[0..2], task, tok)
  {
    var s := tok + " " + task;
    assert s[0] == tok[0] && s[|s| - 1] == task[|task| - 1];
    DateThenTaskScan(tok, task);
    assert s[0..TokenLength] == tok;
    StripDroppedBefore(' ', task, IsSpace);
    AcceptedWhen(s, 0, tok, " " + task, task);
  }

  /** In `tok + " " + task + " " + tok` the date found is the first `tok`,
      and deleting deletes both copies, leaving `" " + task + " "`. */
  lemma RepeatedDateScan(tok: string, task: string)
    requires forall j :: !TokenAt(task, j)
    requires IsToken(tok)
    ensures FindToken(tok + " " + task + " " + tok) == Some(0)
    ensures RemoveAll(tok + " " + task + " " + tok, tok) == " " + task + " "
  {
    var s := tok + " " + task + " " + tok;
    assert s[0..TokenLength] == tok;
    LeftmostTokenFound(s, 0);
    var rest := " " + task + " " + tok;
    assert s[..|tok|] == tok && s[|tok|..] == rest;
    var lead := " " + task;
    assert rest == lead + " " + tok;
    NoCopyAfterSpace(task, tok);
    forall j | 0 <= j < |lead| + 1 ensures !OccursAt(rest, tok, j) {
      if j + TokenLength <= |lead| {
        assert rest[j..j + TokenLength] == lead[j..j + TokenLength];
        assert !OccursAt(lead, tok, j);
      } else {
        NoTokenOverSpace(rest, |lead|, j);
      }
    }
    RemoveAllAfterPrefix(rest, |lead| + 1, tok);
    assert rest[..|lead| + 1] == " " + task + " " && rest[|lead| + 1..] == tok;
    RemoveAllSelf(tok);
  }

  /** The date is deleted everywhere, not only where it was found:
      "15.02.2026 call mom 15.02.2026" is accepted with the task "call mom". */
  lemma RepeatedDateRemovedEverywhere(tok: string, task: string)
    requires IsCleanText(task) && forall j :: !TokenAt(task, j)
    requires IsToken(tok) && Strptime(tok).Some?
    ensures PlanAdd(tok + " " + task + " " + tok)
         == Accepted(tok[6..10] + "-" + tok[3..5] + "-" + tok[0..2], task, tok)
  {
    var s := tok + " " + task + " " + tok;
    assert s[0] == tok[0] && s[|s| - 1] == tok[9];
    RepeatedDateScan(tok, task);
    assert s[0..TokenLength] == tok;
    StripDroppedAround(' ', task, ' ', IsSpace);
    AcceptedWhen(s, 0, tok, " " + task + " ", task);
  }

  /* ---------------------------------------------------------------------
     /show
     --------------------------------------------------------------------- */

  /** The error replies of `/show` and the date it goes on with. A date that
      does not match the pattern and a date that does not exist in the
      calendar get the same "invalid date format" reply. */
  datatype ShowRequest =
    | MissingDate
    | BadDate
    | Lookup(key: string, dateText: string)

  /** `text.split(maxsplit=1)[1].strip()`: what follows the command word, with
      the surrounding whitespace removed; empty when the split gives fewer than
      two parts. */
  function ShowArgument(text: string): (r: string)
    ensures r == [] || (!IsSpace(r[0]) && !IsSpace(r[|r| - 1]))
  {
    var rest := TrimStart(TrimStart(text, IsSpace), IsNotSpace);
    Trim(rest)
  }

  /** `/show <date>`: the whole argument must be one date token naming a real
      calendar date. */
  function PlanShow(text: string): (r: ShowRequest)
    ensures r == MissingDate <==> ShowArgument(text) == []
    ensures r.Lookup? <==> IsToken(ShowArgument(text)) && Strptime(ShowArgument(text)).Some?
    ensures r.Lookup? ==>
      && r.dateText == ShowArgument(text)
      && r.key == r.dateText[6..10] + "-" + r.dateText[3..5] + "-" + r.dateText[0..2]
      && IsIsoKey(r.key)
  {
    var arg := ShowArgument(text);
    if arg == [] then MissingDate
    else if !IsToken(arg) then BadDate
    else match Strptime(arg)
      case None => BadDate
      case Some(d) =>
        IsoKeyOfToken(arg);
        IsoRoundTrip(d);
        Lookup(FormatIso(d), arg)
  }

  /** An argument with more than the date in it, such as two words, is
      rejected with "invalid date format". */
  lemma ShowRejectsExtraText(text: string, i: nat)
    requires i < |ShowArgument(text)| && IsSpace(ShowArgument(text)[i])
    ensures PlanShow(text) == BadDate
  {
    NoSpaceInToken(ShowArgument(text), i);
  }

  /** A command word with no whitespace in it, one space, then `arg`: the
      argument is `arg` with its surrounding whitespace removed. */
  lemma ShowArgumentOfCommand(command: string, arg: string)
    requires command != [] && AllSatisfy(command, IsNotSpace)
    ensures ShowArgument(command + " " + arg) == Trim(arg)
  {
    var s := command + " " + arg;
    assert s[0] == command[0];
    assert TrimStart(s, IsSpace) == s;
    assert s == command + (" " + arg);
    TrimStartDroppedPrefix(command, " " + arg, IsNotSpace);
    assert TrimStart(" " + arg, IsNotSpace) == " " + arg;
    assert " " + arg == [' '] + arg;
    TrimStartDropped(' ', arg, IsSpace);
  }

  /** "/show 15.02.2026" looks the date up under its ISO key. */
  lemma ShowOfValidToken(command: string, tok: string)
    requires command != [] && AllSatisfy(command, IsNotSpace)
    requires IsToken(tok) && Strptime(tok).Some?
    ensures PlanShow(command + " " + tok)
         == Lookup(tok[6..10] + "-" + tok[3..5] + "-" + tok[0..2], tok)
  {
    var text := command + " " + tok;
    ShowArgumentOfCommand(command, tok);
    TrimToken(tok);
    PlanShowOfArgument(text);
  }

  /** A date token has nothing to trim. */
  lemma TrimToken(tok: string)
    requires IsToken(tok)
    ensures Trim(tok) == tok
  {
    StripUnchanged(tok, IsSpace);
  }

  /** An argument that is a real date is looked up under its ISO key. */
  lemma PlanShowOfArgument(text: string)
    requires IsToken(ShowArgument(text)) && Strptime(ShowArgument(text)).Some?
    ensures var tok := ShowArgument(text);
      PlanShow(text) == Lookup(tok[6..10] + "-" + tok[3..5] + "-" + tok[0..2], tok)
  {
  }

  /** "/show 31.02.2026" is answered with "invalid date format", like a
      text that is no date at all. */
  lemma ShowOfImpossibleToken(command: string, tok: string)
    requires command != [] && AllSatisfy(command, IsNotSpace)
    requires IsToken(tok) && Strptime(tok).None?
    ensures PlanShow(command + " " + tok) == BadDate
  {
    ShowArgumentOfCommand(command, tok);
    TrimToken(tok);
  }
}
