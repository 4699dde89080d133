/** `handle_locked_file`: ask the user what to do about a locked output file, round
    after round, until a usable path is found or the user gives up. */
module LockedFile {
  import opened OutputNames

  /** The three buttons of the "File In Use" question: Yes (retry), No (save under
      another name) and Cancel, closing the dialog counting as Cancel. */
  datatype Answer = Retry | SaveAs | Cancel

  /** How the loop ends: with a path to write to, with the script exiting, or not
      at all within the answers given (the user was still being asked). */
  datatype Resolution = Resolved(path: string) | Exited | Unanswered

  /** The outcome of one round, or `None` when the loop goes round again. */
  datatype Option<T> = None | Some(value: T)

  /** The lock checks are numbered in the order the script makes them: check 0 is
      the one before `handle_locked_file` is called, check `k + 1` the one of round
      `k`. `locked(n, p)` says whether `p` is locked at check `n`, and
      `saveDialog(k, name)` is the path the save dialog of round `k` returns when
      it suggests `name` ("" when the user cancels it). */
  function Round(style: PathStyle, output: string, answer: Answer, k: nat,
                 saveDialog: (nat, string) -> string, locked: (nat, string) -> bool): (outcome: Option<Resolution>)
    ensures outcome != Some(Unanswered)
    ensures outcome.Some? && outcome.value.Resolved? ==>
      && !locked(k + 1, outcome.value.path)
      && (answer == Retry ==> outcome.value.path == output)
      && (answer == SaveAs ==> outcome.value.path == saveDialog(k, AlternativeName(style, output)) != [])
    ensures outcome == Some(Exited) <==>
      answer == Cancel || (answer == SaveAs && saveDialog(k, AlternativeName(style, output)) == [])
    ensures outcome == None <==>
      || (answer == Retry && locked(k + 1, output))
      || (answer == SaveAs && saveDialog(k, AlternativeName(style, output)) != []
          && locked(k + 1, saveDialog(k, AlternativeName(style, output))))
  {
    match answer
    case Retry =>
      if !locked(k + 1, output) then Some(Resolved(output)) else None
    case SaveAs =>
      var chosen := saveDialog(k, AlternativeName(style, output));
      if chosen != [] && !locked(k + 1, chosen) then Some(Resolved(chosen))
      else if chosen == [] then Some(Exited)
      else None
    case Cancel =>
      Some(Exited)
  }

  /** The loop from round `k` on. */
  function Resolve(style: PathStyle, output: string, answers: seq<Answer>, k: nat,
                   saveDialog: (nat, string) -> string, locked: (nat, string) -> bool): Resolution
    requires k <= |answers|
    decreases |answers| - k
  {
    if k == |answers| then Unanswered
    else match Round(style, output, answers[k], k, saveDialog, locked)
      case Some(res) => res
      case None => Resolve(style, output, answers, k + 1, saveDialog, locked)
  }

  /** Every round before round `k` went on. */
  ghost predicate WentOnBefore(style: PathStyle, output: string, answers: seq<Answer>, k: nat,
                               saveDialog: (nat, string) -> string, locked: (nat, string) -> bool)
    requires k <= |answers|
  {
    forall j | 0 <= j < k :: Round(style, output, answers[j], j, saveDialog, locked).None?
  }

  /** Round `k` is the one that ends the loop: every earlier round went on. */
  ghost predicate DecidedAt(style: PathStyle, output: string, answers: seq<Answer>, k: nat,
                            saveDialog: (nat, string) -> string, locked: (nat, string) -> bool)
  {
    && k < |answers|
    && Round(style, output, answers[k], k, saveDialog, locked).Some?
    && WentOnBefore(style, output, answers, k, saveDialog, locked)
  }

  lemma WentOnStep(style: PathStyle, output: string, answers: seq<Answer>, k: nat,
                   saveDialog: (nat, string) -> string, locked: (nat, string) -> bool)
    requires k < |answers|
    requires WentOnBefore(style, output, answers, k, saveDialog, locked)
    requires Round(style, output, answers[k], k, saveDialog, locked).None?
    ensures WentOnBefore(style, output, answers, k + 1, saveDialog, locked)
  {
  }

  /** One round of the loop, lines 18-46: show the question and act on the answer. */
  method AskOnce(style: PathStyle, output: string, answer: Answer, k: nat,
                 saveDialog: (nat, string) -> string, locked: (nat, string) -> bool)
    returns (outcome: Option<Resolution>)
    ensures outcome == Round(style, output, answer, k, saveDialog, locked)
    ensures outcome.Some? && outcome.value.Resolved? ==> !locked(k + 1, outcome.value.path)
  {
    outcome := None;
    match answer {
      case Retry =>
        if !locked(k + 1, output) {
          outcome := Some(Resolved(output));
        }
      case SaveAs =>
        var newOutput := saveDialog(k, AlternativeName(style, output));
        if newOutput != [] && !locked(k + 1, newOutput) {
          outcome := Some(Resolved(newOutput));
        } else if newOutput == [] {
          outcome := Some(Exited);
        }
      case Cancel =>
        outcome := Some(Exited);
    }
  }

  /** The loop of lines 17-46, over the answers the user gives in turn. `asked` is
      the number of times the question was shown. */
  method HandleLockedFile(style: PathStyle, output: string, answers: seq<Answer>,
                          saveDialog: (nat, string) -> string, locked: (nat, string) -> bool)
    returns (res: Resolution, asked: nat)
    ensures res == Resolve(style, output, answers, 0, saveDialog, locked)
    ensures res != Unanswered ==>
      1 <= asked <= |answers| && DecidedAt(style, output, answers, asked - 1, saveDialog, locked)
    ensures res == Unanswered ==> asked == |answers|
  {
    var k := 0;
    while k < |answers|
      invariant k <= |answers|
      invariant Resolve(style, output, answers, 0, saveDialog, locked)
             == Resolve(style, output, answers, k, saveDialog, locked)
      invariant WentOnBefore(style, output, answers, k, saveDialog, locked)
    {
      var outcome := AskOnce(style, output, answers[k], k, saveDialog, locked);
      if outcome.Some? {
        return outcome.value, k + 1;
      }
      WentOnStep(style, output, answers, k, saveDialog, locked);
      k := k + 1;
    }
    return Unanswered, k;
  }

  /** The loop ends in the first round that decides, with that round's outcome, and
      when no round decides it does not end within the answers. */
  lemma {:induction false} ResolveIsFirstDecision(style: PathStyle, output: string, answers: seq<Answer>, k: nat,
                                                 saveDialog: (nat, string) -> string, locked: (nat, string) -> bool)
    requires k <= |answers|
    requires forall j | 0 <= j < k :: Round(style, output, answers[j], j, saveDialog, locked).None?
    ensures var res := Resolve(style, output, answers, k, saveDialog, locked);
      && (res == Unanswered <==>
            forall j | k <= j < |answers| :: Round(style, output, answers[j], j, saveDialog, locked).None?)
      && (res != Unanswered ==> exists d | k <= d < |answers| ::
            DecidedAt(style, output, answers, d, saveDialog, locked)
            && res == Round(style, output, answers[d], d, saveDialog, locked).value)
    decreases |answers| - k
  {
    if k < |answers| {
      var round := Round(style, output, answers[k], k, saveDialog, locked);
      if round.None? {
        ResolveIsFirstDecision(style, output, answers, k + 1, saveDialog, locked);
      } else {
        assert DecidedAt(style, output, answers, k, saveDialog, locked);
      }
    }
  }

  /** A path the loop settles on was free at the check of the round that chose it,
      and it is either the original output (after Yes) or what that round's save
      dialog returned (after No); the suggestion in every save dialog is built from
      the original output, whatever was chosen in earlier rounds. */
  lemma ResolvedPathIsFree(style: PathStyle, output: string, answers: seq<Answer>, path: string,
                           saveDialog: (nat, string) -> string, locked: (nat, string) -> bool)
    requires Resolve(style, output, answers, 0, saveDialog, locked) == Resolved(path)
    ensures exists d | 0 <= d < |answers| ::
      && DecidedAt(style, output, answers, d, saveDialog, locked)
      && !locked(d + 1, path)
      && (|| (answers[d] == Retry && path == output)
          || (answers[d] == SaveAs && path != [] && path == saveDialog(d, AlternativeName(style, output))))
  {
    ResolveIsFirstDecision(style, output, answers, 0, saveDialog, locked);
  }

  /** The script exits only when the deciding round was Cancel, or No followed
      by a cancelled save dialog. */
  lemma ExitMeansCancelled(style: PathStyle, output: string, answers: seq<Answer>,
                           saveDialog: (nat, string) -> string, locked: (nat, string) -> bool)
    requires Resolve(style, output, answers, 0, saveDialog, locked) == Exited
    ensures exists d | 0 <= d < |answers| ::
      && DecidedAt(style, output, answers, d, saveDialog, locked)
      && (answers[d] == Cancel || (answers[d] == SaveAs && saveDialog(d, AlternativeName(style, output)) == []))
  {
    ResolveIsFirstDecision(style, output, answers, 0, saveDialog, locked);
  }

  /** Retrying while the file stays locked, or choosing other names that are locked
      too, never ends the loop: the user is asked again. */
  lemma LockedChoicesKeepAsking(style: PathStyle, output: string, answers: seq<Answer>,
                                saveDialog: (nat, string) -> string, locked: (nat, string) -> bool)
    requires forall j | 0 <= j < |answers| :: answers[j] != Cancel
    requires forall j | 0 <= j < |answers| :: answers[j] == Retry ==> locked(j + 1, output)
    requires forall j | 0 <= j < |answers| :: answers[j] == SaveAs ==>
      var chosen := saveDialog(j, AlternativeName(style, output));
      chosen != [] && locked(j + 1, chosen)
    ensures Resolve(style, output, answers, 0, saveDialog, locked) == Unanswered
  {
    ResolveIsFirstDecision(style, output, answers, 0, saveDialog, locked);
  }
}
