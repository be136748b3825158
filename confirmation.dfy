/**
 * The confirmation step at the end of `GitCommitHelper.run`: the user's
 * reply, lower-cased, decides between committing with the proposed message,
 * opening it in git's editor, and cancelling. The terminal read, the write of
 * the draft file and the git invocations are not modelled; the outcome names
 * what the program goes on to do.
 */
module Confirmation {
  import opened Optional
  import opened Text
  import opened StagedChanges
  import opened Messages

  datatype Decision = Accept | Edit | Cancel

  /** `confirmation.lower() == 'y'` accepts, `== 'e'` edits, anything else
      cancels. Only a one-letter reply, in either case, avoids cancelling. */
  function Decide(reply: string): (d: Decision)
    ensures d == Accept <==> reply == "y" || reply == "Y"
    ensures d == Edit <==> reply == "e" || reply == "E"
    ensures d == Cancel <==> reply != "y" && reply != "Y" && reply != "e" && reply != "E"
  {
    AsciiLowerIsLetter(reply, 'y');
    AsciiLowerIsLetter(reply, 'e');
    var answer := AsciiLower(reply);
    if answer == "y" then Accept
    else if answer == "e" then Edit
    else Cancel
  }

  /** The empty reply and any reply longer than one character, such as " y"
      or "yes", cancel. */
  lemma LongOrEmptyRepliesCancel(reply: string)
    requires |reply| != 1
    ensures Decide(reply) == Cancel
  {
  }

  /** What the program does after the reply: `git commit -m` with the message,
      write the message to `.git/COMMIT_EDITMSG` and run `git commit -e`, or
      stop without touching the repository. The commit made through the
      editor is not modelled: EditorOpened records the draft the script writes. */
  datatype Outcome = Committed(message: string) | EditorOpened(draft: string) | Cancelled

  function Act(d: Decision, message: string): (o: Outcome)
    ensures o.Committed? <==> d == Accept
    ensures o.EditorOpened? <==> d == Edit
    ensures o.Committed? ==> o.message == message
    ensures o.EditorOpened? ==> o.draft == message
  {
    match d
    case Accept => Committed(message)
    case Edit => EditorOpened(message)
    case Cancel => Cancelled
  }

  /** From the collected changes, the remote service's answer (None when the
      call failed) and the user's reply to what the program does. */
  function Conclude(changes: seq<Change>, generated: Option<string>, reply: string): (o: Outcome)
    ensures o.Committed? ==> o.message == SelectMessage(changes, generated)
    ensures o.EditorOpened? ==> o.draft == SelectMessage(changes, generated)
    ensures o == Cancelled <==> Decide(reply) == Cancel
  {
    Act(Decide(reply), SelectMessage(changes, generated))
  }

  /** `git commit -m` runs only on "y" or "Y", and then with exactly the
      message that was proposed: the generated text, or the fallback message
      when the service failed. Any reply other than y/Y/e/E leaves the
      repository alone. */
  lemma CommitOnlyOnAccept(changes: seq<Change>, generated: Option<string>, reply: string)
    ensures Conclude(changes, generated, reply).Committed? <==> reply == "y" || reply == "Y"
    ensures Conclude(changes, generated, reply).Committed? && generated.None? ==>
              Conclude(changes, generated, reply).message == FallbackMessage(changes)
    ensures Conclude(changes, generated, reply).Committed? && generated.Some? ==>
              Conclude(changes, generated, reply).message == generated.value
    ensures Conclude(changes, generated, reply) == Cancelled <==>
              reply != "y" && reply != "Y" && reply != "e" && reply != "E"
  {
  }
}
