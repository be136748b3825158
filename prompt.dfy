/**
 * The prompt builder `GitCommitHelper.prepare_claude_prompt`: a fixed
 * instruction header, then one block per change in order, then a fixed
 * closing sentence. The source grows the prompt with `+=` inside a loop;
 * BuildPrompt does the same and is proved equal to the specification
 * PromptText, whose shape and length are then stated as lemmas.
 */
module Prompt {
  import opened StagedChanges

  /** The instruction text the prompt starts with, exactly as the source writes
      it (including the indentation of its triple-quoted literal). */
  const Header: string :=
    "You are a helpful assistant that generates descriptive git commit messages. \n"
    + "        Analyze the following changes and generate a clear, informative commit message that describes what was changed and why.\n"
    + "        Focus on the functional changes and their impact. Use the active voice and present tense.\n"
    + "\n"
    + "        Just answer directly with the commit text.\n"
    + "        \n"
    + "        The commit message should follow this format:\n"
    + "        - First line: Short summary (50-72 characters)\n"
    + "        - Second line: Blank\n"
    + "        - Following lines: Detailed explanation if needed\n"
    + "        \n"
    + "        Here are the changes:\n\n"

  /** The instruction the prompt ends with. */
  const Closing: string :=
    "\nBased on these changes, generate a commit message that explains what was changed and why."

  const FileLabel: string := "File: "
  const DiffLabel: string := "Diff:\n"
  const ContentLabel: string := "Current file content:\n"

  /** The three lines the source appends for one change. */
  function FileLine(c: Change): string { FileLabel + c.path + "\n" }
  function DiffSection(c: Change): string { DiffLabel + c.diff + "\n" }
  function ContentSection(c: Change): string { ContentLabel + c.content + "\n\n" }

  /** The text one change contributes: its path, its diff and its content, each labelled. */
  function Block(c: Change): (b: string)
    ensures |b| == BlockLength(c)
  {
    FileLine(c) + DiffSection(c) + ContentSection(c)
  }

  /** The blocks of all changes, in order. */
  function Blocks(cs: seq<Change>): (r: string)
    ensures |r| >= 38 * |cs|
    decreases |cs|
  {
    if cs == [] then "" else Block(cs[0]) + Blocks(cs[1..])
  }

  /** The whole prompt for a list of changes. */
  function PromptText(cs: seq<Change>): (p: string)
    ensures |p| >= |Header| + 38 * |cs| + |Closing|
  {
    Header + Blocks(cs) + Closing
  }

  /** `prepare_claude_prompt`: the prompt grown by `+=`, one change at a time. */
  method BuildPrompt(changes: seq<Change>) returns (prompt: string)
    ensures prompt == PromptText(changes)
  {
    prompt := Header;
    var i := 0;
    while i < |changes|
      invariant 0 <= i <= |changes|
      invariant prompt == Header + Blocks(changes[..i])
    {
      var c := changes[i];
      prompt := prompt + FileLine(c);
      prompt := prompt + DiffSection(c);
      prompt := prompt + ContentSection(c);
      AppendNextBlock(changes, i);
      i := i + 1;
    }
    assert changes[..i] == changes;
    prompt := prompt + Closing;
  }

  // ---------------------------------------------------------------------
  // Properties of the prompt
  // ---------------------------------------------------------------------

  /** Building the blocks distributes over concatenation of change lists. */
  lemma {:induction false} BlocksAppend(a: seq<Change>, b: seq<Change>)
    ensures Blocks(a + b) == Blocks(a) + Blocks(b)
    decreases |a|
  {
    if a == [] {
      assert a + b == b;
    } else {
      assert (a + b)[1..] == a[1..] + b;
      BlocksAppend(a[1..], b);
    }
  }

  /** With no changes the prompt is the header followed directly by the closing. */
  lemma PromptOfNoChanges()
    ensures PromptText([]) == Header + Closing
  {
  }

  /** The prompt always starts with the header and ends with the closing sentence. */
  lemma PromptFrame(cs: seq<Change>)
    ensures |PromptText(cs)| >= |Header| + |Closing|
    ensures PromptText(cs)[..|Header|] == Header
    ensures PromptText(cs)[|PromptText(cs)| - |Closing|..] == Closing
  {
  }

  /** The number of characters one change contributes: its three fields plus
      38 characters of labels and newlines. */
  function BlockLength(c: Change): nat
  {
    |c.path| + |c.diff| + |c.content| + 38
  }

  function TotalBlockLength(cs: seq<Change>): nat
    decreases |cs|
  {
    if cs == [] then 0 else BlockLength(cs[0]) + TotalBlockLength(cs[1..])
  }

  /** Nothing is truncated: every character of every path, diff and content
      is in the prompt, and so are the fixed texts around them. */
  lemma {:induction false} PromptLength(cs: seq<Change>)
    ensures |PromptText(cs)| == |Header| + TotalBlockLength(cs) + |Closing|
  {
    BlocksLength(cs);
  }

  lemma {:induction false} BlocksLength(cs: seq<Change>)
    ensures |Blocks(cs)| == TotalBlockLength(cs)
    decreases |cs|
  {
    if cs != [] {
      BlocksLength(cs[1..]);
    }
  }

  /** Where the i-th change's block starts in the prompt: after the header
      and the blocks of the changes before it. */
  function BlockOffset(cs: seq<Change>, i: nat): nat
    requires i <= |cs|
  {
    |Header| + |Blocks(cs[..i])|
  }

  /** Every change appears in the prompt as its own block, verbatim and in
      the order of the list: block i starts where block i - 1 ends. */
  lemma BlockInPrompt(cs: seq<Change>, i: nat)
    requires i < |cs|
    ensures BlockOffset(cs, i + 1) == BlockOffset(cs, i) + |Block(cs[i])|
    ensures BlockOffset(cs, i + 1) <= |PromptText(cs)|
    ensures PromptText(cs)[BlockOffset(cs, i)..BlockOffset(cs, i + 1)] == Block(cs[i])
  {
    var before, after := cs[..i], cs[i + 1..];
    assert cs == before + [cs[i]] + after;
    assert cs[..i + 1] == before + [cs[i]];
    BlocksAppend(before + [cs[i]], after);
    BlocksAppend(before, [cs[i]]);
    BlocksOfOne(cs[i]);
    var x, y, z := Header + Blocks(before), Block(cs[i]), Blocks(after) + Closing;
    AppendAssoc(Header, Blocks(before) + y, Blocks(after));
    AppendAssoc(Header, Blocks(before), y);
    AppendAssoc(x + y, Blocks(after), Closing);
    assert PromptText(cs) == x + y + z;
    SliceMiddle(x, y, z);
  }

  /** One turn of BuildPrompt's loop appends exactly the next change's block. */
  lemma AppendNextBlock(cs: seq<Change>, i: nat)
    requires i < |cs|
    ensures Header + Blocks(cs[..i]) + FileLine(cs[i]) + DiffSection(cs[i]) + ContentSection(cs[i])
            == Header + Blocks(cs[..i + 1])
  {
    var c, before := cs[i], Header + Blocks(cs[..i]);
    AppendAssoc(before, FileLine(c), DiffSection(c));
    AppendAssoc(before, FileLine(c) + DiffSection(c), ContentSection(c));
    BlocksOfOne(c);
    BlocksAppend(cs[..i], [c]);
    assert cs[..i + 1] == cs[..i] + [c];
    AppendAssoc(Header, Blocks(cs[..i]), Block(c));
  }

  // ---------------------------------------------------------------------
  // Helpers about string concatenation
  // ---------------------------------------------------------------------

  lemma AppendAssoc(a: string, b: string, c: string)
    ensures (a + b) + c == a + (b + c)
  {
  }

  lemma SliceMiddle(x: string, y: string, z: string)
    ensures |x| + |y| <= |x + y + z|
    ensures (x + y + z)[|x|..|x| + |y|] == y
  {
  }

  lemma BlocksOfOne(c: Change)
    ensures Blocks([c]) == Block(c)
  {
  }
}
