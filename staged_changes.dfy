/**
 * The change collector of `GitCommitHelper.get_staged_changes`: the list of
 * staged paths is cut out of git's name listing, and one change record
 * (path, staged diff, current content) is assembled per path, in order.
 *
 * The git subprocesses and the file reads are inputs here: the name listing
 * is an `Option<string>` (None when git itself fails), the per-path diff is a
 * function `diffOf` (None when `git diff --cached <path>` fails) and the file
 * read is a function `readFile` (None when the file cannot be read).
 */
module StagedChanges {
  import opened Optional
  import opened Text

  /** One staged file: its path, its staged diff and its current content. */
  datatype Change = Change(path: string, diff: string, content: string)

  // ---------------------------------------------------------------------
  // Staged-path list: the list comprehension `[f for f in ... if f]`
  // ---------------------------------------------------------------------

  /** The pieces that are not empty, in their original order. */
  function KeepNonEmpty(pieces: seq<string>): (r: seq<string>)
    ensures "" !in r
    ensures forall x :: x in r ==> x in pieces
    decreases |pieces|
  {
    if pieces == [] then []
    else (if pieces[0] == "" then [] else [pieces[0]]) + KeepNonEmpty(pieces[1..])
  }

  /** The staged paths named by git's `--name-only` listing: the lines of the
      listing that are not empty. No path is empty and none holds a newline. */
  function StagedPaths(listing: string): (paths: seq<string>)
    ensures "" !in paths
    ensures forall i :: 0 <= i < |paths| ==> '\n' !in paths[i]
  {
    var lines := Split(listing, '\n');
    SplitPiecesLackSeparator(listing, '\n');
    assert forall x :: x in lines ==> '\n' !in x;
    KeepNonEmpty(lines)
  }

  /** r can be obtained from s by deleting elements. */
  predicate IsSubsequence(r: seq<string>, s: seq<string>)
    decreases |s|
  {
    r == [] || (s != [] && ((r[0] == s[0] && IsSubsequence(r[1..], s[1..])) || IsSubsequence(r, s[1..])))
  }

  /** An independent description of the filter: r keeps the order of the
      pieces, holds no empty string, and keeps every non-empty piece as often
      as it occurs. */
  ghost predicate NonEmptyPiecesInOrder(r: seq<string>, pieces: seq<string>)
  {
    && IsSubsequence(r, pieces)
    && "" !in r
    && forall x :: x != "" ==> multiset(r)[x] == multiset(pieces)[x]
  }

  lemma {:induction false} SubsequenceCounts(r: seq<string>, s: seq<string>)
    requires IsSubsequence(r, s)
    ensures forall x :: multiset(r)[x] <= multiset(s)[x]
    decreases |s|
  {
    if r != [] {
      assert s == [s[0]] + s[1..];
      if r[0] == s[0] && IsSubsequence(r[1..], s[1..]) {
        SubsequenceCounts(r[1..], s[1..]);
        assert r == [r[0]] + r[1..];
      } else {
        SubsequenceCounts(r, s[1..]);
      }
    }
  }

  lemma {:induction false} KeepNonEmptyIsNonEmptyPieces(pieces: seq<string>)
    ensures NonEmptyPiecesInOrder(KeepNonEmpty(pieces), pieces)
    decreases |pieces|
  {
    if pieces != [] {
      KeepNonEmptyIsNonEmptyPieces(pieces[1..]);
      var rest := KeepNonEmpty(pieces[1..]);
      assert pieces == [pieces[0]] + pieces[1..];
      var r := KeepNonEmpty(pieces);
      if pieces[0] != "" {
        assert r == [pieces[0]] + rest;
        assert r[1..] == rest;
        assert r[0] == pieces[0] && IsSubsequence(r[1..], pieces[1..]);
        assert multiset(r) == multiset{pieces[0]} + multiset(rest);
      } else {
        assert r == rest;
      }
      assert multiset(pieces) == multiset{pieces[0]} + multiset(pieces[1..]);
    }
  }

  lemma {:induction false} OnlyKeepNonEmpty(r: seq<string>, pieces: seq<string>)
    requires NonEmptyPiecesInOrder(r, pieces)
    ensures r == KeepNonEmpty(pieces)
    decreases |pieces|
  {
    if pieces != [] {
      var p := pieces[0];
      assert pieces == [p] + pieces[1..];
      if p == "" {
        assert IsSubsequence(r, pieces[1..]);
        assert multiset(pieces) == multiset{p} + multiset(pieces[1..]);
        OnlyKeepNonEmpty(r, pieces[1..]);
      } else {
        assert multiset(r)[p] == multiset(pieces)[p] >= 1;
        assert r != [];
        if r[0] == p && IsSubsequence(r[1..], pieces[1..]) {
          assert r == [p] + r[1..];
          assert multiset(r) == multiset{p} + multiset(r[1..]);
          assert multiset(pieces) == multiset{p} + multiset(pieces[1..]);
          forall x | x != "" ensures multiset(r[1..])[x] == multiset(pieces[1..])[x] {
            assert multiset(r)[x] == multiset(pieces)[x];
          }
          OnlyKeepNonEmpty(r[1..], pieces[1..]);
        } else {
          SubsequenceCounts(r, pieces[1..]);
          assert false;
        }
      }
    }
  }

  /** The staged-path filter is exactly "the non-empty pieces, in order". */
  lemma KeepNonEmptyCharacterized(r: seq<string>, pieces: seq<string>)
    ensures NonEmptyPiecesInOrder(r, pieces) <==> r == KeepNonEmpty(pieces)
  {
    KeepNonEmptyIsNonEmptyPieces(pieces);
    if NonEmptyPiecesInOrder(r, pieces) {
      OnlyKeepNonEmpty(r, pieces);
    }
  }

  /** The staged paths are exactly the non-empty lines of the listing, in order. */
  lemma StagedPathsAreNonEmptyLines(listing: string)
    ensures NonEmptyPiecesInOrder(StagedPaths(listing), Split(listing, '\n'))
  {
    KeepNonEmptyIsNonEmptyPieces(Split(listing, '\n'));
  }

  // ---------------------------------------------------------------------
  // Change-record assembly: the `for file_path in staged_files` loop
  // ---------------------------------------------------------------------

  /** The content recorded for a path: the file's text, or "" when it could not be read. */
  function ContentOf(read: Option<string>): (c: string)
    ensures read.None? ==> c == ""
    ensures read.Some? ==> c == read.value
  {
    read.GetOr("")
  }

  /** The change records for paths, or None when git fails to give the diff
      of one of them. */
  function Assemble(paths: seq<string>, diffOf: string -> Option<string>,
                    readFile: string -> Option<string>): (r: Option<seq<Change>>)
    ensures r.Some? ==> |r.value| == |paths|
    decreases |paths|
  {
    if paths == [] then Some([])
    else
      var p := paths[|paths| - 1];
      match Assemble(paths[..|paths| - 1], diffOf, readFile)
      case None => None
      case Some(prefix) =>
        match diffOf(p)
        case None => None
        case Some(d) => Some(prefix + [Change(p, d, ContentOf(readFile(p)))])
  }

  /** Assembly succeeds exactly when every path has a diff; then there is one
      record per path, in order, holding that path, its diff and its content
      ("" for an unreadable file). */
  lemma {:induction false} AssembleSpec(paths: seq<string>, diffOf: string -> Option<string>,
                                        readFile: string -> Option<string>)
    ensures Assemble(paths, diffOf, readFile).Some? <==>
              forall i :: 0 <= i < |paths| ==> diffOf(paths[i]).Some?
    ensures Assemble(paths, diffOf, readFile).Some? ==>
              var cs := Assemble(paths, diffOf, readFile).value;
              && |cs| == |paths|
              && forall i :: 0 <= i < |paths| ==>
                   cs[i] == Change(paths[i], diffOf(paths[i]).value, ContentOf(readFile(paths[i])))
    decreases |paths|
  {
    if paths != [] {
      var n := |paths| - 1;
      var front := paths[..n];
      AssembleSpec(front, diffOf, readFile);
      assert forall i :: 0 <= i < n ==> front[i] == paths[i];
    }
  }

  /** `get_staged_changes`: the staged paths of the listing, and for each one,
      in order, its diff and its content. None stands for the fatal git
      failure (the listing or one diff could not be obtained). */
  method CollectChanges(listing: Option<string>, diffOf: string -> Option<string>,
                        readFile: string -> Option<string>)
    returns (changes: Option<seq<Change>>)
    ensures listing.None? ==> changes.None?
    ensures listing.Some? ==> changes == Assemble(StagedPaths(listing.value), diffOf, readFile)
  {
    if listing.None? {
      return None;
    }
    var paths := StagedPaths(listing.value);
    var acc: seq<Change> := [];
    var i := 0;
    while i < |paths|
      invariant 0 <= i <= |paths|
      invariant Assemble(paths[..i], diffOf, readFile) == Some(acc)
    {
      var path := paths[i];
      var diff := diffOf(path);
      if diff.None? {
        AssembleSpec(paths, diffOf, readFile);
        return None;
      }
      var content := ContentOf(readFile(path));
      acc := acc + [Change(path, diff.value, content)];
      assert paths[..i + 1][..i] == paths[..i];
      i := i + 1;
    }
    assert paths[..i] == paths;
    changes := Some(acc);
  }
}
