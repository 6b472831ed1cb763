/**
 * The requirements list: how the analysis reply is turned into requirement lines
 * (bidWinner.py:100), how staged edits are collected (bidWinner.py:119-122) and how
 * the list is joined back into one block for proposal generation (bidWinner.py:252).
 */
module Requirements {
  import opened Text

  /** What every parsed requirement looks like: non-empty, stripped, one line. */
  predicate IsRequirementLine(x: string) {
    x != [] && !IsSpace(x[0]) && !IsSpace(x[|x| - 1]) && '\n' !in x
  }

  /** `[line.strip() for line in lines]`. */
  function StripAll(lines: seq<string>): (r: seq<string>)
    ensures |r| == |lines|
    ensures forall j :: 0 <= j < |lines| ==> r[j] == Strip(lines[j])
  {
    seq(|lines|, j requires 0 <= j < |lines| => Strip(lines[j]))
  }

  /** The `if` of the comprehension: keeps the non-empty strings, in order. */
  function DropEmpty(xs: seq<string>): (r: seq<string>)
    ensures |r| <= |xs|
    ensures forall k :: 0 <= k < |r| ==> r[k] != [] && r[k] in xs
  {
    if xs == [] then []
    else (if xs[0] == [] then [] else [xs[0]]) + DropEmpty(xs[1..])
  }

  /** The parser of bidWinner.py:100: `[line.strip() for line in text.split('\n') if line.strip()]`.
      Every requirement it yields is non-empty, stripped and free of line breaks. */
  function ParseRequirements(text: string): (reqs: seq<string>)
    ensures forall k :: 0 <= k < |reqs| ==> IsRequirementLine(reqs[k])
  {
    var lines := Split(text, "\n");
    LinesHaveNoBreak(text);
    StrippedLinesClean(lines);
    DropEmpty(StripAll(lines))
  }

  /** The pieces of `text.split('\n')` hold no line break. */
  lemma LinesHaveNoBreak(text: string)
    ensures forall j :: 0 <= j < |Split(text, "\n")| ==> '\n' !in Split(text, "\n")[j]
  {
    var lines := Split(text, "\n");
    SplitPiecesFree(text, "\n");
    forall j, k | 0 <= j < |lines| && 0 <= k < |lines[j]| ensures lines[j][k] != '\n' {
      OccursChar(lines[j], '\n', k);
    }
  }

  /** A non-empty stripped line without line breaks is a requirement line. */
  lemma StrippedLinesClean(lines: seq<string>)
    requires forall j :: 0 <= j < |lines| ==> '\n' !in lines[j]
    ensures forall x :: x in StripAll(lines) && x != [] ==> IsRequirementLine(x)
  {
    forall j | 0 <= j < |lines| {
      StripKeepsOut(lines[j], '\n');
    }
  }

  /** The positions, from `i` on, of the strings that are not empty. */
  function KeptFrom(xs: seq<string>, i: nat): (idx: seq<nat>)
    decreases |xs| - i
  {
    if i >= |xs| then []
    else (if xs[i] == [] then [] else [i]) + KeptFrom(xs, i + 1)
  }

  /** The kept positions lie in `[i, |xs|)`, increase, and include every non-empty
      string from `i` on. */
  lemma {:induction false} KeptFromShape(xs: seq<string>, i: nat)
    requires i <= |xs|
    decreases |xs| - i
    ensures forall k :: 0 <= k < |KeptFrom(xs, i)| ==> i <= KeptFrom(xs, i)[k] < |xs|
    ensures forall a, b :: 0 <= a < b < |KeptFrom(xs, i)| ==> KeptFrom(xs, i)[a] < KeptFrom(xs, i)[b]
    ensures forall j :: i <= j < |xs| && xs[j] != [] ==> j in KeptFrom(xs, i)
  {
    if i < |xs| {
      KeptFromShape(xs, i + 1);
      var tailIdx := KeptFrom(xs, i + 1);
      var idx := KeptFrom(xs, i);
      if xs[i] != [] {
        assert idx == [i] + tailIdx;
        forall a, b | 0 <= a < b < |idx| ensures idx[a] < idx[b] {
          assert idx[b] == tailIdx[b - 1];
        }
      }
    }
  }

  /** Kept string k is the string at kept position k. */
  lemma {:induction false} DropEmptyFrom(xs: seq<string>, i: nat)
    requires i <= |xs|
    decreases |xs| - i
    ensures |KeptFrom(xs, i)| == |DropEmpty(xs[i..])|
    ensures forall k :: 0 <= k < |KeptFrom(xs, i)| ==>
              KeptFrom(xs, i)[k] < |xs| && DropEmpty(xs[i..])[k] == xs[KeptFrom(xs, i)[k]]
  {
    if i < |xs| {
      DropEmptyFrom(xs, i + 1);
      assert xs[i..] == [xs[i]] + xs[i + 1..];
      var tail := DropEmpty(xs[i + 1..]);
      var tailIdx := KeptFrom(xs, i + 1);
      var r := DropEmpty(xs[i..]);
      var idx := KeptFrom(xs, i);
      if xs[i] == [] {
        assert r == tail && idx == tailIdx;
      } else {
        assert r == [xs[i]] + tail && idx == [i] + tailIdx;
      }
    }
  }

  /** Parsing keeps exactly the lines that are not blank once stripped, stripped, in
      their original order: requirement k is line `KeptFrom(..)[k]` stripped, the kept
      positions increase, and every line that is not blank is kept. */
  lemma ParseKeepsNonBlankLinesInOrder(text: string)
    ensures var lines := Split(text, "\n");
            var reqs := ParseRequirements(text);
            var idx := KeptFrom(StripAll(lines), 0);
            && |idx| == |reqs|
            && (forall a, b :: 0 <= a < b < |idx| ==> idx[a] < idx[b])
            && (forall k :: 0 <= k < |idx| ==> idx[k] < |lines| && reqs[k] == Strip(lines[idx[k]]))
            && (forall j :: 0 <= j < |lines| && Strip(lines[j]) != [] ==> j in idx)
  {
    var stripped := StripAll(Split(text, "\n"));
    KeptFromShape(stripped, 0);
    DropEmptyFrom(stripped, 0);
    assert stripped[0..] == stripped;
  }

  /** Stripping leaves requirement lines as they are. */
  lemma StripAllClean(xs: seq<string>)
    requires forall k :: 0 <= k < |xs| ==> IsRequirementLine(xs[k])
    ensures StripAll(xs) == xs
  {
    forall k | 0 <= k < |xs| ensures StripAll(xs)[k] == xs[k] {
      StripStable(xs[k]);
    }
  }

  /** Non-empty strings all survive the filter. */
  lemma {:induction false} DropEmptyKeepsAll(xs: seq<string>)
    requires forall k :: 0 <= k < |xs| ==> xs[k] != []
    ensures DropEmpty(xs) == xs
  {
    if xs != [] {
      DropEmptyKeepsAll(xs[1..]);
      assert DropEmpty(xs) == [xs[0]] + DropEmpty(xs[1..]);
    }
  }

  /** The block sent to proposal generation: `"\n".join(requirements)` (bidWinner.py:252). */
  function RequirementsText(reqs: seq<string>): string {
    Join(reqs, "\n")
  }

  /** Parsing is idempotent: parsing the joined result of a parse gives the same list. */
  lemma ParseIdempotent(text: string)
    ensures ParseRequirements(RequirementsText(ParseRequirements(text))) == ParseRequirements(text)
  {
    var reqs := ParseRequirements(text);
    if reqs == [] {
      assert RequirementsText(reqs) == "";
      FindOccurs("", "\n", 0);
      assert Split("", "\n") == [""];
      assert StripAll([""]) == [""];
    } else {
      SplitJoin(reqs, '\n');
      StripAllClean(reqs);
      DropEmptyKeepsAll(reqs);
    }
  }

  /** A worked case: a blank line and trailing blanks disappear. */
  lemma ParseExample(text: string)
    requires text == "1. Foo\n\n2. Bar  \n"
    ensures ParseRequirements(text) == ["1. Foo", "2. Bar"]
  {
    ExampleLines(text);
    ExampleStripped(Split(text, "\n"));
    ExampleDropped(StripAll(Split(text, "\n")));
  }

  lemma ExampleDropped(stripped: seq<string>)
    requires stripped == ["1. Foo", "", "2. Bar", ""]
    ensures DropEmpty(stripped) == ["1. Foo", "2. Bar"]
  {
    assert DropEmpty(stripped[3..]) == [];
    assert DropEmpty(stripped[2..]) == ["2. Bar"];
    assert DropEmpty(stripped[1..]) == ["2. Bar"];
  }

  lemma ExampleLines(text: string)
    requires text == "1. Foo\n\n2. Bar  \n"
    ensures Split(text, "\n") == ["1. Foo", "", "2. Bar  ", ""]
  {
    var lines := ["1. Foo", "", "2. Bar  ", ""];
    assert Join(lines, "\n") == text by {
      assert Join(lines[3..], "\n") == "";
      assert Join(lines[2..], "\n") == "2. Bar  \n";
      assert Join(lines[1..], "\n") == "\n2. Bar  \n";
    }
    SplitJoin(lines, '\n');
  }

  lemma ExampleStripped(lines: seq<string>)
    requires lines == ["1. Foo", "", "2. Bar  ", ""]
    ensures StripAll(lines) == ["1. Foo", "", "2. Bar", ""]
  {
    StripStable(lines[0]);
    ExampleStrip(lines[2]);
    assert Strip("") == "";
  }

  lemma ExampleStrip(line: string)
    requires line == "2. Bar  "
    ensures Strip(line) == "2. Bar"
  {
    assert LeadingSpaces(line) == 0;
    assert line[..7] == "2. Bar ";
    assert line[..7][..6] == "2. Bar";
    assert TrailingSpaces(line[..7][..6]) == 0;
    assert TrailingSpaces(line) == 2;
  }

  /** The values the requirement text areas return (bidWinner.py:119-122): the text
      typed into an area, or the stored requirement for an area left alone. Position i
      holds the i-th area's value and the count is unchanged. */
  method StageEdits(reqs: seq<string>, typed: map<nat, string>) returns (updated: seq<string>)
    ensures |updated| == |reqs|
    ensures forall i :: 0 <= i < |reqs| ==> updated[i] == (if i in typed then typed[i] else reqs[i])
  {
    updated := [];
    var i := 0;
    while i < |reqs|
      invariant 0 <= i <= |reqs| && |updated| == i
      invariant forall k :: 0 <= k < i ==> updated[k] == (if k in typed then typed[k] else reqs[k])
    {
      var value := if i in typed then typed[i] else reqs[i];
      updated := updated + [value];
      i := i + 1;
    }
  }
}
