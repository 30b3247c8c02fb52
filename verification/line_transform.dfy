/**
 * The line transformer: one fragment file's lines into the indented
 * Style Settings list format (`removeComments` and
 * `processStyleSettingsDefinitionFileLines`).
 *
 * A line is one of three classes: a heading (optional spaces or tabs, then
 * `#`), a blank line (nothing but whitespace) or a content line (anything
 * else). One boolean of state, `lastLineWasEmpty`, remembers that a blank
 * run has been seen; the next content line is then REPLACED by the list
 * marker `\t-`, and every other content line is indented by two tabs.
 */
module LineTransform {
  import opened Wrappers
  import opened Text
  import opened Sequences
  import opened SourceTree

  /** The list-item marker line that replaces the first content line after a blank run. */
  const Marker: string := "\t-"

  /** The indentation put in front of every other content line. */
  const ContentIndent: string := "\t\t"

  predicate IsIndent(c: char) {
    c == ' ' || c == '\t'
  }

  /** The line matches `/^[ \t]*<mark>/`. */
  predicate StartsAfterIndent(line: string, mark: char)
    decreases |line|
  {
    |line| > 0 && (line[0] == mark || (IsIndent(line[0]) && StartsAfterIndent(line[1..], mark)))
  }

  /** `/^[ \t]*#/`: a heading, passed through verbatim. */
  predicate IsHeading(line: string) {
    StartsAfterIndent(line, '#')
  }

  /** `/^[ \t]*;/`: a comment, dropped before anything else happens. */
  predicate IsComment(line: string) {
    StartsAfterIndent(line, ';')
  }

  /** Neither a heading nor blank: the lines that get indented or replaced by the marker. */
  predicate IsContent(line: string) {
    !IsHeading(line) && !IsBlank(line)
  }

  /** A line led by a non-whitespace mark after its indentation is not blank. */
  lemma {:induction false} MarkedNotBlank(line: string, mark: char)
    requires StartsAfterIndent(line, mark)
    requires !IsWhitespace(mark)
    ensures !IsBlank(line)
  {
    if line[0] != mark {
      MarkedNotBlank(line[1..], mark);
      assert line == [line[0]] + line[1..];
      BlankConcat([line[0]], line[1..]);
    }
  }

  /** A line has at most one leading mark after its indentation: a heading is never a comment. */
  lemma {:induction false} MarksExclusive(line: string, a: char, b: char)
    requires StartsAfterIndent(line, a) && StartsAfterIndent(line, b)
    requires !IsIndent(a) && !IsIndent(b)
    ensures a == b
  {
    if line[0] != a {
      MarksExclusive(line[1..], a, b);
    }
  }

  /** Indenting a line with two tabs does not change what mark leads it. */
  lemma IndentKeepsMark(line: string, mark: char)
    requires !IsIndent(mark)
    ensures StartsAfterIndent(ContentIndent + line, mark) <==> StartsAfterIndent(line, mark)
  {
    var once := "\t" + line;
    assert (ContentIndent + line)[1..] == once;
    assert once[1..] == line;
  }

  /** The marker line is neither blank, nor a heading, nor a comment. */
  lemma MarkerClass()
    ensures !IsBlank(Marker) && !IsHeading(Marker) && !IsComment(Marker)
  {
    assert !IsWhitespace(Marker[1]);
    assert Marker[1..] == "-";
  }

  /** `removeComments`: keeps exactly the lines that are not comments, in their order. */
  function RemoveComments(lines: seq<string>): (kept: seq<string>)
    ensures |kept| <= |lines|
    ensures forall k | 0 <= k < |kept| :: !IsComment(kept[k])
  {
    if lines == [] then []
    else (if IsComment(lines[0]) then [] else [lines[0]]) + RemoveComments(lines[1..])
  }

  /** Nothing survives `removeComments` exactly when every line is a comment. */
  lemma {:induction false} RemoveCommentsEmpty(lines: seq<string>)
    ensures RemoveComments(lines) == [] <==> forall k | 0 <= k < |lines| :: IsComment(lines[k])
  {
    if lines != [] {
      RemoveCommentsEmpty(lines[1..]);
      assert forall k | 1 <= k < |lines| :: lines[k] == lines[1..][k - 1];
    }
  }

  /** A line survives `removeComments` exactly when it occurs in the input and is not a comment. */
  lemma {:induction false} RemoveCommentsMembership(lines: seq<string>)
    ensures forall line :: line in RemoveComments(lines) <==> line in lines && !IsComment(line)
  {
    if lines != [] {
      RemoveCommentsMembership(lines[1..]);
      assert lines == [lines[0]] + lines[1..];
    }
  }

  /** Every non-comment line survives as often as it occurs in the input; comments never do. */
  lemma {:induction false} RemoveCommentsCount(lines: seq<string>, line: string)
    ensures multiset(RemoveComments(lines))[line] == if IsComment(line) then 0 else multiset(lines)[line]
  {
    if lines != [] {
      RemoveCommentsCount(lines[1..], line);
      assert lines == [lines[0]] + lines[1..];
      assert multiset(lines) == multiset([lines[0]]) + multiset(lines[1..]);
    }
  }

  /** Removing comments distributes over concatenation: the relative order of the kept lines is the input's. */
  lemma {:induction false} RemoveCommentsAppend(a: seq<string>, b: seq<string>)
    ensures RemoveComments(a + b) == RemoveComments(a) + RemoveComments(b)
  {
    if a != [] {
      RemoveCommentsAppend(a[1..], b);
      assert a + b != [] && (a + b)[0] == a[0];
      assert (a + b)[1..] == a[1..] + b;
    } else {
      assert a + b == b;
    }
  }

  /** Lines without comments pass through `removeComments` unchanged. */
  lemma {:induction false} RemoveCommentsKeepsCommentFree(lines: seq<string>)
    requires forall k | 0 <= k < |lines| :: !IsComment(lines[k])
    ensures RemoveComments(lines) == lines
  {
    if lines != [] {
      RemoveCommentsKeepsCommentFree(lines[1..]);
    }
  }

  /** Applying `removeComments` twice is the same as applying it once. */
  lemma {:induction false} RemoveCommentsIdempotent(lines: seq<string>)
    ensures RemoveComments(RemoveComments(lines)) == RemoveComments(lines)
  {
    RemoveCommentsKeepsCommentFree(RemoveComments(lines));
  }

  /**
   * Leading normalization (`lines.unshift('')`): one empty line goes in front
   * exactly when the first line is content; the result never starts with content.
   */
  function Normalize(lines: seq<string>): (r: seq<string>)
    requires |lines| > 0
    ensures r == lines || r == [""] + lines
    ensures |r| == |lines| + 1 <==> IsContent(lines[0])
    ensures !IsContent(r[0])
  {
    if IsContent(lines[0]) then [""] + lines else lines
  }

  /**
   * The `map` callback on one line: the value it returns (None for the `null`
   * placeholder) and the new value of `lastLineWasEmpty`. A heading keeps the
   * flag, a blank line sets it, a content line clears it.
   */
  function Callback(line: string, lastLineWasEmpty: bool): (r: (Option<string>, bool))
    ensures r.0.Some? ==> !IsBlank(r.0.value)
    ensures r.0.None? <==> IsBlank(line)
    ensures r.1 == (IsBlank(line) || (IsHeading(line) && lastLineWasEmpty))
  {
    if IsHeading(line) then
      MarkedNotBlank(line, '#');
      (Some(line), lastLineWasEmpty)
    else if IsBlank(line) then
      (None, true)
    else if lastLineWasEmpty then
      MarkerClass();
      (Some(Marker), false)
    else
      BlankConcat(ContentIndent, line);
      (Some(ContentIndent + line), false)
  }

  /** The lines an optional value contributes once the placeholders are dropped. */
  function Lines(mapped: Option<string>): seq<string> {
    if mapped.Some? then [mapped.value] else []
  }

  /**
   * The callback run over the lines, with the `null` placeholders already
   * filtered out; `lastLineWasEmpty` is the flag on entry. Every emitted line
   * is non-blank and there is at most one per input line.
   */
  function Reindent(lines: seq<string>, lastLineWasEmpty: bool): (out: seq<string>)
    ensures |out| <= |lines|
    ensures forall k | 0 <= k < |out| :: !IsBlank(out[k])
    decreases |lines|
  {
    if lines == [] then []
    else
      var (mapped, next) := Callback(lines[0], lastLineWasEmpty);
      Lines(mapped) + Reindent(lines[1..], next)
  }

  /** The value of `lastLineWasEmpty` after the callback has seen every line. */
  function PendingAfter(lines: seq<string>, lastLineWasEmpty: bool): bool
    decreases |lines|
  {
    if lines == [] then lastLineWasEmpty
    else PendingAfter(lines[1..], Callback(lines[0], lastLineWasEmpty).1)
  }

  /**
   * The whole fragment transformation on the split lines. None stands for the
   * TypeError thrown when every line is a comment and `lines[0]` is undefined.
   */
  function TransformLines(lines: seq<string>): (r: Option<seq<string>>)
    ensures r.None? <==> forall k | 0 <= k < |lines| :: IsComment(lines[k])
    ensures r.Some? ==> |r.value| <= |RemoveComments(lines)|
    ensures r.Some? ==> forall k | 0 <= k < |r.value| :: !IsBlank(r.value[k])
  {
    RemoveCommentsEmpty(lines);
    var kept := RemoveComments(lines);
    if |kept| == 0 then
      None
    else
      var normal := Normalize(kept);
      assert |Reindent(normal, false)| <= |kept| by {
        if normal != kept {
          assert normal[0] == "" && normal[1..] == kept;
          assert IsBlank("");
        }
      }
      Some(Reindent(normal, false))
  }

  /** Transforming a concatenation is transforming the first part, then the second from the flag the first leaves. */
  lemma {:induction false} ReindentAppend(a: seq<string>, b: seq<string>, lastLineWasEmpty: bool)
    ensures Reindent(a + b, lastLineWasEmpty) == Reindent(a, lastLineWasEmpty) + Reindent(b, PendingAfter(a, lastLineWasEmpty))
    decreases |a|
  {
    if a == [] {
      assert a + b == b;
    } else {
      var step := Callback(a[0], lastLineWasEmpty);
      ReindentAppend(a[1..], b, step.1);
      assert (a + b)[0] == a[0];
      assert (a + b)[1..] == a[1..] + b;
      assert PendingAfter(a, lastLineWasEmpty) == PendingAfter(a[1..], step.1);
      calc {
        Reindent(a + b, lastLineWasEmpty);
        Lines(step.0) + Reindent(a[1..] + b, step.1);
        Lines(step.0) + (Reindent(a[1..], step.1) + Reindent(b, PendingAfter(a[1..], step.1)));
        (Lines(step.0) + Reindent(a[1..], step.1)) + Reindent(b, PendingAfter(a[1..], step.1));
      }
    }
  }

  /** A run of one or more blank lines emits nothing and leaves the flag set. */
  lemma {:induction false} BlankRunEmitsNothing(blanks: seq<string>, lastLineWasEmpty: bool)
    requires |blanks| >= 1
    requires forall k | 0 <= k < |blanks| :: IsBlank(blanks[k])
    ensures Reindent(blanks, lastLineWasEmpty) == []
    ensures PendingAfter(blanks, lastLineWasEmpty)
    decreases |blanks|
  {
    if |blanks| > 1 {
      BlankRunEmitsNothing(blanks[1..], true);
    }
  }

  /** Blank lines at the end of a fragment produce no output: no dangling marker. */
  lemma {:induction false} TrailingBlanksDropped(lines: seq<string>, blanks: seq<string>, lastLineWasEmpty: bool)
    requires forall k | 0 <= k < |blanks| :: IsBlank(blanks[k])
    ensures Reindent(lines + blanks, lastLineWasEmpty) == Reindent(lines, lastLineWasEmpty)
  {
    ReindentAppend(lines, blanks, lastLineWasEmpty);
    if |blanks| >= 1 {
      BlankRunEmitsNothing(blanks, PendingAfter(lines, lastLineWasEmpty));
    }
  }

  /** Any run of one or more blank lines acts exactly like a single blank line. */
  lemma {:induction false} BlankRunCollapses(blanks: seq<string>, rest: seq<string>, lastLineWasEmpty: bool)
    requires |blanks| >= 1
    requires forall k | 0 <= k < |blanks| :: IsBlank(blanks[k])
    ensures Reindent(blanks + rest, lastLineWasEmpty) == Reindent(rest, true)
    ensures Reindent(blanks + rest, lastLineWasEmpty) == Reindent([""] + rest, lastLineWasEmpty)
  {
    ReindentAppend(blanks, rest, lastLineWasEmpty);
    BlankRunEmitsNothing(blanks, lastLineWasEmpty);
    assert ([""] + rest)[1..] == rest;
  }

  /** Headings are emitted verbatim and leave the flag as it was. */
  lemma {:induction false} HeadingsPassThrough(headings: seq<string>, rest: seq<string>, lastLineWasEmpty: bool)
    requires forall k | 0 <= k < |headings| :: IsHeading(headings[k])
    ensures Reindent(headings + rest, lastLineWasEmpty) == headings + Reindent(rest, lastLineWasEmpty)
    decreases |headings|
  {
    if headings == [] {
      assert headings + rest == rest;
    } else {
      HeadingsPassThrough(headings[1..], rest, lastLineWasEmpty);
      var all := headings + rest;
      assert all[0] == headings[0] && all[1..] == headings[1..] + rest;
      assert Callback(headings[0], lastLineWasEmpty) == (Some(headings[0]), lastLineWasEmpty);
      assert Reindent(all, lastLineWasEmpty) == [headings[0]] + Reindent(headings[1..] + rest, lastLineWasEmpty);
      assert headings == [headings[0]] + headings[1..];
    }
  }

  /**
   * After a blank run, possibly followed by headings, the next content line is
   * replaced by the marker (its own text is lost) and the flag is cleared.
   */
  lemma {:induction false} MarkerReplacesContent(blanks: seq<string>, headings: seq<string>, line: string, rest: seq<string>, lastLineWasEmpty: bool)
    requires |blanks| >= 1
    requires forall k | 0 <= k < |blanks| :: IsBlank(blanks[k])
    requires forall k | 0 <= k < |headings| :: IsHeading(headings[k])
    requires IsContent(line)
    ensures Reindent(blanks + headings + [line] + rest, lastLineWasEmpty) == headings + [Marker] + Reindent(rest, false)
  {
    assert blanks + headings + [line] + rest == blanks + (headings + ([line] + rest));
    BlankRunCollapses(blanks, headings + ([line] + rest), lastLineWasEmpty);
    HeadingsPassThrough(headings, [line] + rest, true);
    assert ([line] + rest)[1..] == rest;
  }

  /** Without blank lines no marker appears: headings stay, every other line gets two tabs. */
  lemma {:induction false} NoBlankLinesIndentsAll(lines: seq<string>)
    requires forall k | 0 <= k < |lines| :: !IsBlank(lines[k])
    ensures |Reindent(lines, false)| == |lines|
    ensures forall k | 0 <= k < |lines| ::
      Reindent(lines, false)[k] == (if IsHeading(lines[k]) then lines[k] else ContentIndent + lines[k])
    decreases |lines|
  {
    if lines != [] {
      NoBlankLinesIndentsAll(lines[1..]);
      var out := Reindent(lines, false);
      assert out == [out[0]] + Reindent(lines[1..], false);
      forall k | 1 <= k < |lines|
        ensures out[k] == (if IsHeading(lines[k]) then lines[k] else ContentIndent + lines[k])
      {
        assert out[k] == Reindent(lines[1..], false)[k - 1];
        assert lines[1..][k - 1] == lines[k];
      }
    }
  }

  /** Where an emitted line comes from: a heading of the input, the marker, or an input content line with two tabs. */
  ghost predicate ProducedFrom(out: string, lines: seq<string>) {
    || (out in lines && IsHeading(out))
    || out == Marker
    || exists line :: line in lines && IsContent(line) && out == ContentIndent + line
  }

  /** Every emitted line is a heading of the input, the marker, or an indented content line of the input. */
  lemma {:induction false} ReindentProvenance(lines: seq<string>, lastLineWasEmpty: bool)
    ensures forall k | 0 <= k < |Reindent(lines, lastLineWasEmpty)| :: ProducedFrom(Reindent(lines, lastLineWasEmpty)[k], lines)
    decreases |lines|
  {
    if lines != [] {
      var (mapped, next) := Callback(lines[0], lastLineWasEmpty);
      ReindentProvenance(lines[1..], next);
      var out := Reindent(lines, lastLineWasEmpty);
      var tail := Reindent(lines[1..], next);
      assert out == Lines(mapped) + tail;
      forall k | 0 <= k < |out| ensures ProducedFrom(out[k], lines) {
        if k < |Lines(mapped)| {
          assert out[k] == mapped.value;
          if !IsHeading(lines[0]) && !lastLineWasEmpty {
            assert lines[0] in lines && IsContent(lines[0]);
          }
        } else {
          var j := k - |Lines(mapped)|;
          assert out[k] == tail[j];
          assert ProducedFrom(tail[j], lines[1..]);
          if exists line :: line in lines[1..] && IsContent(line) && tail[j] == ContentIndent + line {
            var line :| line in lines[1..] && IsContent(line) && tail[j] == ContentIndent + line;
            assert line in lines;
          }
        }
      }
    }
  }

  /** A heading is never a comment. */
  lemma HeadingNotComment(line: string)
    requires IsHeading(line)
    ensures !IsComment(line)
  {
    if IsComment(line) {
      MarksExclusive(line, '#', ';');
    }
  }

  /** Comment-free input gives comment-free output. */
  lemma {:induction false} ReindentCommentFree(lines: seq<string>, lastLineWasEmpty: bool)
    requires forall k | 0 <= k < |lines| :: !IsComment(lines[k])
    ensures forall k | 0 <= k < |Reindent(lines, lastLineWasEmpty)| :: !IsComment(Reindent(lines, lastLineWasEmpty)[k])
    decreases |lines|
  {
    if lines != [] {
      var (mapped, next) := Callback(lines[0], lastLineWasEmpty);
      ReindentCommentFree(lines[1..], next);
      if mapped.Some? {
        if IsHeading(lines[0]) {
          HeadingNotComment(lines[0]);
        } else if lastLineWasEmpty {
          MarkerClass();
        } else {
          IndentKeepsMark(lines[0], ';');
        }
      }
      var out := Reindent(lines, lastLineWasEmpty);
      assert out == Lines(mapped) + Reindent(lines[1..], next);
    }
  }

  /** Feeding a transformed fragment back through `removeComments` changes nothing. */
  lemma TransformedHasNoComments(lines: seq<string>)
    requires TransformLines(lines).Some?
    ensures RemoveComments(TransformLines(lines).value) == TransformLines(lines).value
  {
    var kept := RemoveComments(lines);
    var normal := Normalize(kept);
    assert !IsComment("");
    assert forall k | 0 <= k < |normal| :: !IsComment(normal[k]) by {
      if normal != kept {
        forall k | 1 <= k < |normal| ensures !IsComment(normal[k]) {
          assert normal[k] == kept[k - 1];
        }
      }
    }
    ReindentCommentFree(normal, false);
    RemoveCommentsKeepsCommentFree(Reindent(normal, false));
  }

  /** `removeComments` keeps a leading empty line in front of the rest. */
  lemma RemoveCommentsAfterEmpty(lines: seq<string>)
    ensures RemoveComments([""] + lines) == [""] + RemoveComments(lines)
  {
    assert !IsComment("");
    assert ([""] + lines)[1..] == lines;
  }

  /**
   * Leading normalization is unobservable: when the first comment-free line is
   * not a heading, the result is the same as if the author had typed an empty
   * first line.
   */
  lemma LeadingBlankUnobservable(lines: seq<string>)
    requires RemoveComments(lines) != []
    requires !IsHeading(RemoveComments(lines)[0])
    ensures TransformLines([""] + lines) == TransformLines(lines)
  {
    var kept := RemoveComments(lines);
    RemoveCommentsAfterEmpty(lines);
    assert IsBlank("");
    assert Normalize([""] + kept) == [""] + kept;
    assert ([""] + kept)[1..] == kept;
    assert Reindent([""] + kept, false) == Reindent(kept, true);
    if IsBlank(kept[0]) {
      assert Reindent(kept, false) == Reindent(kept[1..], true);
    }
  }

  /** When the first comment-free line is content, the output opens with the marker, which replaces that line. */
  lemma ContentFirstOpensWithMarker(lines: seq<string>)
    requires RemoveComments(lines) != []
    requires IsContent(RemoveComments(lines)[0])
    ensures TransformLines(lines) == Some([Marker] + Reindent(RemoveComments(lines)[1..], false))
  {
    var kept := RemoveComments(lines);
    assert IsBlank("");
    assert ([""] + kept)[1..] == kept;
    assert Reindent([""] + kept, false) == Reindent(kept, true);
    assert Callback(kept[0], true) == (Some(Marker), false);
    assert Reindent(kept, true) == [Marker] + Reindent(kept[1..], false);
  }

  /**
   * A heading, a description, a blank line and an option line: the
   * description is indented, and the option line is replaced by the marker
   * rather than kept after it.
   */
  lemma HeaderDescriptionOption(heading: string, description: string, blank: string, option: string)
    requires IsHeading(heading) && IsBlank(blank)
    requires IsContent(description) && IsContent(option)
    requires !IsComment(description) && !IsComment(blank) && !IsComment(option)
    ensures TransformLines([heading, description, blank, option]) == Some([heading, ContentIndent + description, Marker])
  {
    var lines := [heading, description, blank, option];
    HeadingNotComment(heading);
    assert forall k | 0 <= k < |lines| :: !IsComment(lines[k]);
    RemoveCommentsKeepsCommentFree(lines);
    assert Normalize(lines) == lines;
    assert Reindent([option], true) == [Marker];
    assert Reindent([blank, option], false) == [Marker] by {
      assert [blank, option][1..] == [option];
    }
    assert Reindent([description, blank, option], false) == [ContentIndent + description, Marker] by {
      assert [description, blank, option][1..] == [blank, option];
    }
    assert Reindent(lines, false) == [heading, ContentIndent + description, Marker] by {
      assert lines[1..] == [description, blank, option];
    }
  }

  /** The fragment at `path` read, split on `\n` and transformed; a read failure or an all-comment fragment aborts. */
  function DefinitionFileLines(fs: FileSystem, path: string): Result<seq<string>, RunError> {
    match ReadFile(fs, path)
    case None => Err(FragmentUnreadable(path))
    case Some(content) =>
      match TransformLines(Split(content, '\n'))
      case None => Err(FragmentWithoutLines(path))
      case Some(out) => Ok(out)
  }

  /** Every line the normalization yields is the inserted empty line or a comment-free input line. */
  lemma NormalizedFromInput(lines: seq<string>, line: string)
    requires RemoveComments(lines) != []
    requires line in Normalize(RemoveComments(lines))
    ensures line == "" || (line in lines && !IsComment(line))
  {
    RemoveCommentsMembership(lines);
  }

  /** No output line holds a line break when no input line does, so the output can be joined and split again. */
  lemma TransformKeepsSingleLines(lines: seq<string>)
    requires forall k | 0 <= k < |lines| :: '\n' !in lines[k]
    requires TransformLines(lines).Some?
    ensures forall k | 0 <= k < |TransformLines(lines).value| :: '\n' !in TransformLines(lines).value[k]
  {
    var normalized := Normalize(RemoveComments(lines));
    var out := TransformLines(lines).value;
    ReindentProvenance(normalized, false);
    forall k | 0 <= k < |out| ensures '\n' !in out[k] {
      assert ProducedFrom(out[k], normalized);
      if out[k] in normalized {
        NormalizedFromInput(lines, out[k]);
      } else if out[k] != Marker {
        var line :| line in normalized && IsContent(line) && out[k] == ContentIndent + line;
        NormalizedFromInput(lines, line);
      }
    }
  }

  /** `.filter(line => line !== null)`: the present values, in order. */
  function Present(mapped: seq<Option<string>>): (values: seq<string>)
    ensures |values| <= |mapped|
  {
    if mapped == [] then []
    else
      var last := mapped[|mapped| - 1];
      Present(mapped[..|mapped| - 1]) + (if last.Some? then [last.value] else [])
  }

  /**
   * `lines.map(...)` with the `lastLineWasEmpty` flag flipped inside the
   * callback: one value or `null` placeholder per line.
   */
  method MapLines(lines: seq<string>) returns (processed: seq<Option<string>>)
    ensures |processed| == |lines|
    ensures Present(processed) == Reindent(lines, false)
  {
    var lastLineWasEmpty := false;
    processed := [];
    var i := 0;
    while i < |lines|
      invariant 0 <= i <= |lines|
      invariant |processed| == i
      invariant Present(processed) + Reindent(lines[i..], lastLineWasEmpty) == Reindent(lines, false)
    {
      var line := lines[i];
      ghost var before := lastLineWasEmpty;
      var mapped: Option<string>;
      if IsHeading(line) {
        mapped := Some(line);
      } else if IsBlank(line) {
        lastLineWasEmpty := true;
        mapped := None;
      } else if lastLineWasEmpty {
        lastLineWasEmpty := false;
        mapped := Some(Marker);
      } else {
        mapped := Some(ContentIndent + line);
      }
      assert (mapped, lastLineWasEmpty) == Callback(line, before);
      ReindentAt(lines, i, before);
      PresentSnoc(processed, mapped);
      AppendAssoc(Present(processed), Lines(mapped), Reindent(lines[i + 1..], lastLineWasEmpty));
      processed := processed + [mapped];
      i := i + 1;
    }
    assert lines[i..] == [];
  }

  /** Dropping placeholders from a longer sequence extends the result by the new value, if any. */
  lemma PresentSnoc(mapped: seq<Option<string>>, last: Option<string>)
    ensures Present(mapped + [last]) == Present(mapped) + Lines(last)
  {
    assert (mapped + [last])[..|mapped|] == mapped;
  }

  /** One step of the state machine at position `i`. */
  lemma ReindentAt(lines: seq<string>, i: nat, lastLineWasEmpty: bool)
    requires i < |lines|
    ensures Reindent(lines[i..], lastLineWasEmpty)
         == Lines(Callback(lines[i], lastLineWasEmpty).0) + Reindent(lines[i + 1..], Callback(lines[i], lastLineWasEmpty).1)
  {
    assert lines[i..][0] == lines[i] && lines[i..][1..] == lines[i + 1..];
  }

  /** `processedLines.filter(line => line !== null)`. */
  method DropPlaceholders(processed: seq<Option<string>>) returns (kept: seq<string>)
    ensures kept == Present(processed)
  {
    kept := [];
    var j := 0;
    while j < |processed|
      invariant 0 <= j <= |processed|
      invariant kept == Present(processed[..j])
    {
      if processed[j].Some? {
        kept := kept + [processed[j].value];
      }
      assert processed[..j + 1] == processed[..j] + [processed[j]];
      assert processed[..j + 1][..j] == processed[..j];
      j := j + 1;
    }
    assert processed[..|processed|] == processed;
  }

  /**
   * `processStyleSettingsDefinitionFileLines`: reads the fragment, removes the
   * comments, prepends an empty line before leading content, maps every line
   * through the one-flag state machine to a line or a `null` placeholder, and
   * drops the placeholders.
   */
  method ProcessDefinitionFileLines(fs: FileSystem, path: string) returns (r: Result<seq<string>, RunError>)
    ensures r == DefinitionFileLines(fs, path)
  {
    var content := ReadFile(fs, path);
    if content.None? {
      return Err(FragmentUnreadable(path));
    }
    var lines := RemoveComments(Split(content.value, '\n'));
    if |lines| == 0 {
      return Err(FragmentWithoutLines(path));
    }
    var firstLine := lines[0];
    if !IsHeading(firstLine) && !IsBlank(firstLine) {
      lines := [""] + lines;
    }
    assert lines == Normalize(RemoveComments(Split(content.value, '\n')));
    var processed := MapLines(lines);
    var kept := DropPlaceholders(processed);
    r := Ok(kept);
  }
}
