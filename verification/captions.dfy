/** The caption text normaliser of `Download.get_captions_from_output` and
    `Download.remove_time_from_caption`. A cue is the string the caption
    parser prints for it: wrapped in one bracket character on each side, a
    timing header as its first line, and its line breaks printed as the
    two-character escape backslash-`n`. */
module Captions {
  import opened Wrappers
  import opened Text

  /** The position of the first line break of `t`, or `|t|` when `t` has
      none: what the lazy `^.*?\n` of `remove_time_from_caption` matches up
      to. */
  function FirstBreak(t: string): (i: nat)
    ensures i <= |t|
    ensures '\n' !in t[..i]
    ensures i < |t| ==> t[i] == '\n'
    decreases |t|
  {
    if |t| == 0 || t[0] == '\n' then 0
    else
      var j := FirstBreak(t[1..]);
      assert t[..j + 1] == [t[0]] + t[1..][..j];
      j + 1
  }

  /** `remove_time_from_caption`: drop the wrapping characters, then replace
      the header line, up to and including its first line break, by one line
      break. Text without a line break after trimming is returned whole. */
  function RemoveTimeFromCaption(caption: string): (r: string)
    ensures var t := Trim(caption);
      && ('\n' !in t ==> r == t)
      && ('\n' in t ==> r == "\n" + t[FirstBreak(t) + 1..])
    ensures |r| <= |Trim(caption)|
    ensures |caption| >= 2 ==> |r| <= |caption| - 2
  {
    var t := Trim(caption);
    var i := FirstBreak(t);
    if i == |t| then t else "\n" + t[i + 1..]
  }

  /** The header removed is exactly the first line: given any line break of
      the trimmed text with no line break before it, the result is a line
      break followed by everything after that position. */
  lemma RemoveTimeAt(caption: string, i: nat)
    requires i < |Trim(caption)| && Trim(caption)[i] == '\n' && '\n' !in Trim(caption)[..i]
    ensures RemoveTimeFromCaption(caption) == "\n" + Trim(caption)[i + 1..]
  {
  }

  /** A cue printed as an opening character, a header line, the caption
      text and a closing character loses exactly its header line, which
      becomes one leading line break. */
  lemma RemoveTimeOfHeader(open: char, header: string, text: string, close: char)
    requires '\n' !in header
    ensures RemoveTimeFromCaption([open] + header + "\n" + text + [close]) == "\n" + text
  {
    var caption := [open] + header + "\n" + text + [close];
    var t := header + "\n" + text;
    assert caption == [open] + t + [close];
    assert Trim(caption) == t;
    assert t[..|header|] == header;
    RemoveTimeAt(caption, |header|);
    assert t[|header| + 1..] == text;
  }

  /** One cue after unescaping its line breaks and removing its header. */
  function StripCue(cue: string): (r: string)
    ensures |cue| >= 2 ==> |r| <= |cue| - 2
    ensures |cue| < 2 ==> r == ""
    ensures '\\' !in cue ==> r == RemoveTimeFromCaption(cue)
  {
    RemoveTimeFromCaption(Unescape(cue))
  }

  /** Every cue stripped, in cue order. */
  function StripAll(cues: seq<string>): seq<string> {
    MapSeq(StripCue, cues)
  }

  /** The concatenation, in cue order and with nothing in between, of the
      stripped cues (`temp_final` after the first loop). */
  function Flatten(cues: seq<string>): (r: string)
    ensures |cues| == 0 ==> r == ""
    ensures |cues| == 1 ==> r == StripCue(cues[0])
  {
    var parts := StripAll(cues);
    assert |parts| == 1 ==> parts[..0] == [] && Concat(parts) == parts[0];
    Concat(parts)
  }

  /** Stripped cues are concatenated in order: flattening distributes over
      concatenation of cue sequences. */
  lemma FlattenAppend(a: seq<string>, b: seq<string>)
    ensures Flatten(a + b) == Flatten(a) + Flatten(b)
  {
    MapSeqAppend(StripCue, a, b);
    ConcatAppend(StripAll(a), StripAll(b));
  }

  /** One more cue appends its stripped text. */
  lemma FlattenSnoc(cues: seq<string>, cue: string)
    ensures Flatten(cues + [cue]) == Flatten(cues) + StripCue(cue)
  {
    var s := StripAll(cues + [cue]);
    assert s[..|s| - 1] == StripAll(cues);
    assert s[|s| - 1] == StripCue(cue);
  }

  /** The next prefix of the cues adds the next stripped cue. */
  lemma FlattenPrefix(cues: seq<string>, i: nat)
    requires i < |cues|
    ensures Flatten(cues[..i + 1]) == Flatten(cues[..i]) + StripCue(cues[i])
  {
    assert cues[..i + 1] == cues[..i] + [cues[i]];
    FlattenSnoc(cues[..i], cues[i]);
  }

  /** No two neighbouring elements are equal. */
  ghost predicate NoAdjacentDuplicates(s: seq<string>) {
    forall i, j :: 0 <= i < j < |s| && j == i + 1 ==> s[i] != s[j]
  }

  /** The line before the next one: the last line seen, or the starting
      cursor when none was seen yet. */
  function Previous(lines: seq<string>, start: string): string {
    if |lines| == 0 then start else lines[|lines| - 1]
  }

  /** The second loop of `get_captions_from_output`: walk the lines with a
      cursor holding the previous line (initially `prev`), keep a line when it
      differs from the cursor, and move the cursor on every line. */
  function Collapse(lines: seq<string>, prev: string): (kept: seq<string>)
    ensures |kept| <= |lines|
    ensures forall i :: 0 <= i < |kept| ==> kept[i] in lines
    ensures NoAdjacentDuplicates(kept)
    ensures |kept| > 0 ==> kept[0] != prev
    decreases |lines|
  {
    if |lines| == 0 then []
    else
      var rest := Collapse(lines[1..], lines[0]);
      if lines[0] != prev then [lines[0]] + rest else rest
  }

  /** One step of the loop: the next line is kept exactly when it differs
      from the line immediately before it (or from the starting cursor). */
  lemma {:induction false} CollapseStep(lines: seq<string>, prev: string, line: string)
    ensures Collapse(lines + [line], prev)
         == Collapse(lines, prev) + (if line != Previous(lines, prev) then [line] else [])
    decreases |lines|
  {
    if |lines| == 0 {
      assert [line][1..] == [];
    } else {
      assert (lines + [line])[1..] == lines[1..] + [line];
      CollapseStep(lines[1..], lines[0], line);
      assert Previous(lines[1..], lines[0]) == Previous(lines, prev);
    }
  }

  /** A sequence without neighbouring duplicates, whose first element differs
      from the cursor, passes through the collapse unchanged. */
  lemma {:induction false} CollapseFixpoint(s: seq<string>, prev: string)
    requires NoAdjacentDuplicates(s)
    requires |s| > 0 ==> s[0] != prev
    ensures Collapse(s, prev) == s
    decreases |s|
  {
    if |s| > 0 {
      assert NoAdjacentDuplicates(s[1..]) by {
        forall i, j | 0 <= i && j == i + 1 && j < |s[1..]| ensures s[1..][i] != s[1..][j] {
          assert s[1..][i] == s[i + 1] && s[1..][j] == s[j + 1];
        }
      }
      if |s| > 1 {
        assert s[1..][0] == s[1] != s[0];
      }
      CollapseFixpoint(s[1..], s[0]);
    }
  }

  /** Collapsing twice with the same starting cursor is collapsing once. */
  lemma {:induction false} CollapseIdempotent(lines: seq<string>, prev: string)
    ensures Collapse(Collapse(lines, prev), prev) == Collapse(lines, prev)
  {
    CollapseFixpoint(Collapse(lines, prev), prev);
  }

  /** A line equal to the starting cursor at the head of the stream is the
      only thing the collapse drops from a stream with no repeated
      neighbours. */
  lemma {:induction false} CollapseWithoutRepeats(lines: seq<string>, prev: string)
    requires NoAdjacentDuplicates(lines)
    ensures Collapse(lines, prev) == if |lines| > 0 && lines[0] == prev then lines[1..] else lines
  {
    if |lines| > 0 && lines[0] == prev {
      assert NoAdjacentDuplicates(lines[1..]) by {
        forall i, j | 0 <= i && j == i + 1 && j < |lines[1..]| ensures lines[1..][i] != lines[1..][j] {
          assert lines[1..][i] == lines[i + 1] && lines[1..][j] == lines[j + 1];
        }
      }
      if |lines| > 1 {
        assert lines[1..][0] == lines[1];
      }
      CollapseFixpoint(lines[1..], lines[0]);
    } else {
      CollapseFixpoint(lines, prev);
    }
  }

  /** `final` after the second loop: each kept line preceded by a line break. */
  function Prefixed(kept: seq<string>): string
    decreases |kept|
  {
    if |kept| == 0 then "" else "\n" + kept[0] + Prefixed(kept[1..])
  }

  /** Appending one kept line extends `final` by a break and that line. */
  lemma {:induction false} PrefixedAppend(kept: seq<string>, line: string)
    ensures Prefixed(kept + [line]) == Prefixed(kept) + "\n" + line
    decreases |kept|
  {
    if |kept| == 0 {
      assert [line][1..] == [];
    } else {
      assert (kept + [line])[1..] == kept[1..] + [line];
      PrefixedAppend(kept[1..], line);
    }
  }

  /** One more line of the stream: `final` grows by a break and the line
      exactly when the line differs from the one before it, and the cursor
      moves to the line. */
  lemma CollapsePrefix(lines: seq<string>, j: nat)
    requires j < |lines|
    ensures Previous(lines[..j + 1], "") == lines[j]
    ensures Prefixed(Collapse(lines[..j + 1], ""))
         == Prefixed(Collapse(lines[..j], "")) + (if lines[j] != Previous(lines[..j], "") then "\n" + lines[j] else "")
  {
    var kept := Collapse(lines[..j], "");
    assert lines[..j + 1] == lines[..j] + [lines[j]];
    CollapseStep(lines[..j], "", lines[j]);
    if lines[j] != Previous(lines[..j], "") {
      PrefixedAppend(kept, lines[j]);
    } else {
      assert kept + [] == kept;
    }
  }

  /** `final.replace("\n", ' ')[1:]`. */
  function Render(kept: seq<string>): (r: string)
    ensures '\n' !in r
    ensures |kept| == 0 ==> r == ""
  {
    DropFirst(ReplaceChar(Prefixed(kept), '\n', ' '))
  }

  /** Each kept line preceded by a space. */
  function SpacePrefixed(kept: seq<string>): string
    decreases |kept|
  {
    if |kept| == 0 then "" else " " + kept[0] + SpacePrefixed(kept[1..])
  }

  /** Turning the breaks of `final` into spaces gives each kept line
      preceded by a space, provided the lines hold no break themselves. */
  lemma {:induction false} ReplacePrefixed(kept: seq<string>)
    requires forall i :: 0 <= i < |kept| ==> '\n' !in kept[i]
    ensures ReplaceChar(Prefixed(kept), '\n', ' ') == SpacePrefixed(kept)
    decreases |kept|
  {
    if |kept| > 0 {
      ReplacePrefixed(kept[1..]);
      ReplaceCharAppend("\n" + kept[0], Prefixed(kept[1..]), '\n', ' ');
      ReplaceCharAppend("\n", kept[0], '\n', ' ');
      ReplaceCharAbsent(kept[0], '\n', ' ');
    }
  }

  /** Dropping the first space of the space-prefixed lines joins them. */
  lemma {:induction false} DropFirstSpacePrefixed(kept: seq<string>)
    ensures DropFirst(SpacePrefixed(kept)) == Join(kept, " ")
    decreases |kept|
  {
    if |kept| > 1 {
      DropFirstSpacePrefixed(kept[1..]);
      var tail := SpacePrefixed(kept[1..]);
      assert tail == " " + kept[1] + SpacePrefixed(kept[2..]);
      assert tail == " " + DropFirst(tail);
      assert SpacePrefixed(kept) == " " + (kept[0] + tail);
    } else if |kept| == 1 {
      assert kept[1..] == [];
      assert SpacePrefixed(kept) == " " + kept[0];
    }
  }

  /** The rendered text is the kept lines joined by single spaces, provided
      the kept lines hold no line break (as split lines never do). */
  lemma RenderIsJoin(kept: seq<string>)
    requires forall i :: 0 <= i < |kept| ==> '\n' !in kept[i]
    ensures Render(kept) == Join(kept, " ")
  {
    ReplacePrefixed(kept);
    DropFirstSpacePrefixed(kept);
  }

  /** The lines that survive the collapse of the flattened cue text. */
  function KeptLines(cues: seq<string>): seq<string> {
    Collapse(Split(Flatten(cues)), "")
  }

  /** The part of `get_captions_from_output` after the first loop, as a
      function of the flattened text `temp_final`. */
  function NormalizeText(flat: string): (r: string)
    ensures '\n' !in r
    ensures flat == "" ==> r == ""
  {
    assert flat == "" ==> Split(flat) == [""];
    Render(Collapse(Split(flat), ""))
  }

  /** `get_captions_from_output` as a function of the printed cues. */
  function Normalize(cues: seq<string>): (r: string)
    ensures '\n' !in r
    ensures |cues| == 0 ==> r == ""
  {
    assert |cues| == 0 ==> StripAll(cues) == [];
    NormalizeText(Flatten(cues))
  }

  /** The normalised text is the kept lines joined by single spaces; those
      lines hold no line break, have no equal neighbours, and the first of
      them is never empty. */
  lemma NormalizeIsJoinOfKept(cues: seq<string>)
    ensures var kept := KeptLines(cues);
      && Normalize(cues) == Join(kept, " ")
      && NoAdjacentDuplicates(kept)
      && (|kept| > 0 ==> kept[0] != "")
      && (forall i :: 0 <= i < |kept| ==> '\n' !in kept[i] && kept[i] in Split(Flatten(cues)))
  {
    var lines := Split(Flatten(cues));
    var kept := KeptLines(cues);
    forall i | 0 <= i < |kept| ensures '\n' !in kept[i] {
      var j :| 0 <= j < |lines| && lines[j] == kept[i];
    }
    RenderIsJoin(kept);
  }

  /** Text whose lines have no equal neighbours is only stripped of its
      headers and joined with spaces; the empty line left by the first
      header is the one thing dropped. */
  lemma NormalizeWithoutRepeats(cues: seq<string>)
    requires NoAdjacentDuplicates(Split(Flatten(cues)))
    ensures var lines := Split(Flatten(cues));
      Normalize(cues) == Join(if lines[0] == "" then lines[1..] else lines, " ")
  {
    var lines := Split(Flatten(cues));
    CollapseWithoutRepeats(lines, "");
    NormalizeIsJoinOfKept(cues);
  }

  /** The first loop of `get_captions_from_output`: strip each cue and
      append it to `temp_final`. */
  method ConcatStripped(cues: seq<string>) returns (tempFinal: string)
    ensures tempFinal == Flatten(cues)
  {
    tempFinal := "";
    var i := 0;
    while i < |cues|
      invariant 0 <= i <= |cues|
      invariant tempFinal == Flatten(cues[..i])
    {
      FlattenPrefix(cues, i);
      tempFinal := tempFinal + StripCue(cues[i]);
      i := i + 1;
    }
    assert cues[..|cues|] == cues;
  }

  /** The second loop of `get_captions_from_output`: append a break and the
      line to `final` whenever the line differs from the previous one. */
  method CollapseLines(lines: seq<string>) returns (final: string)
    ensures final == Prefixed(Collapse(lines, ""))
  {
    final := "";
    var previous := "";
    var j := 0;
    ghost var kept: seq<string> := [];
    while j < |lines|
      invariant 0 <= j <= |lines|
      invariant previous == Previous(lines[..j], "")
      invariant kept == Collapse(lines[..j], "")
      invariant final == Prefixed(kept)
    {
      var line := lines[j];
      CollapsePrefix(lines, j);
      if previous != line {
        final := final + "\n" + line;
      }
      kept := Collapse(lines[..j + 1], "");
      previous := line;
      j := j + 1;
    }
    assert lines[..|lines|] == lines;
  }

  /** `get_captions_from_output` run over the printed cues. */
  method GetCaptionsFromOutput(cues: seq<string>) returns (output: string)
    ensures output == Normalize(cues)
    ensures '\n' !in output
  {
    var tempFinal := ConcatStripped(cues);
    var final := CollapseLines(Split(tempFinal));
    output := DropFirst(ReplaceChar(final, '\n', ' '));
  }

  /** How the caption parser prints a cue with header line `header` and
      caption text `text`: one wrapping character on each side and every
      line break written as the two-character escape. */
  function PrintedCue(header: string, text: string): string {
    "[" + Escape(header + "\n" + text) + "]"
  }

  /** Stripping a printed cue leaves one line break followed by its caption
      text: the escapes are undone and the header line is gone. */
  lemma StripPrintedCue(header: string, text: string)
    requires '\n' !in header
    requires '\\' !in header && '\\' !in text
    ensures StripCue(PrintedCue(header, text)) == "\n" + text
  {
    var body := header + "\n" + text;
    UnescapeWrapped('[', body, ']');
    assert ['['] + body + [']'] == ['['] + header + "\n" + text + [']'];
    RemoveTimeOfHeader('[', header, text, ']');
  }

  /** Two cues flatten to their two stripped texts, in order. */
  lemma FlattenPair(c1: string, c2: string)
    ensures Flatten([c1, c2]) == StripCue(c1) + StripCue(c2)
  {
    assert StripAll([c1, c2]) == [StripCue(c1), StripCue(c2)];
    ConcatPair(StripCue(c1), StripCue(c2));
  }

  /** A flattened text given as a join of lines without equal neighbours
      that starts with the empty line normalises to the other lines joined
      by spaces. */
  lemma NormalizeTextOfLines(lines: seq<string>)
    requires |lines| > 0 && lines[0] == ""
    requires forall i :: 0 <= i < |lines| ==> '\n' !in lines[i]
    requires NoAdjacentDuplicates(lines)
    ensures NormalizeText(Join(lines, "\n")) == Join(lines[1..], " ")
  {
    SplitJoin(lines);
    CollapseWithoutRepeats(lines, "");
    RenderIsJoin(lines[1..]);
  }

  /** The flattened text of two cues with trailing breaks, as lines. */
  lemma TrailingBreakLines(x: string, y: string)
    ensures Join(["", x, "", y, ""], "\n") == ("\n" + (x + "\n")) + ("\n" + (y + "\n"))
  {
    var lines := ["", x, "", y, ""];
    var s2 := "\n" + (y + "\n");
    assert lines[4..] == [""] && lines[3..] == [y, ""] && lines[2..] == ["", y, ""];
    assert lines[1..] == [x, "", y, ""];
    assert Join(lines[3..], "\n") == y + "\n";
    assert Join(lines[2..], "\n") == s2;
    assert Join(lines[1..], "\n") == (x + "\n") + s2;
  }

  /** The same lines, after the collapse dropped the leading empty one,
      joined by spaces. */
  lemma TrailingBreakWords(x: string, y: string)
    ensures Join([x, "", y, ""], " ") == x + "  " + y + " "
  {
    var kept := [x, "", y, ""];
    assert kept[3..] == [""] && kept[2..] == [y, ""] && kept[1..] == ["", y, ""];
    assert Join(kept[2..], " ") == y + " ";
    assert Join(kept[1..], " ") == " " + (y + " ");
  }

  /** Two stripped cues that each end in a line break: the empty line where
      they meet and the one at the end are words of their own. */
  lemma TrailingBreaksText(x: string, y: string)
    requires '\n' !in x && '\n' !in y
    requires x != "" && y != ""
    ensures NormalizeText(("\n" + (x + "\n")) + ("\n" + (y + "\n"))) == x + "  " + y + " "
  {
    var lines := ["", x, "", y, ""];
    TrailingBreakLines(x, y);
    NormalizeTextOfLines(lines);
    assert lines[1..] == [x, "", y, ""];
    TrailingBreakWords(x, y);
  }

  /** Two printed cues, each of whose text ends in a line break, give their
      lines joined by two spaces (the empty line where the cues meet is a
      word of its own) with a trailing space. In particular a line that ends
      one cue and starts the next is NOT collapsed: taking `y == x` shows it
      twice. */
  lemma TwoCuesWithTrailingBreaks(h1: string, h2: string, x: string, y: string)
    requires '\n' !in h1 && '\n' !in h2 && '\n' !in x && '\n' !in y
    requires '\\' !in h1 && '\\' !in h2 && '\\' !in x && '\\' !in y
    requires x != "" && y != ""
    ensures Normalize([PrintedCue(h1, x + "\n"), PrintedCue(h2, y + "\n")]) == x + "  " + y + " "
  {
    var c1, c2 := PrintedCue(h1, x + "\n"), PrintedCue(h2, y + "\n");
    StripPrintedCue(h1, x + "\n");
    StripPrintedCue(h2, y + "\n");
    FlattenPair(c1, c2);
    TrailingBreaksText(x, y);
  }

  /** The flattened text of two cues sharing a line, as lines. */
  lemma SharedLineLines(x: string, y: string)
    ensures Join(["", x, x, y], "\n") == ("\n" + x) + ("\n" + (x + "\n" + y))
  {
    var lines := ["", x, x, y];
    assert lines[3..] == [y] && lines[2..] == [x, y] && lines[1..] == [x, x, y];
    assert Join(lines[2..], "\n") == x + "\n" + y;
    assert Join(lines[1..], "\n") == x + ("\n" + (x + "\n" + y));
  }

  /** Two stripped cues without trailing breaks that share a line: the line
      appears once. */
  lemma SharedLineText(x: string, y: string)
    requires '\n' !in x && '\n' !in y
    requires x != "" && y != x
    ensures NormalizeText(("\n" + x) + ("\n" + (x + "\n" + y))) == x + " " + y
  {
    var lines := ["", x, x, y];
    SharedLineLines(x, y);
    SplitJoin(lines);
    SharedLineCollapses(x, y);
    RenderIsJoin([x, y]);
    assert [x, y][1..] == [y];
  }

  /** Two printed cues whose texts do not end in a line break: a line that
      ends the first cue and starts the second appears once. */
  lemma TwoCuesSharingALine(h1: string, h2: string, x: string, y: string)
    requires '\n' !in h1 && '\n' !in h2 && '\n' !in x && '\n' !in y
    requires '\\' !in h1 && '\\' !in h2 && '\\' !in x && '\\' !in y
    requires x != "" && y != x
    ensures Normalize([PrintedCue(h1, x), PrintedCue(h2, x + "\n" + y)]) == x + " " + y
  {
    var c1, c2 := PrintedCue(h1, x), PrintedCue(h2, x + "\n" + y);
    StripPrintedCue(h1, x);
    StripPrintedCue(h2, x + "\n" + y);
    FlattenPair(c1, c2);
    SharedLineText(x, y);
  }

  /** The collapse of the lines of two cues sharing a line keeps it once. */
  lemma SharedLineCollapses(x: string, y: string)
    requires x != "" && y != x
    ensures Collapse(["", x, x, y], "") == [x, y]
  {
    var lines := ["", x, x, y];
    assert lines[3..] == [y] && lines[2..] == [x, y] && lines[1..] == [x, x, y];
    assert Collapse(lines[3..], x) == [y];
    assert Collapse(lines[1..], "") == [x] + Collapse(lines[2..], x);
  }

  /** A line equal to an earlier but not neighbouring line is kept. */
  lemma NonAdjacentRepeatKeptExample()
    ensures Collapse(["a", "b", "a"], "") == ["a", "b", "a"]
  {
  }

  /** Empty lines are lines like any other: only a run of them shrinks, and
      a leading run equal to the starting cursor vanishes. */
  lemma EmptyLinesExample()
    ensures Collapse(["", "", "x", "", ""], "") == ["x", ""]
  {
  }
}
