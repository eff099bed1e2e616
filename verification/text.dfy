/** String operations the caption normaliser relies on, written the way
    Python's `str` methods behave on them. */
module Text {

  /** True when `s` contains a backslash immediately followed by `n`, the
      two-character escape that the caption parser prints for a line break. */
  ghost predicate HasLiteralEscape(s: string) {
    exists i, j :: 0 <= i < j < |s| && j == i + 1 && s[i] == '\\' && s[j] == 'n'
  }

  /** True when `s` starts with the two-character escape. */
  predicate StartsWithEscape(s: string) {
    |s| >= 2 && s[0] == '\\' && s[1] == 'n'
  }

  /** Python's `s.replace(r'\n', "\n")`: a left-to-right scan that turns every
      non-overlapping backslash-`n` pair into one line break. */
  function Unescape(s: string): (r: string)
    ensures |r| <= |s|
    ensures |s| > 0 ==> |r| > 0 && r[0] == (if StartsWithEscape(s) then '\n' else s[0])
    ensures '\\' !in s ==> r == s
    decreases |s|
  {
    if |s| == 0 then ""
    else if StartsWithEscape(s) then "\n" + Unescape(s[2..])
    else [s[0]] + Unescape(s[1..])
  }

  /** The scan leaves no escape behind: a backslash it keeps is never
      followed by an `n`. */
  lemma {:induction false} UnescapeLeavesNoEscape(s: string)
    ensures !HasLiteralEscape(Unescape(s))
    decreases |s|
  {
    if |s| > 0 {
      var n := if StartsWithEscape(s) then 2 else 1;
      var head := if StartsWithEscape(s) then '\n' else s[0];
      var rest := Unescape(s[n..]);
      UnescapeLeavesNoEscape(s[n..]);
      var r := Unescape(s);
      assert r == [head] + rest;
      forall i, j | 0 <= i < j < |r| && j == i + 1
        ensures !(r[i] == '\\' && r[j] == 'n')
      {
        if i > 0 {
          assert r[i] == rest[i - 1] && r[j] == rest[j - 1];
        } else if head == '\\' {
          assert |s[1..]| > 0;
          assert r[j] == rest[0];
        }
      }
    }
  }

  /** Text without a backslash passes through unescaping, whatever follows it. */
  lemma {:induction false} UnescapePlainPrefix(a: string, b: string)
    requires '\\' !in a
    ensures Unescape(a + b) == a + Unescape(b)
    decreases |a|
  {
    if |a| > 0 {
      assert (a + b)[1..] == a[1..] + b;
      assert (a + b)[0] == a[0];
      UnescapePlainPrefix(a[1..], b);
      assert a == [a[0]] + a[1..];
    } else {
      assert a + b == b;
    }
  }

  /** An escape at the front becomes one line break. */
  lemma UnescapeEscapePrefix(b: string)
    ensures Unescape("\\n" + b) == "\n" + Unescape(b)
  {
    assert ("\\n" + b)[2..] == b;
  }

  /** The printing the parser applies to a cue: every line break becomes the
      two-character escape. Used only as the partner of `Unescape`. */
  function Escape(s: string): (r: string)
    ensures '\n' !in r
    ensures |r| >= |s|
    ensures |s| > 0 ==> |r| > 0 && r[0] == (if s[0] == '\n' then '\\' else s[0])
    decreases |s|
  {
    if |s| == 0 then ""
    else if s[0] == '\n' then "\\n" + Escape(s[1..])
    else [s[0]] + Escape(s[1..])
  }

  /** Unescaping an escaped backslash-free text followed by anything gives
      the text back, followed by the unescaped rest. */
  lemma {:induction false} UnescapeEscapeThen(s: string, t: string)
    requires '\\' !in s
    ensures Unescape(Escape(s) + t) == s + Unescape(t)
    decreases |s|
  {
    if |s| == 0 {
      assert Escape(s) + t == t;
    } else {
      assert '\\' !in s[1..];
      UnescapeEscapeThen(s[1..], t);
      UnescapeEscapeStep(s, t);
    }
  }

  /** The inductive step of `UnescapeEscapeThen`: a first character that is
      not a backslash comes back in front of the rest. */
  lemma UnescapeEscapeStep(s: string, t: string)
    requires |s| > 0 && s[0] != '\\'
    requires Unescape(Escape(s[1..]) + t) == s[1..] + Unescape(t)
    ensures Unescape(Escape(s) + t) == s + Unescape(t)
  {
    if s[0] == '\n' {
      UnescapeEscapeBreak(s, t);
    } else {
      UnescapeEscapePlain(s, t);
    }
    ConsAppend(s, Unescape(t));
  }

  /** A leading line break is escaped and unescaped back. */
  lemma UnescapeEscapeBreak(s: string, t: string)
    requires |s| > 0 && s[0] == '\n'
    ensures Unescape(Escape(s) + t) == [s[0]] + Unescape(Escape(s[1..]) + t)
  {
    var u := Escape(s[1..]) + t;
    assert Escape(s) + t == "\\n" + u;
    UnescapeEscapePrefix(u);
  }

  /** A leading plain character passes through both directions. */
  lemma UnescapeEscapePlain(s: string, t: string)
    requires |s| > 0 && s[0] != '\n' && s[0] != '\\'
    ensures Unescape(Escape(s) + t) == [s[0]] + Unescape(Escape(s[1..]) + t)
  {
    var u := Escape(s[1..]) + t;
    assert Escape(s) + t == [s[0]] + u;
    assert !StartsWithEscape([s[0]] + u);
    assert ([s[0]] + u)[1..] == u;
  }

  /** The first element put back in front of the rest of a sequence. */
  lemma ConsAppend<T>(s: seq<T>, u: seq<T>)
    requires |s| > 0
    ensures [s[0]] + (s[1..] + u) == s + u
  {
    assert [s[0]] + s[1..] == s;
  }

  /** Unescaping undoes escaping for every text that does not already hold a
      literal backslash-`n` of its own. */
  lemma {:induction false} UnescapeEscape(s: string)
    requires !HasLiteralEscape(s)
    ensures Unescape(Escape(s)) == s
    decreases |s|
  {
    if |s| == 0 {
    } else {
      assert !HasLiteralEscape(s[1..]) by {
        forall i, j | 0 <= i && j == i + 1 && j < |s[1..]|
          ensures !(s[1..][i] == '\\' && s[1..][j] == 'n')
        {
          assert s[1..][i] == s[i + 1] && s[1..][j] == s[j + 1];
        }
      }
      UnescapeEscape(s[1..]);
      var e := Escape(s[1..]);
      if s[0] == '\n' {
        assert Escape(s) == "\\n" + e;
        assert ("\\n" + e)[2..] == e;
      } else {
        assert Escape(s) == [s[0]] + e;
        assert ([s[0]] + e)[1..] == e;
        if s[0] == '\\' && |s| >= 2 {
          assert s[1] != 'n';
        }
        assert !StartsWithEscape([s[0]] + e);
      }
    }
  }

  /** A backslash-free text escaped between two plain characters unescapes
      back to itself between the same characters. */
  lemma UnescapeWrapped(open: char, s: string, close: char)
    requires open != '\\' && '\\' !in s
    ensures Unescape([open] + Escape(s) + [close]) == [open] + s + [close]
  {
    var e := Escape(s) + [close];
    UnescapeEscapeThen(s, [close]);
    assert Unescape([close]) == [close] by {
      assert [close][1..] == [];
    }
    UnescapePlainPrefix([open], e);
    assert [open] + Escape(s) + [close] == [open] + e;
  }

  /** The lines of `s`, the first of them continuing the partial line
      `cur`: a left-to-right scan that closes the current line at every
      line break and once more at the end. */
  function SplitFrom(s: string, cur: string): (lines: seq<string>)
    requires '\n' !in cur
    ensures |lines| >= 1
    ensures forall i :: 0 <= i < |lines| ==> '\n' !in lines[i]
    decreases |s|
  {
    if |s| == 0 then [cur]
    else if s[0] == '\n' then [cur] + SplitFrom(s[1..], "")
    else SplitFrom(s[1..], cur + [s[0]])
  }

  /** Python's `s.split("\n")`: the pieces between line breaks, in order.
      There is always at least one piece, and `"".split("\n") == [""]`. */
  function Split(s: string): (lines: seq<string>)
    ensures |lines| >= 1
    ensures forall i :: 0 <= i < |lines| ==> '\n' !in lines[i]
  {
    SplitFrom(s, "")
  }

  /** Python's `sep.join(lines)`. */
  function Join(lines: seq<string>, sep: string): string
    decreases |lines|
  {
    if |lines| == 0 then ""
    else if |lines| == 1 then lines[0]
    else lines[0] + sep + Join(lines[1..], sep)
  }

  /** Joining the lines scanned after the partial line `cur` gives `cur`
      followed by the scanned text. */
  lemma {:induction false} JoinSplitFrom(s: string, cur: string)
    requires '\n' !in cur
    ensures Join(SplitFrom(s, cur), "\n") == cur + s
    decreases |s|
  {
    if |s| == 0 {
      assert cur + s == cur;
    } else if s[0] == '\n' {
      var rest := SplitFrom(s[1..], "");
      JoinSplitFrom(s[1..], "");
      assert ([cur] + rest)[1..] == rest;
      assert cur + s == cur + "\n" + s[1..];
    } else {
      JoinSplitFrom(s[1..], cur + [s[0]]);
      assert cur + s == cur + [s[0]] + s[1..];
    }
  }

  /** Joining the pieces of a split with the separator gives the text back. */
  lemma JoinSplit(s: string)
    ensures Join(Split(s), "\n") == s
  {
    JoinSplitFrom(s, "");
  }

  /** Text without a line break scans as one line. */
  lemma {:induction false} SplitFromPlain(s: string, cur: string)
    requires '\n' !in cur && '\n' !in s
    ensures SplitFrom(s, cur) == [cur + s]
    decreases |s|
  {
    if |s| == 0 {
      assert cur + s == cur;
    } else {
      assert s[0] in s;
      assert '\n' !in s[1..];
      SplitFromPlain(s[1..], cur + [s[0]]);
      assert cur + [s[0]] + s[1..] == cur + s;
    }
  }

  /** Scanning across a line break scans the two sides independently. */
  lemma {:induction false} SplitFromAround(a: string, b: string, cur: string)
    requires '\n' !in cur
    ensures SplitFrom(a + "\n" + b, cur) == SplitFrom(a, cur) + SplitFrom(b, "")
    decreases |a|
  {
    var s := a + "\n" + b;
    if |a| == 0 {
      assert s == "\n" + b;
      assert s[1..] == b;
    } else {
      assert s[0] == a[0];
      assert s[1..] == a[1..] + "\n" + b;
      if a[0] == '\n' {
        SplitFromAround(a[1..], b, "");
        assert [cur] + (SplitFrom(a[1..], "") + SplitFrom(b, ""))
            == ([cur] + SplitFrom(a[1..], "")) + SplitFrom(b, "");
      } else {
        SplitFromAround(a[1..], b, cur + [a[0]]);
      }
    }
  }

  /** Splitting at a break splits the two sides independently. */
  lemma SplitAround(a: string, b: string)
    ensures Split(a + "\n" + b) == Split(a) + Split(b)
  {
    SplitFromAround(a, b, "");
  }

  /** Splitting the join of break-free lines gives the lines back. */
  lemma {:induction false} SplitJoin(lines: seq<string>)
    requires |lines| >= 1
    requires forall i :: 0 <= i < |lines| ==> '\n' !in lines[i]
    ensures Split(Join(lines, "\n")) == lines
    decreases |lines|
  {
    SplitFromPlain(lines[0], "");
    assert "" + lines[0] == lines[0];
    if |lines| > 1 {
      SplitJoin(lines[1..]);
      SplitAround(lines[0], Join(lines[1..], "\n"));
      assert [lines[0]] + lines[1..] == lines;
    }
  }

  /** `f` applied to every element, in order. */
  function MapSeq<A, B>(f: A -> B, s: seq<A>): (r: seq<B>)
    ensures |r| == |s|
    ensures forall i :: 0 <= i < |s| ==> r[i] == f(s[i])
  {
    seq(|s|, i requires 0 <= i < |s| => f(s[i]))
  }

  /** Mapping distributes over concatenation. */
  lemma MapSeqAppend<A, B>(f: A -> B, a: seq<A>, b: seq<A>)
    ensures MapSeq(f, a + b) == MapSeq(f, a) + MapSeq(f, b)
  {
  }

  /** The parts concatenated in order with nothing in between, as a loop
      that appends one part at a time builds them. */
  function Concat(parts: seq<string>): string
    decreases |parts|
  {
    if |parts| == 0 then "" else Concat(parts[..|parts| - 1]) + parts[|parts| - 1]
  }

  /** Concatenation distributes over joining two sequences of parts. */
  lemma {:induction false} ConcatAppend(a: seq<string>, b: seq<string>)
    ensures Concat(a + b) == Concat(a) + Concat(b)
    decreases |b|
  {
    if |b| == 0 {
      assert a + b == a;
    } else {
      var last, init := b[|b| - 1], b[..|b| - 1];
      assert (a + b)[..|a + b| - 1] == a + init;
      assert (a + b)[|a + b| - 1] == last;
      ConcatAppend(a, init);
      assert Concat(a) + Concat(init) + last == Concat(a) + (Concat(init) + last);
    }
  }

  /** Two parts concatenate to the one followed by the other. */
  lemma ConcatPair(a: string, b: string)
    ensures Concat([a, b]) == a + b
  {
    assert [a, b][..1] == [a];
    assert [a][..0] == [];
    assert Concat([a]) == a;
  }

  /** Python's `s.replace(from, to)` for single characters. */
  function ReplaceChar(s: string, from: char, to: char): (r: string)
    requires from != to
    ensures |r| == |s|
    ensures from !in r
    ensures forall i :: 0 <= i < |s| ==> r[i] == (if s[i] == from then to else s[i])
  {
    seq(|s|, i requires 0 <= i < |s| => if s[i] == from then to else s[i])
  }

  /** Replacing characters commutes with concatenation. */
  lemma ReplaceCharAppend(a: string, b: string, from: char, to: char)
    requires from != to
    ensures ReplaceChar(a + b, from, to) == ReplaceChar(a, from, to) + ReplaceChar(b, from, to)
  {
  }

  /** Replacing a character that does not occur changes nothing. */
  lemma ReplaceCharAbsent(s: string, from: char, to: char)
    requires from != to
    requires from !in s
    ensures ReplaceChar(s, from, to) == s
  {
  }

  /** Python's `s[1:]`: everything but the first character, or `""`. */
  function DropFirst(s: string): (r: string)
    ensures |s| > 0 ==> s == [s[0]] + r
    ensures |s| == 0 ==> r == ""
  {
    if |s| == 0 then "" else s[1..]
  }

  /** Python's `s[1:-1]`: drops the first and the last character; strings
      shorter than two characters become `""`. */
  function Trim(s: string): (r: string)
    ensures |s| >= 2 ==> s == [s[0]] + r + [s[|s| - 1]]
    ensures |s| < 2 ==> r == ""
  {
    if |s| < 2 then "" else s[1..|s| - 1]
  }
}
