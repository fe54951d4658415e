/**
  The multi-line text box that edits one set of suppression or skip-mask
  entries: the set is shown one entry per line and read back from the
  text, line by line.
 */
module ItemsListEditor {
  import opened Text

  /** `text.Split(new[] { "\r\n", "\n" }, None)`: at each position the
      two-character separator is tried first, so `\r\n` and `\n` both end a
      piece and a lone `\r` stays inside one. */
  function SplitLines(text: string): (pieces: seq<string>)
    ensures |pieces| >= 1
    decreases |text|
  {
    if |text| == 0 then [""]
    else if |text| >= 2 && text[0] == '\r' && text[1] == '\n' then [""] + SplitLines(text[2..])
    else if text[0] == '\n' then [""] + SplitLines(text[1..])
    else
      var rest := SplitLines(text[1..]);
      [[text[0]] + rest[0]] + rest[1..]
  }

  /** The `Items` getter: the non-empty pieces, repeats collapsed. */
  function GetItems(text: string): (items: set<string>)
    ensures "" !in items
  {
    set x | x in SplitLines(text) && x != ""
  }

  /** The `Items` setter: the entries in hash-set order, one per line. When
      every entry is a line, the lines of the text are exactly the entries. */
  ghost function SetItems(items: set<string>): (text: string)
    ensures items != {} && (forall x :: x in items ==> IsLine(x)) ==>
              && Distinct(SplitLines(text))
              && forall x :: x in SplitLines(text) <==> x in items
  {
    var lines := Enumeration(items);
    LinesOfJoin(lines);
    Join(lines, "\n")
  }

  /** The lines of a non-empty list of lines joined with `\n`. */
  lemma LinesOfJoin(lines: seq<string>)
    ensures |lines| >= 1 && (forall x :: x in lines ==> IsLine(x)) ==>
              SplitLines(Join(lines, "\n")) == lines
  {
    if |lines| >= 1 && (forall x :: x in lines ==> IsLine(x)) {
      SplitLinesJoin(lines);
    }
  }

  /** A line the getter reads back as it was written. */
  predicate IsLine(x: string) {
    '\n' !in x && (|x| == 0 || x[|x| - 1] != '\r')
  }

  /** A line followed by either separator is one piece, and the pieces after
      it are those of the rest. */
  lemma {:induction false} SplitLinesAfterLine(a: string, sep: string, rest: string)
    requires IsLine(a)
    requires sep == "\n" || sep == "\r\n"
    ensures SplitLines(a + sep + rest) == [a] + SplitLines(rest)
    decreases |a|
  {
    var text := a + sep + rest;
    if |a| == 0 {
      assert text == sep + rest;
      if sep == "\r\n" {
        assert text[2..] == rest;
      } else {
        assert text[1..] == rest;
      }
    } else {
      var tail := a[1..];
      assert IsLine(tail);
      assert text[1..] == tail + sep + rest;
      assert text[0] == a[0] != '\n';
      assert |text| >= 2 && text[0] == '\r' ==> text[1] != '\n' by {
        if |tail| > 0 {
          assert text[1] == tail[0];
        }
      }
      SplitLinesAfterLine(tail, sep, rest);
      assert [a[0]] + tail == a;
    }
  }

  /** A single line is a single piece. */
  lemma {:induction false} SplitLinesOfLine(a: string)
    requires '\n' !in a
    ensures SplitLines(a) == [a]
    decreases |a|
  {
    if |a| > 0 {
      SplitLinesOfLine(a[1..]);
      assert [a[0]] + a[1..] == a;
    }
  }

  /** Lines joined with `\n` split back into the same lines. */
  lemma {:induction false} SplitLinesJoin(lines: seq<string>)
    requires |lines| >= 1
    requires forall i :: 0 <= i < |lines| ==> IsLine(lines[i])
    ensures SplitLines(Join(lines, "\n")) == lines
    decreases |lines|
  {
    if |lines| == 1 {
      SplitLinesOfLine(lines[0]);
    } else {
      SplitLinesJoin(lines[1..]);
      SplitLinesAfterLine(lines[0], "\n", Join(lines[1..], "\n"));
    }
  }

  /** Reading back what the setter wrote gives the same set, when every entry
      is a non-empty line. */
  lemma ItemsRoundTrip(items: set<string>)
    requires forall x :: x in items ==> x != "" && IsLine(x)
    ensures GetItems(SetItems(items)) == items
  {
    var lines := Enumeration(items);
    if |lines| == 0 {
      assert forall x :: x in items ==> x in lines;
      assert SplitLines("") == [""];
    } else {
      forall i | 0 <= i < |lines| ensures IsLine(lines[i]) {
        assert lines[i] in lines;
      }
      SplitLinesJoin(lines);
    }
  }

  /** Entries the getter cannot give back: an empty entry is dropped, and an
      entry holding a line break comes back as its lines. */
  lemma LineBreakSplitsEntry(a: string, b: string)
    requires IsLine(a) && a != "" && '\n' !in b && b != ""
    ensures GetItems(SetItems({a + "\n" + b})) == {a, b}
  {
    var x := a + "\n" + b;
    EnumerationOfOne(x);
    SplitLinesAfterLine(a, "\n", b);
    SplitLinesOfLine(b);
  }
}
