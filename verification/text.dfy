/**
 The three operations of Go's strings package that the parser applies to its input before
 anything else: replacing every "\r\n" by "\n", splitting on "\n", and joining lines back
 together with a separator.
 */
module Text {

  /**
   strings.Replace(s, "\r\n", "\n", -1): a left-to-right scan that replaces every occurrence that
   does not overlap an earlier one.
   */
  function ReplaceCrlf(s: string): string
    decreases |s|
  {
    if |s| < 2 then s
    else if s[0] == '\r' && s[1] == '\n' then "\n" + ReplaceCrlf(s[2..])
    else [s[0]] + ReplaceCrlf(s[1..])
  }

  /**
   strings.Split(s, "\n"): the pieces between the line feeds, in order. There is always at least
   one piece: the empty text gives one empty line.
   */
  function Split(s: string): (r: seq<string>)
    ensures |r| >= 1
    decreases |s|
  {
    if s == [] then [""]
    else
      var rest := Split(s[1..]);
      if s[0] == '\n' then [""] + rest
      else [[s[0]] + rest[0]] + rest[1..]
  }

  /** Text without a line feed is a single piece. */
  lemma {:induction false} SplitSingle(s: string)
    requires '\n' !in s
    ensures Split(s) == [s]
    decreases |s|
  {
    if s != [] {
      assert '\n' !in s[1..];
      SplitSingle(s[1..]);
      assert s == [s[0]] + s[1..];
    }
  }

  /** strings.Join(lines, sep). */
  function Join(lines: seq<string>, sep: string): (r: string)
    ensures |lines| == 1 ==> r == lines[0]
    decreases |lines|
  {
    if |lines| == 0 then ""
    else if |lines| == 1 then lines[0]
    else lines[0] + sep + Join(lines[1..], sep)
  }

  /** Joining the pieces of a split with the separator gives back the text. */
  lemma {:induction false} JoinSplit(s: string)
    ensures Join(Split(s), "\n") == s
    decreases |s|
  {
    if s != [] {
      var rest := Split(s[1..]);
      JoinSplit(s[1..]);
      assert rest == [rest[0]] + rest[1..];
      JoinCons(rest[0], rest[1..], "\n");
      if s[0] == '\n' {
        JoinCons("", rest, "\n");
      } else {
        JoinCons([s[0]] + rest[0], rest[1..], "\n");
        ConcatAssoc([s[0]], rest[0], "\n" + Join(rest[1..], "\n"));
      }
      assert s == [s[0]] + s[1..];
    }
  }

  /** Joining a first line and the lines after it. */
  lemma JoinCons(first: string, more: seq<string>, sep: string)
    ensures Join([first] + more, sep) == if more == [] then first else first + (sep + Join(more, sep))
  {
    assert ([first] + more)[1..] == more;
  }

  lemma ConcatAssoc(a: string, b: string, c: string)
    ensures (a + b) + c == a + (b + c)
  {
  }

  /** A line without a line feed, followed by one, splits off as the first piece. */
  lemma {:induction false} SplitPrefix(a: string, b: string)
    requires '\n' !in a
    ensures Split(a + "\n" + b) == [a] + Split(b)
    decreases |a|
  {
    var s := a + "\n" + b;
    if a == [] {
      assert s == "\n" + b;
      assert s[1..] == b;
    } else {
      assert s[1..] == a[1..] + "\n" + b;
      SplitPrefix(a[1..], b);
      assert [a[0]] + a[1..] == a;
    }
  }

  /** Splitting undoes joining with a line feed, for lines that hold none themselves. */
  lemma {:induction false} SplitJoin(lines: seq<string>)
    requires |lines| >= 1
    requires forall k :: 0 <= k < |lines| ==> '\n' !in lines[k]
    ensures Split(Join(lines, "\n")) == lines
    decreases |lines|
  {
    if |lines| > 1 {
      SplitJoin(lines[1..]);
      SplitPrefix(lines[0], Join(lines[1..], "\n"));
      assert [lines[0]] + lines[1..] == lines;
    } else {
      SplitSingle(lines[0]);
    }
  }

  /** Text holding a line feed splits into at least two lines. */
  lemma SplitCount(s: string)
    requires '\n' in s
    ensures |Split(s)| >= 2
    decreases |s|
  {
    if s[0] != '\n' {
      SplitCount(s[1..]);
    }
  }

  /** Text without a carriage return comes back unchanged. */
  lemma ReplaceCrlfNoCr(s: string)
    requires '\r' !in s
    ensures ReplaceCrlf(s) == s
  {
    ReplaceCrlfAppend(s, []);
    assert s + [] == s;
  }

  /** The replacement passes over text without a carriage return. */
  lemma {:induction false} ReplaceCrlfAppend(a: string, b: string)
    requires '\r' !in a
    ensures ReplaceCrlf(a + b) == a + ReplaceCrlf(b)
    decreases |a|
  {
    if a != [] {
      var s := a + b;
      if |s| < 2 {
        assert b == [] && s == a && ReplaceCrlf(b) == [];
      } else {
        assert s[0] == a[0] && s[0] != '\r';
        assert s[1..] == a[1..] + b;
        assert '\r' !in a[1..];
        ReplaceCrlfAppend(a[1..], b);
        assert ReplaceCrlf(s) == [s[0]] + (a[1..] + ReplaceCrlf(b));
        assert [a[0]] + (a[1..] + ReplaceCrlf(b)) == a + ReplaceCrlf(b);
      }
    } else {
      assert a + b == b;
    }
  }

  /** Lines sent with Windows line ends read as the same lines sent with Unix ones. */
  lemma {:induction false} ReplaceCrlfJoin(lines: seq<string>)
    requires forall k :: 0 <= k < |lines| ==> '\r' !in lines[k]
    ensures ReplaceCrlf(Join(lines, "\r\n")) == Join(lines, "\n")
    decreases |lines|
  {
    if |lines| > 1 {
      var tail := Join(lines[1..], "\r\n");
      ReplaceCrlfJoin(lines[1..]);
      assert Join(lines, "\r\n") == lines[0] + ("\r\n" + tail);
      ReplaceCrlfAppend(lines[0], "\r\n" + tail);
      assert ("\r\n" + tail)[2..] == tail;
    } else if |lines| == 1 {
      ReplaceCrlfNoCr(lines[0]);
    }
  }

  /** The lines the parser works with: line ends normalised, then split. */
  function Lines(input: string): (lines: seq<string>)
    ensures |lines| >= 1
    ensures Join(lines, "\n") == ReplaceCrlf(input)
  {
    JoinSplit(ReplaceCrlf(input));
    Split(ReplaceCrlf(input))
  }

  /** Lines sent with "\r\n" line ends come out of Lines exactly as they went in. */
  lemma CrlfLines(lines: seq<string>)
    requires |lines| >= 1
    requires forall k :: 0 <= k < |lines| ==> '\r' !in lines[k] && '\n' !in lines[k]
    ensures Lines(Join(lines, "\r\n")) == lines
  {
    ReplaceCrlfJoin(lines);
    SplitJoin(lines);
  }
}
