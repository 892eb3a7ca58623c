/**
 The parser's behaviour on the inputs of the repository's tests. What encoding/csv and strconv
 return for these inputs is stated as hypotheses about the Library; everything after that is
 derived from the model.
 */
module ParserExamples {
  import opened Wrappers
  import opened Text
  import opened Csv
  import opened Parser

  // ---------------------------------------------------------------------------------------
  // Steps shared by the examples

  /** Text of several Unix lines: the guess reads the text itself and tries at least two lines. */
  lemma UnixLines(text: string)
    requires '\r' !in text && '\n' in text
    ensures Join(Lines(text), "\n") == text
    ensures Tried(Lines(text)) >= 2
  {
    ReplaceCrlfNoCr(text);
    SplitCount(text);
  }

  /** On such text, the candidate at index ci is guessed when it is the first to pass two reads. */
  lemma GuessedAt(lib: Library, text: string, ci: nat)
    requires '\r' !in text && '\n' in text
    requires ci < |Candidates|
    requires forall j :: 0 <= j < ci ==> !Accepts(lib.read(text, Candidates[j]), 2)
    requires Accepts(lib.read(text, Candidates[ci]), 2)
    ensures Guess(lib, Lines(text)) == Some(Candidates[ci])
    ensures Delimiter(lib, text) == Some(Candidates[ci])
  {
    UnixLines(text);
    FirstPicked(lib, text, Tried(Lines(text)), ci);
  }

  /** On such text, no candidate is guessed when none passes two reads. */
  lemma NoneGuessed(lib: Library, text: string)
    requires '\r' !in text && '\n' in text
    requires forall j :: 0 <= j < |Candidates| ==> !Accepts(lib.read(text, Candidates[j]), 2)
    ensures Guess(lib, Lines(text)) == None
  {
    UnixLines(text);
  }

  lemma CountOne(rs: seq<ReadResult>)
    requires 1 <= |rs| && rs[0].Rec? && (1 < |rs| ==> !rs[1].Rec?)
    ensures RecordCount(rs) == 1
  {
    RecordCountAt(rs, 1);
  }

  lemma CountTwo(rs: seq<ReadResult>)
    requires 2 <= |rs| && rs[0].Rec? && rs[1].Rec? && (2 < |rs| ==> !rs[2].Rec?)
    ensures RecordCount(rs) == 2
  {
    RecordCountAt(rs, 2);
  }

  lemma CountThree(rs: seq<ReadResult>)
    requires |rs| == 3 && rs[0].Rec? && rs[1].Rec? && rs[2].Rec?
    ensures RecordCount(rs) == 3
  {
    RecordCountAt(rs, 3);
  }

  // ---------------------------------------------------------------------------------------
  // The examples. Each input text is a parameter fixed by a precondition, so that the verifier
  // reasons from the hypotheses rather than by evaluating the parser on a literal.

  /** A lone non-integer number is a p-value without an identifier. */
  lemma BareNumberHasNoId(lib: Library, t: seq<string>)
    requires t == ["0.025"]
    requires !lib.isInt("0.025") && lib.parseFloat("0.025").Some?
    ensures Detected(lib, t) == (-1, 0)
  {
  }

  /**
   A single line holding a bare number: no candidate gives two fields, so the comma fallback
   applies, and the one row has an empty identifier.
   */
  lemma BareNumberInput(lib: Library, text: string)
    requires text == "0.025"
    requires lib.Valid()
    requires forall c :: c in Candidates ==> lib.read(text, c) == [Rec([text])]
    requires lib.read(text, ',') == [Rec([text])]
    requires !lib.isInt(text) && lib.parseFloat(text) == Some(0.025)
    ensures Guess(lib, Lines(text)) == None
    ensures Delimiter(lib, text) == Some(',')
    ensures Parse(lib, text) == Some([Row("", 0.025)])
  {
    assert '\n' !in text && '\r' !in text;
    ReplaceCrlfNoCr(text);
    SplitSingle(text);
    assert Lines(text) == [text] && Tried(Lines(text)) == 1;
    forall j | 0 <= j < |Candidates|
      ensures !Accepts(lib.read(text, Candidates[j]), 1)
    {
      assert Candidates[j] in Candidates;
    }
    var rs := lib.read(text, ',');
    CountOne(rs);
    assert Detected(lib, rs[0].fields) == (-1, 0);
    RowsUpToDetermined(lib, rs, -1, 0, 1, [Row("", 0.025)]);
  }

  /**
   The first two lines agree on a space, so the space is accepted although the third line uses
   a comma; reading the third record then fails on its field count.
   */
  lemma ChangedDelimiter(lib: Library, text: string)
    requires text == "A 0.2\nB 0.3\nC,0.25"
    requires lib.Valid()
    requires lib.read(text, ' ') == [Rec(["A", "0.2"]), Rec(["B", "0.3"]), Fail]
    ensures Guess(lib, Lines(text)) == Some(' ')
    ensures Parse(lib, text) == None
  {
    assert text[5] == '\n' && '\r' !in text;
    GuessedAt(lib, text, 0);
    CountTwo(lib.read(text, ' '));
  }

  /** No field of the first record parses as a float: the p-value column cannot be detected. */
  lemma NoPValueInFirstLine(lib: Library, text: string)
    requires text == "A X\nB 0.3\nC"
    requires lib.Valid()
    requires lib.read(text, ' ') == [Rec(["A", "X"]), Rec(["B", "0.3"]), Fail]
    requires lib.parseFloat("A") == None && lib.parseFloat("X") == None
    ensures Detected(lib, lib.read(text, ' ')[0].fields) == (0, -1)
    ensures Parse(lib, text) == None
  {
    assert text[3] == '\n' && '\r' !in text;
    GuessedAt(lib, text, 0);
    CountTwo(lib.read(text, ' '));
  }

  /** The p-value column of a later record does not parse: the whole input is rejected. */
  lemma NoPValueInSubsequentLine(lib: Library, text: string)
    requires text == "A 0.02\nB 0.2\nC X"
    requires lib.Valid()
    requires lib.read(text, ' ') == [Rec(["A", "0.02"]), Rec(["B", "0.2"]), Rec(["C", "X"])]
    requires lib.parseFloat("A") == None && !lib.isInt("A")
    requires lib.parseFloat("0.02").Some? && lib.parseFloat("0.2").Some? && lib.parseFloat("X") == None
    ensures Guess(lib, Lines(text)) == Some(' ')
    ensures Parse(lib, text) == None
  {
    assert text[6] == '\n' && '\r' !in text;
    GuessedAt(lib, text, 0);
    var rs := lib.read(text, ' ');
    CountThree(rs);
    assert Detected(lib, rs[0].fields) == (0, 1);
    assert !IsFloat(lib, rs[2].fields[1]);
    RowsUpToMeaning(lib, rs, 0, 1, 3);
  }

  /**
   Tab-separated input: space and comma give one field per record, the tab two; the integer in
   the first column is the identifier and the float in the second the p-value.
   */
  lemma TabDelimited(lib: Library, text: string)
    requires text == "3\t0.005\n4\t0.34\nSix\t0.11"
    requires lib.Valid()
    requires lib.read(text, ' ') == [Rec(["3\t0.005"]), Rec(["4\t0.34"]), Rec(["Six\t0.11"])]
    requires lib.read(text, ',') == [Rec(["3\t0.005"]), Rec(["4\t0.34"]), Rec(["Six\t0.11"])]
    requires lib.read(text, '\t') == [Rec(["3", "0.005"]), Rec(["4", "0.34"]), Rec(["Six", "0.11"])]
    requires lib.isInt("3")
    requires lib.parseFloat("0.005") == Some(0.005) && lib.parseFloat("0.34") == Some(0.34)
    requires lib.parseFloat("0.11") == Some(0.11)
    ensures Guess(lib, Lines(text)) == Some('\t')
    ensures Parse(lib, text) == Some([Row("3", 0.005), Row("4", 0.34), Row("Six", 0.11)])
  {
    assert text[7] == '\n' && '\r' !in text;
    assert !Accepts(lib.read(text, ' '), 2) && !Accepts(lib.read(text, ','), 2);
    GuessedAt(lib, text, 2);
    DetectorRecords(lib, lib.read(text, '\t'));
  }

  /** Space-separated input: the space is the first candidate and is accepted at once. */
  lemma SpaceDelimited(lib: Library, text: string)
    requires text == "3 0.005\n4 0.34\nSix 0.11"
    requires lib.Valid()
    requires lib.read(text, ' ') == [Rec(["3", "0.005"]), Rec(["4", "0.34"]), Rec(["Six", "0.11"])]
    requires lib.isInt("3")
    requires lib.parseFloat("0.005") == Some(0.005) && lib.parseFloat("0.34") == Some(0.34)
    requires lib.parseFloat("0.11") == Some(0.11)
    ensures Guess(lib, Lines(text)) == Some(' ')
    ensures Parse(lib, text) == Some([Row("3", 0.005), Row("4", 0.34), Row("Six", 0.11)])
  {
    assert text[7] == '\n' && '\r' !in text;
    GuessedAt(lib, text, 0);
    DetectorRecords(lib, lib.read(text, ' '));
  }

  /** Comma-separated input: the space gives one field per record, so the comma is accepted. */
  lemma CommaDelimited(lib: Library, text: string)
    requires text == "3,0.005\n4,0.34\nSix,0.11"
    requires lib.Valid()
    requires lib.read(text, ' ') == [Rec(["3,0.005"]), Rec(["4,0.34"]), Rec(["Six,0.11"])]
    requires lib.read(text, ',') == [Rec(["3", "0.005"]), Rec(["4", "0.34"]), Rec(["Six", "0.11"])]
    requires lib.isInt("3")
    requires lib.parseFloat("0.005") == Some(0.005) && lib.parseFloat("0.34") == Some(0.34)
    requires lib.parseFloat("0.11") == Some(0.11)
    ensures Guess(lib, Lines(text)) == Some(',')
    ensures Parse(lib, text) == Some([Row("3", 0.005), Row("4", 0.34), Row("Six", 0.11)])
  {
    assert text[7] == '\n' && '\r' !in text;
    assert !Accepts(lib.read(text, ' '), 2);
    GuessedAt(lib, text, 1);
    DetectorRecords(lib, lib.read(text, ','));
  }

  /**
   The records of the delimiter-detection examples, whichever delimiter splits them, give three
   rows identified by the first column.
   */
  lemma DetectorRecords(lib: Library, rs: seq<ReadResult>)
    requires rs == [Rec(["3", "0.005"]), Rec(["4", "0.34"]), Rec(["Six", "0.11"])]
    requires lib.isInt("3")
    requires lib.parseFloat("0.005") == Some(0.005) && lib.parseFloat("0.34") == Some(0.34)
    requires lib.parseFloat("0.11") == Some(0.11)
    ensures UniformWidth(rs)
    ensures ParseRecords(lib, rs) == Some([Row("3", 0.005), Row("4", 0.34), Row("Six", 0.11)])
  {
    CountThree(rs);
    assert Detected(lib, rs[0].fields) == (0, 1);
    RowsUpToDetermined(lib, rs, 0, 1, 3, [Row("3", 0.005), Row("4", 0.34), Row("Six", 0.11)]);
  }

  /**
   A doubled space in the second line gives it three fields under the space delimiter, so the
   second read fails; no other candidate splits the first line, and the first line is not a bare
   number: the input is rejected.
   */
  lemma MixedSpace(lib: Library, text: string)
    requires text == "3 0.005\n4  0.34\nSix 0.11"
    requires lib.Valid()
    requires lib.read(text, ' ') == [Rec(["3", "0.005"]), Fail]
    requires forall c :: c in Candidates && c != ' ' ==>
      lib.read(text, c) == [Rec(["3 0.005"]), Rec(["4  0.34"]), Rec(["Six 0.11"])]
    requires lib.parseFloat("3 0.005") == None
    ensures Guess(lib, Lines(text)) == None
    ensures Parse(lib, text) == None
  {
    MixedSpaceLines(text);
    forall j | 0 <= j < |Candidates|
      ensures !Accepts(lib.read(text, Candidates[j]), 2)
    {
      assert Candidates[j] in Candidates;
    }
    NoneGuessed(lib, text);
  }

  /** The mixed-space text has Unix line ends and its first line is "3 0.005". */
  lemma MixedSpaceLines(text: string)
    requires text == "3 0.005\n4  0.34\nSix 0.11"
    ensures '\r' !in text && '\n' in text
    ensures Lines(text)[0] == "3 0.005"
  {
    assert text == "3 0.005" + "\n" + "4  0.34\nSix 0.11" && '\r' !in text;
    ReplaceCrlfNoCr(text);
    SplitPrefix("3 0.005", "4  0.34\nSix 0.11");
  }
}
