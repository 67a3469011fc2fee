/** extract_dimensions: the first three numbers of the model's response,
    by position, become the length, width and height of the box; with fewer
    than three numbers all three stay 0. */
module Dimensions {
  import opened Decimal
  import opened DigitRuns

  /** The dictionary {"length", "width", "height"} the app builds. */
  datatype Dims = Dims(length: nat, width: nat, height: nat)

  /** The initial dictionary: every dimension 0. */
  const NoDims := Dims(0, 0, 0)

  /** The dimensions extract_dimensions returns for a response. */
  function DimensionsOf(response: string): Dims {
    var numbers := Numbers(response);
    if |numbers| >= 3 then Dims(numbers[0], numbers[1], numbers[2]) else NoDims
  }

  /** extract_dimensions as written: start from all zeros, scan the numbers,
      and overwrite the three entries when at least three were found. */
  method ExtractDimensions(response: string) returns (dimensions: Dims)
    ensures dimensions == DimensionsOf(response)
  {
    dimensions := NoDims;
    var numbers := ScanNumbers(response);
    if |numbers| >= 3 {
      dimensions := dimensions.(length := numbers[0]);
      dimensions := dimensions.(width := numbers[1]);
      dimensions := dimensions.(height := numbers[2]);
    }
  }

  /** For a response that is digit runs separated by digit-free words, the
      result depends on the runs alone, by position: the 1st, 2nd and 3rd
      runs, read in base 10, are length, width and height; with fewer than
      three runs, all three are 0. */
  lemma DimensionsOfSeparated(response: string, seps: seq<string>, runs: seq<string>)
    requires WellSeparated(seps, runs) && Join(seps, runs) == response
    ensures DimensionsOf(response) ==
      if |runs| >= 3 then Dims(Read(runs[0]), Read(runs[1]), Read(runs[2])) else NoDims
  {
    NumbersOfJoin(response, seps, runs);
  }

  /** The words around the numbers do not matter: changing every separator
      (keeping them digit-free, and non-empty between runs) leaves the result
      unchanged. */
  lemma DimensionsIgnoreWords(seps1: seq<string>, seps2: seq<string>, runs: seq<string>)
    requires WellSeparated(seps1, runs) && WellSeparated(seps2, runs)
    ensures DimensionsOf(Join(seps1, runs)) == DimensionsOf(Join(seps2, runs))
  {
    DimensionsOfSeparated(Join(seps1, runs), seps1, runs);
    DimensionsOfSeparated(Join(seps2, runs), seps2, runs);
  }

  /** The result is all zeros exactly when fewer than three numbers are found
      or the first three found are all 0. */
  lemma DimensionsZero(response: string)
    ensures DimensionsOf(response) == NoDims <==>
      var ns := Numbers(response);
      |ns| < 3 || (ns[0] == 0 && ns[1] == 0 && ns[2] == 0)
  {
  }

  /** Numbers after the third have no effect: once a response holds four or
      more numbers, nothing appended to it changes the result. */
  lemma LaterTextIgnored(response: string, more: string)
    requires |Numbers(response)| >= 4
    ensures DimensionsOf(response + more) == DimensionsOf(response)
  {
    RunsAppendKeepsPrefix(response, more);
    var rs := Runs(response);
    var rt := Runs(response + more);
    assert rs[..|rs| - 1] <= rt;
    assert rs[0] == rt[0] && rs[1] == rt[1] && rs[2] == rt[2] by {
      assert rs[..|rs| - 1][0] == rs[0];
      assert rs[..|rs| - 1][1] == rs[1];
      assert rs[..|rs| - 1][2] == rs[2];
    }
  }

  /** With exactly three or more numbers, text appended after a non-digit
      boundary has no effect either. */
  lemma LaterRunsIgnored(response: string, more: string)
    requires |Numbers(response)| >= 3
    requires more == [] || !IsDigit(more[0]) || !IsDigit(response[|response| - 1])
    ensures DimensionsOf(response + more) == DimensionsOf(response)
  {
    RunsAppend(response, more);
  }

  // ---------------------------------------------------------------------
  // Worked examples.

  // The longer examples are cut into their words and their numbers, and each
  // fact about the literal text is proved on its own.

  /** The sample description the app shows in its prompt field. */
  const SamplePrompt: string := "Create a box with length 10mm, width 5mm, and height 15mm."
  const SampleWords: seq<string> := ["Create a box with length ", "mm, width ", "mm, and height ", "mm."]
  const SampleRuns: seq<string> := ["10", "5", "15"]

  lemma SampleWellSeparated()
    ensures WellSeparated(SampleWords, SampleRuns)
  {
    assert NoDigits(SampleWords[0]) && NoDigits(SampleWords[1]);
    assert NoDigits(SampleWords[2]) && NoDigits(SampleWords[3]);
  }

  lemma SampleJoin()
    ensures Join(SampleWords, SampleRuns) == SamplePrompt
  {
  }

  lemma SampleValues()
    ensures Values(SampleRuns) == [10, 5, 15]
  {
    assert "10"[..1] == "1" && "15"[..1] == "1";
    assert "1"[..0] == "" && "5"[..0] == "";
  }

  /** The sample description, read as a response, gives the box it describes. */
  lemma ExampleSamplePrompt()
    ensures DimensionsOf(SamplePrompt) == Dims(10, 5, 15)
  {
    SampleWellSeparated();
    SampleJoin();
    NumbersOfJoin(SamplePrompt, SampleWords, SampleRuns);
    SampleValues();
  }

  /** A reply that names the dimensions in another order. */
  const ReorderedReply: string := "height 15 width 5 length 10"
  const ReorderedWords: seq<string> := ["height ", " width ", " length ", ""]
  const ReorderedRuns: seq<string> := ["15", "5", "10"]

  lemma ReorderedWellSeparated()
    ensures WellSeparated(ReorderedWords, ReorderedRuns)
  {
  }

  lemma ReorderedJoin()
    ensures Join(ReorderedWords, ReorderedRuns) == ReorderedReply
  {
  }

  lemma ReorderedValues()
    ensures Values(ReorderedRuns) == [15, 5, 10]
  {
    assert "10"[..1] == "1" && "15"[..1] == "1";
    assert "1"[..0] == "" && "5"[..0] == "";
  }

  /** Keywords are not read: the numbers are taken in order of appearance, so
      "height 15 width 5 length 10" gives length 15, width 5, height 10. */
  lemma ExampleKeywordsIgnored()
    ensures DimensionsOf(ReorderedReply) == Dims(15, 5, 10)
  {
    ReorderedWellSeparated();
    ReorderedJoin();
    NumbersOfJoin(ReorderedReply, ReorderedWords, ReorderedRuns);
    ReorderedValues();
  }

  /** A reply whose first number has leading zeros. */
  const ZerosReply: string := "007 x 1 x 2"
  const ZerosWords: seq<string> := ["", " x ", " x ", ""]
  const ZerosRuns: seq<string> := ["007", "1", "2"]

  lemma ZerosWellSeparated()
    ensures WellSeparated(ZerosWords, ZerosRuns)
  {
  }

  lemma ZerosJoin()
    ensures Join(ZerosWords, ZerosRuns) == ZerosReply
  {
  }

  lemma ZerosValues()
    ensures Values(ZerosRuns) == [7, 1, 2]
  {
    assert "007" == "00" + "7";
    ReadLeadingZeros("00", "7");
    assert "7"[..0] == "" && "1"[..0] == "" && "2"[..0] == "";
  }

  /** Leading zeros are dropped: "007 x 1 x 2" gives (7, 1, 2). */
  lemma ExampleLeadingZeros()
    ensures DimensionsOf(ZerosReply) == Dims(7, 1, 2)
  {
    ZerosWellSeparated();
    ZerosJoin();
    NumbersOfJoin(ZerosReply, ZerosWords, ZerosRuns);
    ZerosValues();
  }

  // The short examples are evaluated by the verifier directly.

  /** Numbers separated by spaces. */
  lemma ExamplePlain()
    ensures DimensionsOf("10 5 15") == Dims(10, 5, 15)
  {
  }

  /** Numbers separated by 'x', as in "length x width x height". */
  lemma ExampleTimes()
    ensures DimensionsOf("10x5x15") == Dims(10, 5, 15)
  {
  }

  /** A decimal point ends a run: "10.5" holds the two numbers 10 and 5. */
  lemma ExampleDecimalPoint()
    ensures Numbers("10.5") == [10, 5]
  {
  }

  /** A minus sign is not part of a number: "-3" holds the number 3. */
  lemma ExampleMinusSign()
    ensures Numbers("-3") == [3]
  {
  }

  /** The empty response has no numbers and gives all zeros. */
  lemma ExampleEmpty()
    ensures DimensionsOf("") == NoDims
  {
  }

  /** Two numbers are not enough: all three dimensions stay 0. */
  lemma ExampleTooFew()
    ensures DimensionsOf("10 by 5") == NoDims
  {
  }

  /** A decimal number is split, so "10.5 by 2" gives length 10, width 5, height 2. */
  lemma ExampleDecimalSplit()
    ensures DimensionsOf("10.5 by 2") == Dims(10, 5, 2)
  {
  }
}
