/** The scan of a text for maximal runs of decimal digits, left to right,
    as the regular expression \d+ finds them (ASCII digits only). */
module DigitRuns {
  import opened Decimal

  /** The length of the longest prefix of s made of digits. */
  function LeadingDigits(s: string): (k: nat)
    ensures k <= |s|
    ensures AllDigits(s[..k])
    ensures k == |s| || !IsDigit(s[k])
  {
    if s == [] || !IsDigit(s[0]) then 0
    else 1 + LeadingDigits(s[1..])
  }

  /** The longest digit prefix is the only prefix that is all digits and
      cannot be extended by a digit. */
  lemma {:induction false} LeadingDigitsUnique(s: string, k: nat)
    requires k <= |s| && AllDigits(s[..k])
    requires k == |s| || !IsDigit(s[k])
    ensures LeadingDigits(s) == k
  {
    if k > 0 {
      assert s[..k][0] == s[0];
      assert s[1..][..k - 1] == s[..k][1..];
      assert k - 1 == |s[1..]| || s[1..][k - 1] == s[k];
      LeadingDigitsUnique(s[1..], k - 1);
    }
  }

  /** The maximal digit runs of s, in order, as strings (the list that
      re.findall(r'\d+', s) returns). */
  function Runs(s: string): (rs: seq<string>)
    ensures forall j | 0 <= j < |rs| :: rs[j] != [] && AllDigits(rs[j])
    decreases |s|
  {
    if s == [] then []
    else if !IsDigit(s[0]) then Runs(s[1..])
    else
      var k := LeadingDigits(s);
      [s[..k]] + Runs(s[k..])
  }

  /** Each run read as a base-10 number. */
  function Values(rs: seq<string>): (vs: seq<nat>)
    requires forall j | 0 <= j < |rs| :: AllDigits(rs[j])
    ensures |vs| == |rs|
    ensures forall j | 0 <= j < |rs| :: vs[j] == Read(rs[j])
  {
    seq(|rs|, j requires 0 <= j < |rs| => Read(rs[j]))
  }

  /** The numbers found in s, left to right. */
  function Numbers(s: string): seq<nat> {
    Values(Runs(s))
  }

  // ---------------------------------------------------------------------
  // An independent description of the runs: s is the runs interleaved with
  // separators that hold no digit, where every separator strictly between
  // two runs is non-empty (otherwise the two runs would be one).

  /** seps[0] + runs[0] + seps[1] + runs[1] + ... + runs[n-1] + seps[n] */
  function Join(seps: seq<string>, runs: seq<string>): (s: string)
    requires |seps| == |runs| + 1
    ensures |s| >= |seps[0]|
  {
    if runs == [] then seps[0]
    else seps[0] + runs[0] + Join(seps[1..], runs[1..])
  }

  predicate WellSeparated(seps: seq<string>, runs: seq<string>) {
    && |seps| == |runs| + 1
    && (forall j | 0 <= j < |runs| :: runs[j] != [] && AllDigits(runs[j]))
    && (forall j | 0 <= j < |seps| :: NoDigits(seps[j]))
    && (forall j | 0 < j < |runs| :: seps[j] != [])
  }

  /** A non-digit in front of a separated text joins its first separator. */
  lemma PrependSeparatorChar(c: char, t: seq<string>, runs: seq<string>)
    requires !IsDigit(c) && WellSeparated(t, runs)
    ensures WellSeparated([[c] + t[0]] + t[1..], runs)
    ensures Join([[c] + t[0]] + t[1..], runs) == [c] + Join(t, runs)
  {
  }

  /** A run in front of a separated text whose first separator is empty
      only when it holds no run. */
  lemma PrependRun(r: string, t: seq<string>, runs: seq<string>)
    requires r != [] && AllDigits(r) && WellSeparated(t, runs)
    requires runs != [] ==> t[0] != []
    ensures WellSeparated([[]] + t, [r] + runs)
    ensures Join([[]] + t, [r] + runs) == r + Join(t, runs)
  {
  }

  /** The separators around the runs of s: the pieces of s between runs. */
  function Separators(s: string): (seps: seq<string>)
    ensures WellSeparated(seps, Runs(s))
    ensures Join(seps, Runs(s)) == s
    ensures s != [] && !IsDigit(s[0]) ==> seps[0] != []
    decreases |s|
  {
    if s == [] then [[]]
    else if !IsDigit(s[0]) then
      var t := Separators(s[1..]);
      PrependSeparatorChar(s[0], t, Runs(s[1..]));
      assert s == [s[0]] + s[1..];
      [[s[0]] + t[0]] + t[1..]
    else
      var k := LeadingDigits(s);
      var t := Separators(s[k..]);
      PrependRun(s[..k], t, Runs(s[k..]));
      assert s == s[..k] + s[k..];
      [[]] + t
  }

  /** A prefix without digits contributes no run. */
  lemma {:induction false} SkipSeparator(p: string, t: string)
    requires NoDigits(p)
    ensures Runs(p + t) == Runs(t)
    decreases |p|
  {
    if p == [] {
      assert p + t == t;
    } else {
      assert (p + t)[0] == p[0];
      assert (p + t)[1..] == p[1..] + t;
      SkipSeparator(p[1..], t);
    }
  }

  /** A run followed by nothing or by a non-digit is read as one whole run. */
  lemma TakeRun(r: string, rest: string)
    requires r != [] && AllDigits(r)
    requires rest == [] || !IsDigit(rest[0])
    ensures Runs(r + rest) == [r] + Runs(rest)
  {
    var s := r + rest;
    assert s[..|r|] == r;
    assert s[|r|..] == rest;
    LeadingDigitsUnique(s, |r|);
  }

  /** The separator description determines the runs uniquely. */
  lemma {:induction false} RunsOfJoin(seps: seq<string>, runs: seq<string>)
    requires WellSeparated(seps, runs)
    ensures Runs(Join(seps, runs)) == runs
  {
    if runs == [] {
      SkipSeparator(seps[0], []);
      assert seps[0] + [] == seps[0];
    } else {
      var rest := Join(seps[1..], runs[1..]);
      assert WellSeparated(seps[1..], runs[1..]) by {
        forall j | 0 < j < |runs[1..]| ensures seps[1..][j] != [] {
          assert seps[1..][j] == seps[j + 1];
        }
      }
      RunsOfJoin(seps[1..], runs[1..]);
      assert rest == [] || !IsDigit(rest[0]) by {
        if runs[1..] == [] {
          assert rest == seps[1];
        } else {
          assert seps[1] != [];
          assert rest == seps[1] + runs[1] + Join(seps[2..], runs[2..]) by {
            assert seps[1..][1..] == seps[2..];
            assert runs[1..][1..] == runs[2..];
          }
          assert rest[0] == seps[1][0];
        }
      }
      TakeRun(runs[0], rest);
      SkipSeparator(seps[0], runs[0] + rest);
      assert seps[0] + runs[0] + rest == seps[0] + (runs[0] + rest);
      assert [runs[0]] + runs[1..] == runs;
    }
  }

  /** Runs(s) == runs exactly when s is runs separated by digit-free
      separators, non-empty between consecutive runs. */
  lemma RunsCharacterization(s: string, runs: seq<string>)
    ensures Runs(s) == runs <==> exists seps :: WellSeparated(seps, runs) && Join(seps, runs) == s
  {
    if Runs(s) == runs {
      var seps := Separators(s);
      assert WellSeparated(seps, runs) && Join(seps, runs) == s;
    }
    if seps :| WellSeparated(seps, runs) && Join(seps, runs) == s {
      RunsOfJoin(seps, runs);
    }
  }

  /** The numbers of a separated text are the values of its runs. */
  lemma NumbersOfJoin(s: string, seps: seq<string>, runs: seq<string>)
    requires WellSeparated(seps, runs) && Join(seps, runs) == s
    ensures Numbers(s) == Values(runs)
  {
    RunsOfJoin(seps, runs);
  }

  // ---------------------------------------------------------------------
  // How runs compose when text is appended.

  /** Text split where a run cannot straddle the cut has the runs of both
      halves, in order. */
  lemma {:induction false} RunsAppend(s: string, t: string)
    requires s == [] || t == [] || !IsDigit(s[|s| - 1]) || !IsDigit(t[0])
    ensures Runs(s + t) == Runs(s) + Runs(t)
    decreases |s|
  {
    var st := s + t;
    if s == [] {
      assert st == t;
    } else if !IsDigit(s[0]) {
      assert st[0] == s[0] && st[1..] == s[1..] + t;
      RunsAppend(s[1..], t);
      assert Runs(st) == Runs(st[1..]);
    } else {
      var k := LeadingDigits(s);
      if k < |s| {
        RunsAppendAfterRun(s, t, k);
      } else {
        assert s[..k] == s;
        TakeRun(s, t);
      }
    }
  }

  /** The step of RunsAppend where s starts with a run that ends inside s. */
  lemma {:induction false} RunsAppendAfterRun(s: string, t: string, k: nat)
    requires s != [] && IsDigit(s[0]) && k == LeadingDigits(s) && k < |s|
    requires t == [] || !IsDigit(s[|s| - 1]) || !IsDigit(t[0])
    ensures Runs(s + t) == Runs(s) + Runs(t)
    decreases |s|, 0
  {
    var st := s + t;
    assert st[..k] == s[..k] && st[k] == s[k] && st[0] == s[0];
    LeadingDigitsUnique(st, k);
    assert Runs(st) == [st[..k]] + Runs(st[k..]);
    assert Runs(s) == [s[..k]] + Runs(s[k..]);
    assert st[k..] == s[k..] + t;
    assert s[k..][|s[k..]| - 1] == s[|s| - 1];
    RunsAppend(s[k..], t);
    assert [s[..k]] + (Runs(s[k..]) + Runs(t)) == ([s[..k]] + Runs(s[k..])) + Runs(t);
  }

  /** Appending text can only lengthen its last run; every
      earlier run stays where it was. */
  lemma {:induction false} RunsAppendKeepsPrefix(s: string, t: string)
    ensures |Runs(s)| > 0 ==> Runs(s)[..|Runs(s)| - 1] <= Runs(s + t)
    decreases |s|
  {
    if s == [] {
    } else if !IsDigit(s[0]) {
      assert (s + t)[0] == s[0];
      assert (s + t)[1..] == s[1..] + t;
      RunsAppendKeepsPrefix(s[1..], t);
    } else {
      var k := LeadingDigits(s);
      var st := s + t;
      assert st[..k] == s[..k];
      if k < |s| {
        assert st[k] == s[k];
        LeadingDigitsUnique(st, k);
        assert st[k..] == s[k..] + t;
        RunsAppendKeepsPrefix(s[k..], t);
        var tail := Runs(s[k..]);
        assert Runs(s) == [s[..k]] + tail;
        assert Runs(st) == [s[..k]] + Runs(s[k..] + t);
        if |tail| > 0 {
          assert Runs(s)[..|Runs(s)| - 1] == [s[..k]] + tail[..|tail| - 1];
        }
      } else {
        assert s[k..] == [];
        assert Runs(s) == [s[..k]];
      }
    }
  }

  /** A digit appended right after a run lengthens that run. */
  lemma {:induction false} RunsExtend(p: string, c: char)
    requires p != [] && IsDigit(p[|p| - 1]) && IsDigit(c)
    ensures |Runs(p)| > 0
    ensures Runs(p + [c]) == Runs(p)[..|Runs(p)| - 1] + [Runs(p)[|Runs(p)| - 1] + [c]]
    decreases |p|
  {
    var pc := p + [c];
    if !IsDigit(p[0]) {
      assert pc[0] == p[0];
      assert pc[1..] == p[1..] + [c];
      RunsExtend(p[1..], c);
    } else {
      var k := LeadingDigits(p);
      assert pc[..k] == p[..k];
      if k < |p| {
        assert pc[k] == p[k];
        LeadingDigitsUnique(pc, k);
        assert pc[k..] == p[k..] + [c];
        assert p[k..][|p[k..]| - 1] == p[|p| - 1];
        RunsExtend(p[k..], c);
        ConsExtend(p[..k], Runs(p[k..]), c);
      } else {
        assert p[..k] == p;
        assert p[k..] == [];
        TakeRun(pc, []);
        assert pc + [] == pc;
      }
    }
  }

  lemma ConsExtend(x: string, tail: seq<string>, c: char)
    requires |tail| > 0
    ensures var rs := [x] + tail;
      rs[..|rs| - 1] + [rs[|rs| - 1] + [c]] == [x] + (tail[..|tail| - 1] + [tail[|tail| - 1] + [c]])
  {
  }

  /** The numbers of a text extended by one character, in terms of the
      numbers of the text: a non-digit changes nothing, a digit after a
      non-digit (or at the start) starts a new number, and a digit after a
      digit extends the last number by one decimal place. */
  lemma NumbersSnoc(p: string, c: char)
    ensures !IsDigit(c) ==> Numbers(p + [c]) == Numbers(p)
    ensures IsDigit(c) && (p == [] || !IsDigit(p[|p| - 1])) ==>
      Numbers(p + [c]) == Numbers(p) + [DigitValue(c)]
    ensures IsDigit(c) && p != [] && IsDigit(p[|p| - 1]) ==>
      var ns := Numbers(p);
      |ns| > 0 && Numbers(p + [c]) == ns[..|ns| - 1] + [ns[|ns| - 1] * 10 + DigitValue(c)]
  {
    if !IsDigit(c) {
      RunsAppend(p, [c]);
      assert Runs([c]) == Runs([]);
      assert Runs(p + [c]) == Runs(p);
    } else if p == [] || !IsDigit(p[|p| - 1]) {
      RunsAppend(p, [c]);
      TakeRun([c], []);
      assert [c] + [] == [c];
      assert Runs(p + [c]) == Runs(p) + [[c]];
    } else {
      RunsExtend(p, c);
      var rs := Runs(p);
      var last := rs[|rs| - 1];
      ReadSnoc(last, c);
      assert Runs(p + [c]) == rs[..|rs| - 1] + [last + [c]];
    }
  }

  /** The scan as a single pass with a running number: the loop that
      re.findall(r'\d+', s) followed by reading each match amounts to. */
  method ScanNumbers(s: string) returns (numbers: seq<nat>)
    ensures numbers == Numbers(s)
  {
    numbers := [];
    var current: nat := 0;
    var inRun := false;
    var i := 0;
    while i < |s|
      invariant 0 <= i <= |s|
      invariant inRun <==> i > 0 && IsDigit(s[i - 1])
      invariant Numbers(s[..i]) == numbers + (if inRun then [current] else [])
    {
      var c := s[i];
      assert s[..i + 1] == s[..i] + [c];
      NumbersSnoc(s[..i], c);
      if IsDigit(c) {
        if inRun {
          current := current * 10 + DigitValue(c);
        } else {
          current := DigitValue(c);
          inRun := true;
        }
      } else {
        if inRun {
          numbers := numbers + [current];
        }
        inRun := false;
      }
      i := i + 1;
    }
    if inRun {
      numbers := numbers + [current];
    }
    assert s[..|s|] == s;
  }
}
