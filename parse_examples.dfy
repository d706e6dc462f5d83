/** Worked inputs for the constraint extractor's matchers: the patterns the
    code derives from its prefix and suffix lists, and the inputs on which
    the code as written and the intended behaviour part ways. */
module ParseExamples {
  import opened Wrappers
  import opened Text
  import opened ParseMatch

  /** With an empty option the code keeps the other options whole, so the
      lookbehind built from it would not have a fixed width. */
  lemma MinLenAnyStrEmptyOption()
    ensures MinLen(["", "ab"]) == 0
    ensures MinLenAnyStrAsWritten(["", "ab"], "|") == "|ab"
    ensures MinLenAnyStr(["", "ab"], "|") == "|"
  {
    MinLenPair("", "ab");
    EmptyOptionKept(["", "ab"]);
    EmptyOptionCut(["", "ab"]);
  }

  lemma EmptyOptionKept(opts: seq<string>)
    requires opts == ["", "ab"] && MinLen(opts) == 0
    ensures MinLenAnyStrAsWritten(opts, "|") == "|ab"
  {
    var kept := AlternativesAsWritten(opts);
    assert kept[0] == "" && kept[1] == "ab";
    assert kept == ["", "ab"];
    JoinPair("", "ab", "|");
  }

  lemma EmptyOptionCut(opts: seq<string>)
    requires opts == ["", "ab"] && MinLen(opts) == 0
    ensures MinLenAnyStr(opts, "|") == "|"
  {
    var cut := Alternatives(opts);
    assert |cut[0]| == 0 && |cut[1]| == 0;
    assert cut == ["", ""];
    JoinPair("", "", "|");
  }

  lemma JoinPair(a: string, b: string, sep: string)
    ensures Join([a, b], sep) == a + sep + b
  {
    assert [a, b][1..] == [b];
  }

  /** The trimmed patterns the code builds for the major clause. */
  lemma MajorPatterns()
    ensures Alternatives(MajorPrefixes) == ["students in the ", "enrolled in the "]
    ensures Alternatives(MajorSuffixes) == ["or within the", " major of the"]
  {
    MinLenPair(MajorPrefixes[0], MajorPrefixes[1]);
    MinLenPair(MajorSuffixes[0], MajorSuffixes[1]);
    MajorTails(MajorPrefixes[0], MajorPrefixes[1], MajorSuffixes[0], MajorSuffixes[1]);
    AltAt(MajorPrefixes, 0, "students in the ");
    AltAt(MajorPrefixes, 1, "enrolled in the ");
    AltAt(MajorSuffixes, 0, "or within the");
    AltAt(MajorSuffixes, 1, " major of the");
  }

  lemma MajorTails(p0: string, p1: string, s0: string, s1: string)
    requires p0 == "only available to students in the " && p1 == "enrolled in the "
    requires s0 == " major within the" && s1 == " major of the"
    ensures p0[18..] == "students in the " && p1[0..] == p1
    ensures s0[4..] == "or within the" && s1[0..] == s1
  {
  }

  /** The central example, "enrolled in the X major within the". */
  const MajorExample := "enrolled in the X major within the"

  lemma MajorExampleStart(lb: seq<string>)
    requires lb == ["students in the ", "enrolled in the "]
    ensures LookbehindAt(MajorExample, lb, 16)
    ensures forall a :: 0 <= a < 16 ==> !LookbehindAt(MajorExample, lb, a)
    ensures AllAnyChars(MajorExample, 16, 21)
  {
    assert MajorExample[0..16] == lb[1];
    assert MajorExample[16..21] == "X maj";
  }

  /** The code's lookahead lets the match run on to position 21. */
  lemma MajorExampleSpanAsWritten(lb: seq<string>, la: seq<string>)
    requires lb == ["students in the ", "enrolled in the "]
    requires la == ["or within the", " major of the"]
    ensures Search(MajorExample, lb, Before(la)) == Some((16, 21))
  {
    var s := MajorExample;
    MajorExampleStart(lb);
    var e := Before(la);
    TrimmedSuffixAt(la);
    SearchFinds(s, lb, e, 16, 21);
  }

  lemma TrimmedSuffixAt(la: seq<string>)
    requires la == ["or within the", " major of the"]
    ensures LookaheadAt(MajorExample, Before(la), 21)
  {
    var w := MajorExample[21..34];
    assert w == la[0];
    assert EqualsIgnoreCase(w, la[0]);
  }

  /** The whole suffix stops the match at position 17. */
  lemma MajorExampleSpan(lb: seq<string>, la: seq<string>)
    requires lb == ["students in the ", "enrolled in the "]
    requires la == [" major within the", " major of the"]
    ensures Search(MajorExample, lb, Before(la)) == Some((16, 17))
  {
    var s := MajorExample;
    MajorExampleStart(lb);
    var e := Before(la);
    MajorSuffixAt(la);
    forall b | 17 < b <= |s| ensures !LookaheadAt(s, e, b) {
      MajorNoSuffixAt(la, b);
    }
    SearchFinds(s, lb, e, 16, 17);
  }

  lemma MajorSuffixAt(la: seq<string>)
    requires la == [" major within the", " major of the"]
    ensures LookaheadAt(MajorExample, Before(la), 17)
  {
    var w := MajorExample[17..34];
    assert w == la[0];
    assert EqualsIgnoreCase(w, la[0]);
  }

  /** Past position 17 no suffix starts: only a letter follows. */
  lemma MajorNoSuffixAt(la: seq<string>, b: int)
    requires la == [" major within the", " major of the"]
    requires 17 < b <= |MajorExample|
    ensures !LookaheadAt(MajorExample, Before(la), b)
  {
    var s := MajorExample;
    if b + 13 <= |s| {
      var w := s[b..b + 13];
      assert w[0] == s[b] != ' ';
      DifferAt(w, la[1], 0);
    }
  }

  /** Neither "X maj" nor "X" ends with a major suffix. */
  lemma MajorExampleNoSuffix(suffs: seq<string>)
    requires suffs == [" major within the", " major of the"]
    ensures CutSuffix("X maj", suffs) == "X maj"
    ensures CutSuffix("X", suffs) == "X"
  {
  }

  /** What the clean-up leaves of the example's two matches. */
  lemma MajorExampleCleaned(s: string, lb: seq<string>, e: Ending, j: nat, name: string)
    requires s == MajorExample
    requires (j == 21 && name == "X maj") || (j == 17 && name == "X")
    requires Search(s, lb, e) == Some((16, j))
    ensures MatchClean(s, lb, e, MajorSuffixes) == Some(name)
  {
    MajorExampleNoSuffix(MajorSuffixes);
    MajorExampleNames();
    assert s[16..j] == name;
  }

  lemma MajorExampleNames()
    ensures MajorExample[16..21] == "X maj" && MajorExample[16..17] == "X"
  {
  }

  /** On "enrolled in the X major within the" the code yields the major
      "X maj" ... */
  lemma MajorLookaheadTrimmedAsWritten(s: string)
    requires s == MajorExample
    ensures ParseMajorRequirementAsWritten(s) == Some(Major("X maj"))
  {
    MajorPatterns();
    MajorExampleSpanAsWritten(Alternatives(MajorPrefixes), Alternatives(MajorSuffixes));
    MajorExampleCleaned(s, Alternatives(MajorPrefixes), Before(Alternatives(MajorSuffixes)), 21, "X maj");
  }

  /** ... where "X" is meant, and the corrected lookahead yields "X". */
  lemma MajorLookahead(s: string)
    requires s == MajorExample
    ensures ParseMajorRequirement(s) == Some(Major("X"))
  {
    MajorPatterns();
    MajorExampleSpan(Alternatives(MajorPrefixes), MajorSuffixes);
    MajorExampleCleaned(s, Alternatives(MajorPrefixes), Before(MajorSuffixes), 17, "X");
  }

  lemma Five<T>(r: seq<T>, a: T, b: T, c: T, d: T, e: T)
    requires |r| == 5 && r[0] == a && r[1] == b && r[2] == c && r[3] == d && r[4] == e
    ensures r == [a, b, c, d, e]
  {
  }

  lemma Six<T>(r: seq<T>, a: T, b: T, c: T, d: T, e: T, f: T)
    requires |r| == 6 && r[0] == a && r[1] == b && r[2] == c && r[3] == d && r[4] == e && r[5] == f
    ensures r == [a, b, c, d, e, f]
  {
  }

  /** The last thirteen characters of the first three course prefixes. */
  lemma FirstTails(o0: string, o1: string, o2: string)
    requires o0 == "entry into the " && o1 == "enrolled in the " && o2 == " points of the "
    ensures o0[2..] == "try into the " && o1[3..] == "olled in the " && o2[2..] == "oints of the "
  {
  }

  lemma LastTailsAsWritten(o3: string, o4: string)
    requires o3 == "admission to the major within the " && o4 == "major of the "
    ensures o3[21..] == "r within the " && o4[0..] == "major of the "
  {
  }

  lemma LastTails(o3: string, o4: string, o5: string)
    requires o3 == "admission to the " && o4 == "major within the " && o5 == "major of the "
    ensures o3[4..] == "ssion to the " && o4[4..] == "r within the " && o5[0..] == "major of the "
  {
  }

  /** The first three course alternatives, the same in both lists. */
  lemma CourseAltsFirstAsWritten(prefs: seq<string>)
    requires prefs == CoursePrefixesAsWritten && MinLen(prefs) == 13
    ensures Alternatives(prefs)[0] == "try into the "
    ensures Alternatives(prefs)[1] == "olled in the "
    ensures Alternatives(prefs)[2] == "oints of the "
  {
    FirstTails(prefs[0], prefs[1], prefs[2]);
    AltAt(prefs, 0, "try into the ");
    AltAt(prefs, 1, "olled in the ");
    AltAt(prefs, 2, "oints of the ");
  }

  lemma CourseAltsFirst(prefs: seq<string>)
    requires prefs == CoursePrefixes && MinLen(prefs) == 13
    ensures Alternatives(prefs)[0] == "try into the "
    ensures Alternatives(prefs)[1] == "olled in the "
    ensures Alternatives(prefs)[2] == "oints of the "
  {
    FirstTails(prefs[0], prefs[1], prefs[2]);
    AltAt(prefs, 0, "try into the ");
    AltAt(prefs, 1, "olled in the ");
    AltAt(prefs, 2, "oints of the ");
  }

  lemma CourseAltsLastAsWritten(prefs: seq<string>)
    requires prefs == CoursePrefixesAsWritten && MinLen(prefs) == 13
    ensures Alternatives(prefs)[3] == "r within the "
    ensures Alternatives(prefs)[4] == "major of the "
  {
    LastTailsAsWritten(prefs[3], prefs[4]);
    AltAt(prefs, 3, "r within the ");
    AltAt(prefs, 4, "major of the ");
  }

  /** The lookbehind the code builds from its five course prefixes. */
  lemma CoursePatternsAsWritten(prefs: seq<string>)
    requires prefs == CoursePrefixesAsWritten
    ensures Alternatives(prefs) == ["try into the ", "olled in the ", "oints of the ", "r within the ", "major of the "]
  {
    MinLenIs(prefs, 13, 4);
    CourseAltsFirstAsWritten(prefs);
    CourseAltsLastAsWritten(prefs);
    Five(Alternatives(prefs), "try into the ", "olled in the ", "oints of the ", "r within the ", "major of the ");
  }

  lemma CourseAltsLast(prefs: seq<string>)
    requires prefs == CoursePrefixes && MinLen(prefs) == 13
    ensures Alternatives(prefs)[3] == "ssion to the "
    ensures Alternatives(prefs)[4] == "r within the "
    ensures Alternatives(prefs)[5] == "major of the "
  {
    LastTails(prefs[3], prefs[4], prefs[5]);
    AltAt(prefs, 3, "ssion to the ");
    AltAt(prefs, 4, "r within the ");
    AltAt(prefs, 5, "major of the ");
  }

  /** The lookbehind the six intended prefixes give. */
  lemma CoursePatterns(prefs: seq<string>)
    requires prefs == CoursePrefixes
    ensures Alternatives(prefs) == ["try into the ", "olled in the ", "oints of the ", "ssion to the ", "r within the ", "major of the "]
  {
    MinLenIs(prefs, 13, 5);
    CourseAltsFirst(prefs);
    CourseAltsLast(prefs);
    Six(Alternatives(prefs), "try into the ", "olled in the ", "oints of the ", "ssion to the ", "r within the ", "major of the ");
  }

  /** The course example, "admission to the X". */
  const CourseExample := "admission to the X"

  /** In the example, the window before every position up to 16 fails all
      lookbehind alternatives, whichever list they come from. */
  lemma CourseExampleNoEarlyStart(s: string, lb: seq<string>)
    requires s == CourseExample
    requires forall k :: 0 <= k < |lb| ==> |lb[k]| == 13 && lb[k][11] == 'e' && lb[k][12] == ' '
    ensures forall a :: 0 <= a < 17 ==> !LookbehindAt(s, lb, a)
  {
    forall a | 13 <= a < 17 ensures !LookbehindAt(s, lb, a) {
      NoStartAt(s, lb, a);
    }
  }

  /** The thirteen characters before position `a` (from 13 to 16) end
      neither in "e " like every alternative. */
  lemma NoStartAt(s: string, lb: seq<string>, a: int)
    requires s == CourseExample
    requires forall k :: 0 <= k < |lb| ==> |lb[k]| == 13 && lb[k][11] == 'e' && lb[k][12] == ' '
    requires 13 <= a < 17
    ensures !LookbehindAt(s, lb, a)
  {
    var w := s[a - 13..a];
    if a == 13 {
      assert w[11] == s[11] == 'o';
      NoAltMatches(w, lb, 11);
    } else {
      assert w[12] == s[a - 1];
      assert s[a - 1] != ' ';
      NoAltMatches(w, lb, 12);
    }
  }

  /** As written, no lookbehind alternative holds anywhere in the example. */
  lemma CourseExampleNoStart(s: string, lb: seq<string>)
    requires s == CourseExample
    requires lb == ["try into the ", "olled in the ", "oints of the ", "r within the ", "major of the "]
    ensures forall a, b :: 0 <= a < b <= |s| ==> !MatchSpan(s, lb, EndOrStop, a, b)
  {
    CourseExampleNoEarlyStart(s, lb);
    var w := s[4..17];
    assert w[0] == s[4] == 's';
    NoAltMatches(w, lb, 0);
  }

  /** With the intended prefixes the example matches "X". */
  lemma CourseExampleSpan(s: string, lb: seq<string>)
    requires s == CourseExample
    requires lb == ["try into the ", "olled in the ", "oints of the ", "ssion to the ", "r within the ", "major of the "]
    ensures Search(s, lb, EndOrStop) == Some((17, 18))
  {
    CourseExampleNoEarlyStart(s, lb);
    assert s[4..17] == lb[3];
    assert LookbehindAt(s, lb, 17);
    assert s[17] == 'X';
    SearchFinds(s, lb, EndOrStop, 17, 18);
  }

  /** A one-character string holds no separator. */
  lemma SplitSingle(c: string, degrees: seq<string>)
    requires |c| == 1
    ensures SplitWith(c, degrees) == [c]
  {
    assert SepLen(c, 0, degrees) == 0;
    assert SplitFrom(c, degrees, 0, 0) == SplitFrom(c, degrees, 0, 1);
  }

  /** "X" has no course suffix and no separator, and is its own strip. */
  lemma CourseExampleCleaned(c: string)
    requires c == "X"
    ensures StripAll(Split(CutSuffix(c, CourseSuffixes))) == ["X"]
  {
    ShortNotCut(c, CourseSuffixes);
    SplitSingle(c, DegreePrefixes);
    StripLetter(c);
    assert StripAll([c])[0] == c;
  }

  /** No suffix longer than the string can be cut from it. */
  lemma ShortNotCut(c: string, suffs: seq<string>)
    requires forall k :: 0 <= k < |suffs| ==> |suffs[k]| > |c|
    ensures CutSuffix(c, suffs) == c
  {
    var r := CutSuffix(c, suffs);
    assert !EndsWithAt(c, |r|, suffs);
  }

  lemma StripLetter(c: string)
    requires c == "X"
    ensures Strip(c) == c
  {
    assert TrimStart(c) == c;
    assert TrimEnd(c) == c;
  }

  /** The missing comma loses the prefix "admission to the ": "admission to
      the X" yields no course as written, and the course "X" as intended. */
  lemma CoursePrefixFusedAsWritten(s: string)
    requires s == CourseExample
    ensures ParseCourseRequirementAsWritten(s) == None
  {
    CoursePatternsAsWritten(CoursePrefixesAsWritten);
    CourseExampleNoStart(s, Alternatives(CoursePrefixesAsWritten));
  }

  /** With the intended prefixes the example's match is cleaned to "X". */
  lemma CourseExampleMatch(s: string, lb: seq<string>)
    requires s == CourseExample
    requires Search(s, lb, EndOrStop) == Some((17, 18))
    ensures MatchClean(s, lb, EndOrStop, CourseSuffixes) == Some("X")
  {
    assert s[17..18] == "X";
    assert CutSuffix("X", CourseSuffixes) == "X";
  }

  lemma CoursePrefixes6(s: string)
    requires s == CourseExample
    ensures ParseCourseRequirement(s) == Some(Course(["X"]))
  {
    var lb := Alternatives(CoursePrefixes);
    CoursePatterns(CoursePrefixes);
    CourseExampleSpan(s, lb);
    CourseExampleMatch(s, lb);
    assert EndingFor(CourseSuffixes, false) == EndOrStop;
    assert MatchPrefCleanSuff(s, CoursePrefixes, CourseSuffixes, false) == Some("X");
    CourseExampleCleaned("X");
    assert CutSuffix("X", CourseSuffixes) == "X";
  }
}
