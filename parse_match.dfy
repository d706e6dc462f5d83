/** The single-clause matchers of the constraint extractor.

    Each matcher looks for one regular expression in a line of requirement
    text.  The model states the expressions explicitly: a search returns the
    leftmost start at which the pattern matches and, for that start, the
    longest greedy run that the trailing lookahead accepts. */
module ParseMatch {
  import opened Wrappers
  import opened Text
  import opened Seqs

  /** One normalised eligibility rule, as the tuples the extractor emits:
      ('SUBJECTS', qty, codes, conc), ('COURSE', courses),
      ('POINTS', 'FINAL', n), ('FIELD', n, y, fields), ('MAJOR', name) and
      ('ADDITIONAL', text). */
  datatype Constraint =
    | Subjects(qty: int, codes: seq<string>, concurrent: bool)
    | Course(courses: seq<string>)
    | Points(scope: string, n: string)
    | Field(count: int, year: int, fields: string)
    | Major(name: string)
    | Additional(text: string)

  // ---------------------------------------------------------------------
  // min_len_any_str

  /** `min(len(o) for o in options)` */
  function MinLen(options: seq<string>): (m: nat)
    requires |options| > 0
    ensures forall i :: 0 <= i < |options| ==> m <= |options[i]|
  {
    if |options| == 1 then |options[0]|
    else
      var k := MinLen(options[1..]);
      assert forall i :: 1 <= i < |options| ==> options[i] == options[1..][i - 1];
      if |options[0]| <= k then |options[0]| else k
  }

  /** Some option has exactly the least length. */
  lemma {:induction false} MinLenAttained(options: seq<string>) returns (i: nat)
    requires |options| > 0
    ensures i < |options| && |options[i]| == MinLen(options)
  {
    if |options| == 1 {
      i := 0;
    } else if |options[0]| <= MinLen(options[1..]) {
      i := 0;
    } else {
      var k := MinLenAttained(options[1..]);
      i := k + 1;
    }
  }

  /** Python's `o[-l:]`.  For `l == 0` this is `o[-0:] == o[0:]`, the whole
      string, not the empty one. */
  function PyLastChars(o: string, l: nat): string
    requires l <= |o|
  {
    if l == 0 then o else o[|o| - l..]
  }

  /** `o[-l:] for o in options`, as the code computes it. */
  function PyLastCharsAll(options: seq<string>, l: nat): (r: seq<string>)
    requires forall i :: 0 <= i < |options| ==> l <= |options[i]|
    ensures |r| == |options|
    ensures forall i :: 0 <= i < |r| ==> r[i] == PyLastChars(options[i], l)
  {
    if options == [] then [] else [PyLastChars(options[0], l)] + PyLastCharsAll(options[1..], l)
  }

  /** The alternatives `min_len_any_str` joins, as the code computes them. */
  function AlternativesAsWritten(options: seq<string>): (r: seq<string>)
    requires |options| > 0
    ensures |r| == |options|
  {
    PyLastCharsAll(options, MinLen(options))
  }

  /** `min_len_any_str(options, divider)` as written. */
  function MinLenAnyStrAsWritten(options: seq<string>, divider: string): string
    requires |options| > 0
  {
    Join(AlternativesAsWritten(options), divider)
  }

  /** The last `l` characters of every option. */
  function LastCharsAll(options: seq<string>, l: nat): (r: seq<string>)
    requires forall i :: 0 <= i < |options| ==> l <= |options[i]|
    ensures |r| == |options|
    ensures forall i :: 0 <= i < |r| ==> |r[i]| == l && r[i] == options[i][|options[i]| - l..]
  {
    if options == [] then [] else [options[0][|options[0]| - l..]] + LastCharsAll(options[1..], l)
  }

  /** The alternatives with the last `m` characters of every option, `m`
      being the shortest option's length, also when `m` is 0. */
  function Alternatives(options: seq<string>): (r: seq<string>)
    requires |options| > 0
    ensures |r| == |options|
    ensures forall i :: 0 <= i < |r| ==> |r[i]| == MinLen(options)
    ensures forall i :: 0 <= i < |r| ==> r[i] == options[i][|options[i]| - MinLen(options)..]
  {
    LastCharsAll(options, MinLen(options))
  }

  /** `min_len_any_str` with the `m == 0` case corrected: alternatives of
      equal length joined by the divider. */
  function MinLenAnyStr(options: seq<string>, divider: string): (r: string)
    requires |options| > 0
    ensures |r| == |options| * MinLen(options) + (|options| - 1) * |divider|
  {
    SumLengthsUniform(Alternatives(options), MinLen(options));
    Join(Alternatives(options), divider)
  }

  /** Strings of one common length have total length count times length. */
  lemma {:induction false} SumLengthsUniform(parts: seq<string>, m: nat)
    requires forall i :: 0 <= i < |parts| ==> |parts[i]| == m
    ensures SumLengths(parts) == |parts| * m
  {
    if parts != [] {
      SumLengthsUniform(parts[1..], m);
    }
  }

  /** As long as no option is empty, the code's alternatives are the
      corrected ones. */
  lemma AlternativesAgree(options: seq<string>)
    requires |options| > 0
    requires forall i :: 0 <= i < |options| ==> |options[i]| > 0
    ensures AlternativesAsWritten(options) == Alternatives(options)
  {
    var k := MinLenAttained(options);
  }

  // ---------------------------------------------------------------------
  // The search performed by match_pref_clean_suff

  /** The lookahead after the matched run: `(?=\.|$)` or `(?=a|b|...)`. */
  datatype Ending = EndOrStop | Before(alts: seq<string>)

  /** Python's `$` without MULTILINE: the end, or just before a final newline. */
  predicate EndAnchor(s: string, j: int) {
    j == |s| || (j == |s| - 1 && j >= 0 && s[j] == '\n')
  }

  /** `(?<=a|b|...)` holds at position `i`, ignoring case. */
  predicate LookbehindAt(s: string, alts: seq<string>, i: int) {
    exists k :: 0 <= k < |alts| && |alts[k]| <= i <= |s| && EqualsIgnoreCase(s[i - |alts[k]|..i], alts[k])
  }

  /** The lookahead holds at position `j`, ignoring case. */
  predicate LookaheadAt(s: string, e: Ending, j: int) {
    match e
    case EndOrStop => (0 <= j < |s| && s[j] == '.') || EndAnchor(s, j)
    case Before(alts) => exists k :: 0 <= k < |alts| && HasAtIgnoreCase(s, j, alts[k])
  }

  /** Every character of `s[i..j]` is in the class of RE_ANY. */
  predicate AllAnyChars(s: string, i: int, j: int) {
    forall t :: i <= t < j && 0 <= t < |s| ==> IsAnyChar(s[t])
  }

  /** `(?<=lb)[ \w\-():;,]+(?=e)` matches `s[i..j]`. */
  predicate MatchSpan(s: string, lb: seq<string>, e: Ending, i: int, j: int) {
    0 <= i < j <= |s| && LookbehindAt(s, lb, i) && AllAnyChars(s, i, j) && LookaheadAt(s, e, j)
  }

  /** `s[i..j]` is what `re.search` returns: the leftmost start, and the
      longest match from it. */
  predicate LeftmostLongest(s: string, lb: seq<string>, e: Ending, i: int, j: int) {
    && MatchSpan(s, lb, e, i, j)
    && (forall a, b :: 0 <= a < i && a < b <= |s| ==> !MatchSpan(s, lb, e, a, b))
    && (forall b :: j < b <= |s| ==> !MatchSpan(s, lb, e, i, b))
  }

  /** End of the maximal RE_ANY run that starts at `i`. */
  function RunEnd(s: string, i: nat): (k: nat)
    requires i <= |s|
    ensures i <= k <= |s| && AllAnyChars(s, i, k)
    ensures k < |s| ==> !IsAnyChar(s[k])
    decreases |s| - i
  {
    if i < |s| && IsAnyChar(s[i]) then RunEnd(s, i + 1) else i
  }

  /** A run of RE_ANY characters from `i` cannot pass the end of the maximal run. */
  lemma WithinRun(s: string, i: nat, b: int)
    requires i <= b <= |s| && AllAnyChars(s, i, b)
    ensures b <= RunEnd(s, i)
  {
  }

  /** The greedy backtrack: the largest end in `(i, j]` where the lookahead holds. */
  function LastEnd(s: string, e: Ending, i: nat, j: nat): (r: Option<nat>)
    requires i <= j <= |s|
    ensures r.Some? ==> i < r.value <= j && LookaheadAt(s, e, r.value)
    ensures r.Some? ==> forall k :: r.value < k <= j ==> !LookaheadAt(s, e, k)
    ensures r.None? ==> forall k :: i < k <= j ==> !LookaheadAt(s, e, k)
    decreases j
  {
    if j <= i then None
    else if LookaheadAt(s, e, j) then Some(j)
    else LastEnd(s, e, i, j - 1)
  }

  /** `re.search` from position `i` on. */
  function SearchFrom(s: string, lb: seq<string>, e: Ending, i: nat): (r: Option<(nat, nat)>)
    requires i <= |s|
    ensures r.Some? ==> i <= r.value.0 && MatchSpan(s, lb, e, r.value.0, r.value.1)
    ensures r.Some? ==> forall b :: r.value.1 < b <= |s| ==> !MatchSpan(s, lb, e, r.value.0, b)
    ensures r.Some? ==> forall a, b :: i <= a < r.value.0 && a < b <= |s| ==> !MatchSpan(s, lb, e, a, b)
    ensures r.None? ==> forall a, b :: i <= a < b <= |s| ==> !MatchSpan(s, lb, e, a, b)
    decreases |s| - i
  {
    var found := if LookbehindAt(s, lb, i) then LastEnd(s, e, i, RunEnd(s, i)) else None;
    assert forall b :: i < b <= |s| && MatchSpan(s, lb, e, i, b) ==> found.Some? && b <= found.value by {
      forall b | i < b <= |s| && MatchSpan(s, lb, e, i, b) ensures found.Some? && b <= found.value {
        WithinRun(s, i, b);
      }
    }
    if found.Some? then Some((i, found.value))
    else if i == |s| then None
    else SearchFrom(s, lb, e, i + 1)
  }

  /** `re.search(regex, s, flags=re.IGNORECASE)` for the matcher pattern:
      the span found is the leftmost-longest match, and none is found only
      when there is no match at all. */
  function Search(s: string, lb: seq<string>, e: Ending): (r: Option<(nat, nat)>)
    ensures r.Some? ==> LeftmostLongest(s, lb, e, r.value.0, r.value.1)
    ensures r.None? <==> forall a, b :: 0 <= a < b <= |s| ==> !MatchSpan(s, lb, e, a, b)
  {
    SearchFrom(s, lb, e, 0)
  }

  /** The leftmost-longest span is unique. */
  lemma LeftmostLongestUnique(s: string, lb: seq<string>, e: Ending, i: int, j: int, i': int, j': int)
    requires LeftmostLongest(s, lb, e, i, j) && LeftmostLongest(s, lb, e, i', j')
    ensures i == i' && j == j'
  {
  }

  // ---------------------------------------------------------------------
  // re.sub(r'(a|b|...)$', '', t, flags=re.IGNORECASE)

  /** Some alternative matches `s[p..]` in full, ignoring case. */
  predicate EndsWithAt(s: string, p: int, suffs: seq<string>) {
    0 <= p <= |s| && exists k :: 0 <= k < |suffs| && EqualsIgnoreCase(s[p..], suffs[k])
  }

  function CutSuffixFrom(s: string, suffs: seq<string>, p: nat): (r: string)
    requires p <= |s|
    ensures p <= |r| <= |s| && r == s[..|r|]
    ensures |r| < |s| ==> EndsWithAt(s, |r|, suffs)
    ensures forall q :: p <= q < |r| ==> !EndsWithAt(s, q, suffs)
    decreases |s| - p
  {
    if EndsWithAt(s, p, suffs) then s[..p]
    else if p == |s| then s
    else CutSuffixFrom(s, suffs, p + 1)
  }

  /** Removes the suffix the leftmost anchored match covers (the longest
      alternative that ends the string), or nothing when none does.  The
      strings this is applied to are RE_ANY runs, which hold no newline, so
      `$` here means the end of the string. */
  function CutSuffix(s: string, suffs: seq<string>): (r: string)
    ensures |r| <= |s| && r == s[..|r|]
    ensures |r| < |s| ==> EndsWithAt(s, |r|, suffs)
    ensures forall q :: 0 <= q < |r| ==> !EndsWithAt(s, q, suffs)
  {
    CutSuffixFrom(s, suffs, 0)
  }

  /** With one alternative, the suffix is cut exactly when it ends the string. */
  lemma CutOneSuffix(s: string, suff: string)
    requires |suff| > 0
    ensures HasAtIgnoreCase(s, |s| - |suff|, suff) ==> CutSuffix(s, [suff]) == s[..|s| - |suff|]
    ensures !HasAtIgnoreCase(s, |s| - |suff|, suff) ==> CutSuffix(s, [suff]) == s
  {
    var r := CutSuffix(s, [suff]);
    if |r| < |s| {
      assert EndsWithAt(s, |r|, [suff]);
      assert |r| == |s| - |suff|;
    }
    if HasAtIgnoreCase(s, |s| - |suff|, suff) {
      assert s[|s| - |suff|..] == s[|s| - |suff|..|s| - |suff| + |suff|];
      assert [suff][0] == suff;
      assert EndsWithAt(s, |s| - |suff|, [suff]);
    }
  }

  // ---------------------------------------------------------------------
  // match_pref_clean_suff

  /** The search and clean-up of `match_pref_clean_suff`, for a given
      lookbehind and lookahead. */
  function MatchClean(item: string, lb: seq<string>, e: Ending, suffs: seq<string>): (r: Option<string>)
    ensures r.None? <==> forall a, b :: 0 <= a < b <= |item| ==> !MatchSpan(item, lb, e, a, b)
    ensures r.Some? ==> exists i, j :: LeftmostLongest(item, lb, e, i, j) && r.value == CutSuffix(item[i..j], suffs)
  {
    match Search(item, lb, e)
    case None => None
    case Some((i, j)) => Some(CutSuffix(item[i..j], suffs))
  }

  /** `match_pref_clean_suff(item, prefs, suffs, needs_suff)` as written.
      The lookbehind keeps the last `m` characters of each prefix, as a
      Python lookbehind must have a fixed width; the lookahead is built the
      same way, so it too keeps only the last characters of each suffix. */
  function MatchPrefCleanSuffAsWritten(item: string, prefs: seq<string>, suffs: seq<string>, needsSuff: bool): (r: Option<string>)
    requires |prefs| > 0 && (needsSuff ==> |suffs| > 0)
    ensures r.Some? <==> exists a, b :: 0 <= a < b <= |item| && MatchSpan(item, Alternatives(prefs), EndingAsWritten(suffs, needsSuff), a, b)
    ensures r.Some? ==> exists i, j ::
      LeftmostLongest(item, Alternatives(prefs), EndingAsWritten(suffs, needsSuff), i, j) && r.value == CutSuffix(item[i..j], suffs)
  {
    MatchClean(item, Alternatives(prefs), EndingAsWritten(suffs, needsSuff), suffs)
  }

  /** `rf'(?={min_len_any_str(suffs)})' if needs_suff else RE_END` */
  function EndingAsWritten(suffs: seq<string>, needsSuff: bool): Ending
    requires needsSuff ==> |suffs| > 0
  {
    if needsSuff then Before(Alternatives(suffs)) else EndOrStop
  }

  /** `match_pref_clean_suff` as its docstring describes it: the match must
      be followed by one of the suffixes in full (or by a full stop or the
      end when no suffix is needed).  A lookahead, unlike a lookbehind, may
      have alternatives of different widths. */
  function MatchPrefCleanSuff(item: string, prefs: seq<string>, suffs: seq<string>, needsSuff: bool): (r: Option<string>)
    requires |prefs| > 0
    ensures r.Some? <==> exists a, b :: 0 <= a < b <= |item| && MatchSpan(item, Alternatives(prefs), EndingFor(suffs, needsSuff), a, b)
    ensures r.Some? ==> exists i, j ::
      LeftmostLongest(item, Alternatives(prefs), EndingFor(suffs, needsSuff), i, j) && r.value == CutSuffix(item[i..j], suffs)
  {
    MatchClean(item, Alternatives(prefs), EndingFor(suffs, needsSuff), suffs)
  }

  /** `rf'(?={"|".join(suffs)})' if needs_suff else RE_END` */
  function EndingFor(suffs: seq<string>, needsSuff: bool): Ending {
    if needsSuff then Before(suffs) else EndOrStop
  }

  /** Without a needed suffix both versions are the same (`RE_END`), and so
      they are when the suffixes have one common length. */
  lemma MatchPrefCleanSuffAgree(item: string, prefs: seq<string>, suffs: seq<string>, needsSuff: bool)
    requires |prefs| > 0 && (needsSuff ==> |suffs| > 0)
    requires forall k :: 0 <= k < |suffs| ==> |suffs[k]| == |suffs[0]|
    ensures MatchPrefCleanSuffAsWritten(item, prefs, suffs, needsSuff) == MatchPrefCleanSuff(item, prefs, suffs, needsSuff)
  {
    if needsSuff {
      AlternativesOfOneLength(suffs);
    }
  }

  /** Options of one common length are kept whole. */
  lemma AlternativesOfOneLength(options: seq<string>)
    requires |options| > 0
    requires forall k :: 0 <= k < |options| ==> |options[k]| == |options[0]|
    ensures Alternatives(options) == options
  {
    var k := MinLenAttained(options);
    assert MinLen(options) == |options[0]|;
  }

  /** Any lookbehind built from alternatives of one width `m` holds only
      from position `m` on. */
  lemma LookbehindWidth(s: string, alts: seq<string>, m: nat, a: int)
    requires forall k :: 0 <= k < |alts| ==> |alts[k]| == m
    requires LookbehindAt(s, alts, a)
    ensures m <= a <= |s|
  {
  }

  /** The length of the shorter of two options. */
  lemma MinLenPair(a: string, b: string)
    ensures MinLen([a, b]) == if |a| <= |b| then |a| else |b|
  {
    assert [a, b][1..] == [b];
  }

  /** Two strings differing, ignoring case, at one position are not equal
      ignoring case. */
  lemma DifferAt(a: string, b: string, i: nat)
    requires i < |a| && i < |b| && Lower(a[i]) != Lower(b[i])
    ensures !EqualsIgnoreCase(a, b)
  {
  }

  // ---------------------------------------------------------------------
  // parse_major_requirement

  const MajorPrefixes: seq<string> := ["only available to students in the ", "enrolled in the "]
  const MajorSuffixes: seq<string> := [" major within the", " major of the"]

  /** `parse_major_requirement` as written.  Its lookahead is built with
      `min_len_any_str` too, which keeps the last 13 characters of each
      suffix, `"or within the"` and `" major of the"`; so a name followed
      by `" major within the"` is matched up to the letters `" maj"`. */
  function ParseMajorRequirementAsWritten(item: string): (r: Option<Constraint>)
    ensures r.Some? <==> exists a, b :: 0 <= a < b <= |item| && MatchSpan(item, Alternatives(MajorPrefixes), Before(Alternatives(MajorSuffixes)), a, b)
    ensures r.Some? ==> r.value.Major? && exists i, j ::
      LeftmostLongest(item, Alternatives(MajorPrefixes), Before(Alternatives(MajorSuffixes)), i, j) && r.value.name == CutSuffix(item[i..j], MajorSuffixes)
  {
    match MatchPrefCleanSuffAsWritten(item, MajorPrefixes, MajorSuffixes, true)
    case None => None
    case Some(m) => Some(Major(m))
  }

  /** `parse_major_requirement` with the lookahead that the docstring of
      `match_pref_clean_suff` describes: the name must be followed by one
      of the whole suffixes.  Unlike a lookbehind, a lookahead need not
      have a fixed width, so the suffixes need no trimming. */
  function ParseMajorRequirement(item: string): (r: Option<Constraint>)
    ensures r.Some? <==> exists a, b :: 0 <= a < b <= |item| && MatchSpan(item, Alternatives(MajorPrefixes), Before(MajorSuffixes), a, b)
    ensures r.Some? ==> r.value.Major? && exists i, j ::
      LeftmostLongest(item, Alternatives(MajorPrefixes), Before(MajorSuffixes), i, j) && r.value.name == CutSuffix(item[i..j], MajorSuffixes)
  {
    match MatchPrefCleanSuff(item, MajorPrefixes, MajorSuffixes, true)
    case None => None
    case Some(m) => Some(Major(m))
  }

  /** A search finds the span that starts where the lookbehind first holds
      and ends where the lookahead last holds within the run. */
  lemma SearchFinds(s: string, lb: seq<string>, e: Ending, i: nat, j: nat)
    requires MatchSpan(s, lb, e, i, j)
    requires forall a :: 0 <= a < i ==> !LookbehindAt(s, lb, a)
    requires forall b :: j < b <= |s| ==> !LookaheadAt(s, e, b)
    ensures Search(s, lb, e) == Some((i, j))
  {
    var r := Search(s, lb, e);
    LeftmostLongestUnique(s, lb, e, r.value.0, r.value.1, i, j);
  }

  // ---------------------------------------------------------------------
  // parse_course_requirement

  /** The prefix list as written: a missing comma makes Python join
      `'admission to the '` and `'major within the '` into one string. */
  const CoursePrefixesAsWritten: seq<string> :=
    ["entry into the ", "enrolled in the ", " points of the ", "admission to the major within the ", "major of the "]

  /** The six prefixes the list is laid out to hold. */
  const CoursePrefixes: seq<string> :=
    ["entry into the ", "enrolled in the ", " points of the ", "admission to the ", "major within the ", "major of the "]

  const CourseSuffixes: seq<string> := [" to complete this subject", " to enrol in this capstone subject"]

  const DegreeTypes: seq<string> := ["Advanced", "Associate", "Bachelor", "Diploma", "Doctor", "Graduate", "Master"]

  /** `d[:6] for d in degree_types` */
  function FirstSix(ds: seq<string>): (r: seq<string>)
    requires forall k :: 0 <= k < |ds| ==> 6 <= |ds[k]|
    ensures |r| == |ds|
    ensures forall k :: 0 <= k < |r| ==> r[k] == ds[k][..6]
  {
    if ds == [] then [] else [ds[0][..6]] + FirstSix(ds[1..])
  }

  /** A degree name starts at position `p`, judged by its first six letters. */
  predicate DegreeAhead(s: string, p: int, degrees: seq<string>) {
    exists k :: 0 <= k < |degrees| && HasAtIgnoreCase(s, p, degrees[k])
  }

  /** The length of the separator ` or |, (?=Advanc|Associ|...)` that
      matches at position `i`, ignoring case, or 0 when none does. */
  function SepLen(s: string, i: int, degrees: seq<string>): (n: nat)
    ensures n == 0 || n == 2 || n == 4
    ensures n > 0 ==> 0 <= i && i + n <= |s|
  {
    if HasAtIgnoreCase(s, i, " or ") then 4
    else if HasAt(s, i, ", ") && DegreeAhead(s, i + 2, degrees) then 2
    else 0
  }

  /** The pieces `re.split` produces from position `i` on, the current
      piece having begun at `start`. */
  function SplitFrom(s: string, degrees: seq<string>, start: nat, i: nat): (r: seq<string>)
    requires start <= i <= |s|
    ensures |r| > 0
    decreases |s| - i
  {
    if i == |s| then [s[start..]]
    else if SepLen(s, i, degrees) > 0 then [s[start..i]] + SplitFrom(s, degrees, i + SepLen(s, i, degrees), i + SepLen(s, i, degrees))
    else SplitFrom(s, degrees, start, i + 1)
  }

  /** The separators `re.split` consumes from position `i` on. */
  function SepsFrom(s: string, degrees: seq<string>, i: nat): (r: seq<string>)
    requires i <= |s|
    decreases |s| - i
  {
    if i == |s| then []
    else if SepLen(s, i, degrees) > 0 then [s[i..i + SepLen(s, i, degrees)]] + SepsFrom(s, degrees, i + SepLen(s, i, degrees))
    else SepsFrom(s, degrees, i + 1)
  }

  /** `re.split(rf' or |, (?={degree_prefix_string})', course, flags=re.IGNORECASE)`,
      the lookahead's alternatives being `degrees` */
  function SplitWith(s: string, degrees: seq<string>): (r: seq<string>)
    ensures |r| > 0
  {
    SplitFrom(s, degrees, 0, 0)
  }

  /** `d[:6] for d in degree_types`, written out; `DegreePrefixesOfTypes`
      shows it is what the code computes. */
  const DegreePrefixes: seq<string> := ["Advanc", "Associ", "Bachel", "Diplom", "Doctor", "Gradua", "Master"]

  lemma DegreePrefixesOfTypes()
    ensures FirstSix(DegreeTypes) == DegreePrefixes
  {
    var r := FirstSix(DegreeTypes);
    assert r[0] == "Advanced"[..6] == "Advanc";
    assert r[1] == "Associate"[..6] == "Associ";
    assert r[2] == "Bachelor"[..6] == "Bachel";
    assert r[3] == "Diploma"[..6] == "Diplom";
    assert r[4] == "Doctor"[..6] == "Doctor";
    assert r[5] == "Graduate"[..6] == "Gradua";
    assert r[6] == "Master"[..6] == "Master";
  }

  /** The split `parse_course_requirement` performs. */
  function Split(s: string): (r: seq<string>)
    ensures |r| > 0
  {
    SplitWith(s, DegreePrefixes)
  }

  /** `pieces[0] + seps[0] + pieces[1] + ... + pieces[n]` */
  function Interleave(pieces: seq<string>, seps: seq<string>): string
    requires |pieces| == |seps| + 1
  {
    if seps == [] then pieces[0] else pieces[0] + seps[0] + Interleave(pieces[1..], seps[1..])
  }

  lemma SplitFromRejoin(s: string, degrees: seq<string>, start: nat, i: nat)
    requires start <= i <= |s|
    ensures |SplitFrom(s, degrees, start, i)| == |SepsFrom(s, degrees, i)| + 1
    ensures Interleave(SplitFrom(s, degrees, start, i), SepsFrom(s, degrees, i)) == s[start..]
    ensures forall k :: 0 <= k < |SepsFrom(s, degrees, i)| ==> IsSeparatorText(SepsFrom(s, degrees, i)[k])
  {
    SplitFromInterleave(s, degrees, start, i);
    SepsSeparators(s, degrees, i);
  }

  /** The pieces from `start`, rejoined with the separators from `i`, give
      back the string from `start`. */
  lemma {:induction false} SplitFromInterleave(s: string, degrees: seq<string>, start: nat, i: nat)
    requires start <= i <= |s|
    ensures |SplitFrom(s, degrees, start, i)| == |SepsFrom(s, degrees, i)| + 1
    ensures Interleave(SplitFrom(s, degrees, start, i), SepsFrom(s, degrees, i)) == s[start..]
    decreases |s| - i
  {
    if i == |s| {
    } else if SepLen(s, i, degrees) > 0 {
      var n := SepLen(s, i, degrees);
      SplitFromInterleave(s, degrees, i + n, i + n);
      RejoinCut(s, start, i, n, SplitFrom(s, degrees, i + n, i + n), SepsFrom(s, degrees, i + n));
    } else {
      SplitFromInterleave(s, degrees, start, i + 1);
    }
  }

  /** Every separator consumed is ` or ` in some case, or `, `. */
  lemma {:induction false} SepsSeparators(s: string, degrees: seq<string>, i: nat)
    requires i <= |s|
    ensures forall k :: 0 <= k < |SepsFrom(s, degrees, i)| ==> IsSeparatorText(SepsFrom(s, degrees, i)[k])
    decreases |s| - i
  {
    if i == |s| {
    } else if SepLen(s, i, degrees) > 0 {
      var n := SepLen(s, i, degrees);
      SepsSeparators(s, degrees, i + n);
      SepAtStart(s, degrees, i);
      var rest := SepsFrom(s, degrees, i + n);
      var all := [s[i..i + n]] + rest;
      forall k | 0 <= k < |all| ensures IsSeparatorText(all[k]) {
        if k > 0 {
          assert all[k] == rest[k - 1];
        }
      }
    } else {
      SepsSeparators(s, degrees, i + 1);
    }
  }

  /** A piece and a separator in front of pieces and separators that
      rejoin to the rest of the string rejoin to the whole. */
  lemma RejoinCut(s: string, start: nat, i: nat, n: nat, pieces: seq<string>, seps: seq<string>)
    requires start <= i && i + n <= |s|
    requires |pieces| == |seps| + 1 && Interleave(pieces, seps) == s[i + n..]
    ensures Interleave([s[start..i]] + pieces, [s[i..i + n]] + seps) == s[start..]
  {
    var p, q := [s[start..i]] + pieces, [s[i..i + n]] + seps;
    assert p[1..] == pieces && q[1..] == seps;
    assert Interleave(p, q) == s[start..i] + s[i..i + n] + Interleave(pieces, seps);
    Slices(s, start, i, i + n);
  }

  /** The text a separator consumes: ` or ` in any case, or `, ` (its
      lookahead consumes nothing). */
  predicate IsSeparatorText(w: string) {
    EqualsIgnoreCase(w, " or ") || w == ", "
  }

  lemma SepAtStart(s: string, degrees: seq<string>, i: nat)
    requires SepLen(s, i, degrees) > 0
    ensures IsSeparatorText(s[i..i + SepLen(s, i, degrees)])
  {
  }

  /** A separator inside a slice is a separator in the whole string. */
  lemma SepInSlice(s: string, degrees: seq<string>, a: nat, b: nat, q: int)
    requires a <= b <= |s|
    requires SepLen(s[a..b], q, degrees) > 0
    ensures SepLen(s, a + q, degrees) > 0
  {
    var t := s[a..b];
    if HasAtIgnoreCase(t, q, " or ") {
      HasAtInSlice(s, a, b, q, " or ");
    } else {
      HasAtInSlice(s, a, b, q, ", ");
      var k :| 0 <= k < |degrees| && HasAtIgnoreCase(t, q + 2, degrees[k]);
      HasAtInSlice(s, a, b, q + 2, degrees[k]);
    }
  }

  lemma HasAtInSlice(s: string, a: nat, b: nat, q: int, w: string)
    requires a <= b <= |s|
    requires HasAtIgnoreCase(s[a..b], q, w)
    ensures HasAtIgnoreCase(s, a + q, w)
  {
    var x, y := s[a..b][q..q + |w|], s[a + q..a + q + |w|];
    forall i | 0 <= i < |w| ensures x[i] == y[i] {
      assert x[i] == s[a + q + i];
    }
    assert x == y;
  }

  /** No piece `re.split` returns holds a separator. */
  lemma {:induction false} SplitFromPiecesClean(s: string, degrees: seq<string>, start: nat, i: nat)
    requires start <= i <= |s|
    requires forall q :: start <= q < i ==> SepLen(s, q, degrees) == 0
    ensures forall k, q :: 0 <= k < |SplitFrom(s, degrees, start, i)| ==> SepLen(SplitFrom(s, degrees, start, i)[k], q, degrees) == 0
    decreases |s| - i
  {
    if i == |s| {
      PieceClean(s, degrees, start, i);
      assert s[start..] == s[start..i];
    } else if SepLen(s, i, degrees) > 0 {
      PieceClean(s, degrees, start, i);
      var n := SepLen(s, i, degrees);
      var rest := SplitFrom(s, degrees, i + n, i + n);
      SplitFromPiecesClean(s, degrees, i + n, i + n);
      ConsClean(s[start..i], rest, degrees);
    } else {
      SplitFromPiecesClean(s, degrees, start, i + 1);
    }
  }

  /** A stretch of `s` in which no separator starts holds no separator. */
  lemma PieceClean(s: string, degrees: seq<string>, start: nat, i: nat)
    requires start <= i <= |s|
    requires forall q :: start <= q < i ==> SepLen(s, q, degrees) == 0
    ensures forall q :: SepLen(s[start..i], q, degrees) == 0
  {
    forall q | SepLen(s[start..i], q, degrees) > 0 ensures false {
      SepInSlice(s, degrees, start, i, q);
    }
  }

  /** Putting a clean piece in front of clean pieces keeps them clean. */
  lemma ConsClean(p: string, rest: seq<string>, degrees: seq<string>)
    requires forall q :: SepLen(p, q, degrees) == 0
    requires forall k, q :: 0 <= k < |rest| ==> SepLen(rest[k], q, degrees) == 0
    ensures forall k, q :: 0 <= k < |[p] + rest| ==> SepLen(([p] + rest)[k], q, degrees) == 0
  {
    forall k, q | 0 <= k < |[p] + rest| ensures SepLen(([p] + rest)[k], q, degrees) == 0 {
      if k > 0 {
        assert ([p] + rest)[k] == rest[k - 1];
      }
    }
  }

  /** `re.split` cuts the string at every separator and nowhere else: the
      pieces, rejoined with the separators consumed between them, give
      back the string, and no piece holds a separator. */
  lemma SplitRejoin(s: string, degrees: seq<string>)
    ensures |SplitWith(s, degrees)| == |SepsFrom(s, degrees, 0)| + 1
    ensures Interleave(SplitWith(s, degrees), SepsFrom(s, degrees, 0)) == s
    ensures forall k :: 0 <= k < |SepsFrom(s, degrees, 0)| ==> IsSeparatorText(SepsFrom(s, degrees, 0)[k])
    ensures forall k, q :: 0 <= k < |SplitWith(s, degrees)| ==> SepLen(SplitWith(s, degrees)[k], q, degrees) == 0
  {
    SplitFromRejoin(s, degrees, 0, 0);
    SplitFromPiecesClean(s, degrees, 0, 0);
  }

  /** `[c.strip() for c in pieces]` */
  function StripAll(pieces: seq<string>): (r: seq<string>)
    ensures |r| == |pieces|
    ensures forall k :: 0 <= k < |r| ==> r[k] == Strip(pieces[k])
  {
    if pieces == [] then [] else [Strip(pieces[0])] + StripAll(pieces[1..])
  }

  /** `parse_course_requirement` as written, with five prefixes. */
  function ParseCourseRequirementAsWritten(item: string): (r: Option<Constraint>)
    ensures r.Some? <==> exists a, b :: 0 <= a < b <= |item| && MatchSpan(item, Alternatives(CoursePrefixesAsWritten), EndOrStop, a, b)
    ensures r.Some? ==> r.value.Course? && exists i, j ::
      && LeftmostLongest(item, Alternatives(CoursePrefixesAsWritten), EndOrStop, i, j)
      && r.value.courses == StripAll(Split(CutSuffix(item[i..j], CourseSuffixes)))
  {
    match MatchPrefCleanSuffAsWritten(item, CoursePrefixesAsWritten, CourseSuffixes, false)
    case None => None
    case Some(c) => Some(Course(StripAll(Split(c))))
  }

  /** `parse_course_requirement` with the six prefixes: the course names
      are the stripped pieces of the cleaned match, split at ` or ` and at
      a comma before a degree name. */
  function ParseCourseRequirement(item: string): (r: Option<Constraint>)
    ensures r.Some? <==> exists a, b :: 0 <= a < b <= |item| && MatchSpan(item, Alternatives(CoursePrefixes), EndOrStop, a, b)
    ensures r.Some? ==> r.value.Course? && exists i, j ::
      && LeftmostLongest(item, Alternatives(CoursePrefixes), EndOrStop, i, j)
      && r.value.courses == StripAll(Split(CutSuffix(item[i..j], CourseSuffixes)))
  {
    match MatchPrefCleanSuff(item, CoursePrefixes, CourseSuffixes, false)
    case None => None
    case Some(c) => Some(Course(StripAll(Split(c))))
  }

  /** The least length is `m` when no option is shorter and one is that long. */
  lemma MinLenIs(options: seq<string>, m: nat, k: nat)
    requires |options| > 0 && k < |options| && |options[k]| == m
    requires forall t :: 0 <= t < |options| ==> m <= |options[t]|
    ensures MinLen(options) == m
  {
    var t := MinLenAttained(options);
  }

  /** An alternative is the option's last `m` characters. */
  lemma AltAt(prefs: seq<string>, k: nat, tail: string)
    requires k < |prefs| && MinLen(prefs) == |tail| <= |prefs[k]|
    requires prefs[k][|prefs[k]| - |tail|..] == tail
    ensures Alternatives(prefs)[k] == tail
  {
  }

  /** The characters of `head + tail` after `head`. */
  lemma SplitAfter(o: string, head: string, tail: string)
    requires o == head + tail
    ensures o[|head|..] == tail
  {
  }

  /** No alternative agrees with `w`, ignoring case, at position `i`. */
  lemma NoAltMatches(w: string, alts: seq<string>, i: nat)
    requires i < |w|
    requires forall k :: 0 <= k < |alts| ==> i < |alts[k]| && Lower(w[i]) != Lower(alts[k][i])
    ensures forall k :: 0 <= k < |alts| ==> !EqualsIgnoreCase(w, alts[k])
  {
  }

  // ---------------------------------------------------------------------
  // parse_points_requirement

  /** Where the digits of `must be in the (last|final) ` begin when those
      words match at `p`, ignoring case. */
  function PointsDigitsStart(s: string, p: int): (d: Option<nat>)
    ensures d.Some? ==> 0 <= p && d.value <= |s|
  {
    if !HasAtIgnoreCase(s, p, "must be in the ") then None
    else if HasAtIgnoreCase(s, p + 15, "last ") then Some(p + 20)
    else if HasAtIgnoreCase(s, p + 15, "final ") then Some(p + 21)
    else None
  }

  /** `must be in the (last|final) [\d]+` matches at `p`. */
  predicate PointsAt(s: string, p: int) {
    var d := PointsDigitsStart(s, p);
    d.Some? && d.value < |s| && IsDigit(s[d.value])
  }

  /** End of the maximal run of digits from `i`. */
  function DigitRunEnd(s: string, i: nat): (k: nat)
    requires i <= |s|
    ensures i <= k <= |s|
    ensures forall t :: i <= t < k ==> IsDigit(s[t])
    ensures k < |s| ==> !IsDigit(s[k])
    decreases |s| - i
  {
    if i < |s| && IsDigit(s[i]) then DigitRunEnd(s, i + 1) else i
  }

  /** The group `n` of a match at `p`: the greedy run of digits. */
  function PointsNumber(s: string, p: int): (n: string)
    requires PointsAt(s, p)
    ensures |n| > 0 && forall t :: 0 <= t < |n| ==> IsDigit(n[t])
  {
    var d := PointsDigitsStart(s, p).value;
    s[d..DigitRunEnd(s, d)]
  }

  /** The leftmost position from `p` on where the points pattern matches. */
  function FirstPointsFrom(s: string, p: nat): (r: Option<nat>)
    requires p <= |s|
    ensures r.Some? ==> p <= r.value < |s| && PointsAt(s, r.value)
    ensures r.Some? ==> forall q :: p <= q < r.value ==> !PointsAt(s, q)
    ensures r.None? ==> forall q :: p <= q ==> !PointsAt(s, q)
    decreases |s| - p
  {
    if PointsAt(s, p) then Some(p)
    else if p == |s| then None
    else FirstPointsFrom(s, p + 1)
  }

  /** `parse_points_requirement`: the number after the first "must be in
      the last" or "must be in the final", in any case, or nothing. */
  function ParsePointsRequirement(item: string): (r: Option<Constraint>)
    ensures r.Some? <==> exists p :: 0 <= p < |item| && PointsAt(item, p)
    ensures r.Some? ==> r.value.Points? && r.value.scope == "FINAL" && exists p ::
      && 0 <= p < |item| && PointsAt(item, p)
      && (forall q :: 0 <= q < p ==> !PointsAt(item, q))
      && r.value.n == PointsNumber(item, p)
  {
    match FirstPointsFrom(item, 0)
    case None => None
    case Some(p) => Some(Points("FINAL", PointsNumber(item, p)))
  }

  /** ASCII lower-casing is idempotent and leaves digits alone. */
  lemma LowerFacts(c: char)
    ensures Lower(Lower(c)) == Lower(c)
    ensures IsDigit(Lower(c)) <==> IsDigit(c)
    ensures IsDigit(c) ==> Lower(c) == c
  {
  }

  /** A case-insensitive test does not see lower-casing. */
  lemma HasAtIgnoreCaseLower(s: string, p: int, w: string)
    ensures HasAtIgnoreCase(LowerStr(s), p, w) <==> HasAtIgnoreCase(s, p, w)
  {
    var l := LowerStr(s);
    if 0 <= p && p + |w| <= |s| {
      forall j | p <= j < p + |w| ensures Lower(l[j]) == Lower(s[j]) {
        LowerFacts(s[j]);
      }
    }
  }

  lemma {:induction false} DigitRunEndLower(s: string, i: nat)
    requires i <= |s|
    ensures DigitRunEnd(LowerStr(s), i) == DigitRunEnd(s, i)
    ensures LowerStr(s)[i..DigitRunEnd(s, i)] == s[i..DigitRunEnd(s, i)]
    decreases |s| - i
  {
    var l, e := LowerStr(s), DigitRunEnd(s, i);
    forall t | i <= t < e ensures l[t] == s[t] {
      LowerFacts(s[t]);
    }
    assert l[i..e] == s[i..e];
    if i < |s| {
      LowerFacts(s[i]);
      if IsDigit(s[i]) {
        DigitRunEndLower(s, i + 1);
      }
    }
  }

  lemma PointsAtLower(s: string, p: int)
    ensures PointsAt(LowerStr(s), p) <==> PointsAt(s, p)
    ensures PointsAt(s, p) ==> PointsNumber(LowerStr(s), p) == PointsNumber(s, p)
  {
    HasAtIgnoreCaseLower(s, p, "must be in the ");
    HasAtIgnoreCaseLower(s, p + 15, "last ");
    HasAtIgnoreCaseLower(s, p + 15, "final ");
    var d := PointsDigitsStart(s, p);
    if d.Some? && d.value < |s| {
      LowerFacts(s[d.value]);
      DigitRunEndLower(s, d.value);
    }
  }

  /** The points clause is found regardless of case, and lower-casing the
      requirement text changes neither whether it is found nor the number. */
  lemma PointsIgnoreCase(s: string)
    ensures ParsePointsRequirement(LowerStr(s)) == ParsePointsRequirement(s)
  {
    forall p ensures PointsAt(LowerStr(s), p) <==> PointsAt(s, p) {
      PointsAtLower(s, p);
    }
    var r, r' := FirstPointsFrom(s, 0), FirstPointsFrom(LowerStr(s), 0);
    if r.Some? {
      assert r'.Some? && r'.value == r.value;
      PointsAtLower(s, r.value);
    }
  }

  // ---------------------------------------------------------------------
  // parse_subject_requirement

  const FieldLead := "have completed a minimum of "
  const FieldMid := " year units in "
  const FieldSuffix := ", or equivalent"

  /** End of the maximal run of `\w` characters from `i`. */
  function WordRunEnd(s: string, i: nat): (k: nat)
    requires i <= |s|
    ensures i <= k <= |s|
    ensures forall t :: i <= t < k ==> IsWordChar(s[t])
    ensures k < |s| ==> !IsWordChar(s[k])
    decreases |s| - i
  {
    if i < |s| && IsWordChar(s[i]) then WordRunEnd(s, i + 1) else i
  }

  /** Where the word `n` ends when the fixed text of
      `have completed a minimum of (\w+) (\d)(nd|rd|th) year units in `
      matches at `p` (case matters: this pattern has no IGNORECASE).
      `\w+` is greedy and followed by a space, which it cannot match, so
      it takes the whole run of word characters. */
  function FieldWordEnd(s: string, p: int): (q: Option<nat>)
    ensures q.Some? ==> 0 <= p && p + 28 < q.value && q.value + 19 <= |s|
    ensures q.Some? ==> HasAt(s, p, FieldLead) && q.value == WordRunEnd(s, p + 28)
    ensures q.Some? ==> s[q.value] == ' ' && IsDigit(s[q.value + 1]) && s[q.value + 2..q.value + 4] in ["nd", "rd", "th"]
    ensures q.Some? ==> HasAt(s, q.value + 4, FieldMid)
  {
    if !HasAt(s, p, FieldLead) then None
    else
      var q := WordRunEnd(s, p + 28);
      if p + 28 < q && q + 19 <= |s| && s[q] == ' ' && IsDigit(s[q + 1])
         && s[q + 2..q + 4] in ["nd", "rd", "th"] && HasAt(s, q + 4, FieldMid)
      then Some(q)
      else None
  }

  /** Where the group `fields` ends when the whole pattern matches at `p`:
      the last end in the run of RE_ANY characters where RE_END holds. */
  function FieldEnd(s: string, p: int): (e: Option<nat>)
    ensures e.Some? ==> FieldWordEnd(s, p).Some?
    ensures e.Some? ==> FieldWordEnd(s, p).value + 19 < e.value <= |s|
  {
    match FieldWordEnd(s, p)
    case None => None
    case Some(q) => LastEnd(s, EndOrStop, q + 19, RunEnd(s, q + 19))
  }

  predicate FieldAt(s: string, p: int) {
    FieldEnd(s, p).Some?
  }

  /** The leftmost position from `p` on where the subject pattern matches. */
  function FirstFieldFrom(s: string, p: nat): (r: Option<nat>)
    requires p <= |s|
    ensures r.Some? ==> p <= r.value < |s| && FieldAt(s, r.value)
    ensures r.Some? ==> forall q :: p <= q < r.value ==> !FieldAt(s, q)
    ensures r.None? ==> forall q :: p <= q ==> !FieldAt(s, q)
    decreases |s| - p
  {
    if FieldAt(s, p) then Some(p)
    else if p == |s| then None
    else FirstFieldFrom(s, p + 1)
  }

  /** A match with none before it is the one the scan from 0 finds. */
  lemma FirstFieldIs(s: string)
    ensures forall p :: 0 <= p < |s| && FieldAt(s, p) && (forall p' :: 0 <= p' < p ==> !FieldAt(s, p')) ==>
      FirstFieldFrom(s, 0) == Some(p)
  {
    forall p | 0 <= p < |s| && FieldAt(s, p) && (forall p' :: 0 <= p' < p ==> !FieldAt(s, p'))
      ensures FirstFieldFrom(s, 0) == Some(p)
    {
      var r := FirstFieldFrom(s, 0);
      assert r.Some?;
      assert !(r.value < p) && !(p < r.value);
    }
  }

  /** The dictionary `{'one': 1, ..., 'ten': 10}`. */
  function NumberWord(w: string): (n: Option<int>)
  {
    if w == "one" then Some(1)
    else if w == "two" then Some(2)
    else if w == "three" then Some(3)
    else if w == "four" then Some(4)
    else if w == "five" then Some(5)
    else if w == "six" then Some(6)
    else if w == "seven" then Some(7)
    else if w == "eight" then Some(8)
    else if w == "nine" then Some(9)
    else if w == "ten" then Some(10)
    else None
  }

  /** The English name of a count from one to ten. */
  function NumberName(n: int): string
    requires 1 <= n <= 10
  {
    ["one", "two", "three", "four", "five", "six", "seven", "eight", "nine", "ten"][n - 1]
  }

  /** The dictionary maps exactly the ten names, each to its own count. */
  lemma NumberWordNames(w: string, n: int)
    ensures 1 <= n <= 10 ==> NumberWord(NumberName(n)) == Some(n)
    ensures NumberWord(w) == Some(n) ==> 1 <= n <= 10 && w == NumberName(n)
  {
  }

  /** `int(c)` for one ASCII digit. */
  function DigitValue(c: char): (v: int)
    requires IsDigit(c)
    ensures 0 <= v <= 9
  {
    c as int - '0' as int
  }

  /** The groups `n`, `y` and `fields` of a match at `p`. */
  function FieldWord(s: string, p: int): string
    requires FieldAt(s, p)
  {
    s[p + 28..FieldWordEnd(s, p).value]
  }

  function FieldYear(s: string, p: int): (y: int)
    requires FieldAt(s, p)
    ensures 0 <= y <= 9
  {
    DigitValue(s[FieldWordEnd(s, p).value + 1])
  }

  function FieldText(s: string, p: int): string
    requires FieldAt(s, p)
  {
    s[FieldWordEnd(s, p).value + 19..FieldEnd(s, p).value]
  }

  /** `parse_subject_requirement`: the count, year and fields of the first
      "have completed a minimum of N Yth year units in FIELDS" clause, with
      ", or equivalent" cut off the fields, or nothing when there is no such
      clause or when N is not one of the ten names (the code reports that
      and returns `None`; a later clause is not tried). */
  function ParseSubjectRequirement(item: string): (r: Option<Constraint>)
    ensures (forall p :: 0 <= p < |item| ==> !FieldAt(item, p)) ==> r.None?
    ensures r.Some? ==> r.value.Field? && 1 <= r.value.count <= 10 && 0 <= r.value.year <= 9
    ensures r.Some? ==> exists p ::
      && 0 <= p < |item| && FieldAt(item, p) && (forall p' :: 0 <= p' < p ==> !FieldAt(item, p'))
      && NumberWord(FieldWord(item, p)) == Some(r.value.count)
      && r.value.year == FieldYear(item, p)
      && r.value.fields == CutSuffix(FieldText(item, p), [FieldSuffix])
    ensures forall p :: 0 <= p < |item| && FieldAt(item, p) && (forall p' :: 0 <= p' < p ==> !FieldAt(item, p')) ==>
      r == if NumberWord(FieldWord(item, p)).Some?
        then Some(Field(NumberWord(FieldWord(item, p)).value, FieldYear(item, p), CutSuffix(FieldText(item, p), [FieldSuffix])))
        else None
  {
    FirstFieldIs(item);
    match FirstFieldFrom(item, 0)
    case None => None
    case Some(p) =>
      match NumberWord(FieldWord(item, p))
      case None => None
      case Some(n) =>
        NumberWordNames(FieldWord(item, p), n);
        Some(Field(n, FieldYear(item, p), CutSuffix(FieldText(item, p), [FieldSuffix])))
  }
}
